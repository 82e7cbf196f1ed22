/**
 * The path and string helpers the scripts call: Windows `os.path` (ntpath,
 * where both `\` and `/` separate components) `split`, `dirname`, `basename`
 * and `splitext`, and Python's `str.replace`.
 */
module Paths {

  predicate IsSep(c: char) {
    c == '\\' || c == '/'
  }

  /** Index just after the last separator of `p`, or 0 when it has none: where the last component starts. */
  function TailStart(p: string): (i: nat)
    ensures i <= |p|
    ensures forall k :: i <= k < |p| ==> !IsSep(p[k])
    ensures i == 0 || IsSep(p[i - 1])
  {
    if p == [] || IsSep(p[|p| - 1]) then |p| else TailStart(p[..|p| - 1])
  }

  /** `s.rstrip('\\/')`. */
  function StripSeps(s: string): (r: string)
    ensures |r| <= |s| && r == s[..|r|]
    ensures forall k :: |r| <= k < |s| ==> IsSep(s[k])
    ensures r == [] || !IsSep(r[|r| - 1])
  {
    if s != [] && IsSep(s[|s| - 1]) then StripSeps(s[..|s| - 1]) else s
  }

  /**
   * `ntpath.split(p)`: the last component, and everything before it with its
   * trailing separators removed (unless only separators are left).
   */
  function Split(p: string): (string, string) {
    var i := TailStart(p);
    var head := p[..i];
    var stripped := StripSeps(head);
    (if stripped == [] then head else stripped, p[i..])
  }

  function Dirname(p: string): string {
    Split(p).0
  }

  function Basename(p: string): string {
    Split(p).1
  }

  /**
   * `split` cuts `p` into a prefix, a run of separators and a last component
   * that holds no separator; the prefix ends in a separator only when it is
   * nothing but separators.
   */
  lemma SplitSpec(p: string)
    ensures var (h, t) := Split(p);
      && |h| + |t| <= |p| && h == p[..|h|] && t == p[|p| - |t|..]
      && (forall k :: 0 <= k < |t| ==> !IsSep(t[k]))
      && (forall k :: |h| <= k < |p| - |t| ==> IsSep(p[k]))
      && (|t| == |p| || IsSep(p[|p| - |t| - 1]))
      && (h == [] || !IsSep(h[|h| - 1]) || forall k :: 0 <= k < |h| ==> IsSep(h[k]))
  {
    var i := TailStart(p);
    var head := p[..i];
    var stripped := StripSeps(head);
    if stripped == [] {
      assert forall k :: 0 <= k < |head| ==> IsSep(head[k]);
    }
  }

  /** Appending text without a separator keeps the last separator where it was. */
  lemma {:induction false} TailStartAppend(a: string, b: string)
    requires forall k :: 0 <= k < |b| ==> !IsSep(b[k])
    ensures TailStart(a + b) == TailStart(a)
    decreases |b|
  {
    if b != [] {
      var b' := b[..|b| - 1];
      assert (a + b)[..|a + b| - 1] == a + b';
      TailStartAppend(a, b');
    } else {
      assert a + b == a;
    }
  }

  // ---- splitext ----

  /** Index of the last '.' of `p`, or -1. */
  function LastDot(p: string): (r: int)
    ensures -1 <= r < |p|
    ensures r >= 0 ==> p[r] == '.'
    ensures forall k :: r < k < |p| ==> p[k] != '.'
  {
    if p == [] then -1 else if p[|p| - 1] == '.' then |p| - 1 else LastDot(p[..|p| - 1])
  }

  /**
   * `ntpath.splitext(p)`: cut at the last dot when that dot lies in the last
   * component and something other than a dot precedes it there (so a leading
   * dot, as in `.hidden`, does not start an extension); otherwise no extension.
   */
  function SplitExt(p: string): (string, string) {
    var start := TailStart(p);
    var dot := LastDot(p);
    if dot >= start && exists k :: start <= k < dot && p[k] != '.' then (p[..dot], p[dot..])
    else (p, "")
  }

  /**
   * Root and extension put back together give the path; the extension is
   * empty or a dot followed by neither a dot nor a separator; and it is
   * non-empty exactly when the last component has a dot after some other character.
   */
  lemma SplitExtSpec(p: string)
    ensures SplitExt(p).0 + SplitExt(p).1 == p
    ensures var e := SplitExt(p).1;
      e == [] || (e[0] == '.' && forall k :: 1 <= k < |e| ==> e[k] != '.' && !IsSep(e[k]))
    ensures SplitExt(p).1 != [] <==>
      exists j, k :: TailStart(p) <= k < j < |p| && p[j] == '.' && p[k] != '.'
  {
    var start := TailStart(p);
    var dot := LastDot(p);
    if exists j, k :: start <= k < j < |p| && p[j] == '.' && p[k] != '.' {
      var j, k :| start <= k < j < |p| && p[j] == '.' && p[k] != '.';
      assert dot >= j;
      assert start <= k < dot && p[k] != '.';
    }
    if SplitExt(p).1 != [] {
      var k :| start <= k < dot && p[k] != '.';
      assert start <= k < dot < |p| && p[dot] == '.';
    }
  }

  /** `os.path.splitext(p)[0] + suffix`: the name of a file written beside `p`. */
  function WithSuffix(p: string, suffix: string): string {
    SplitExt(p).0 + suffix
  }

  /**
   * The derived file lies in the same directory as `p`: only the extension
   * of the last component is replaced by the suffix.
   */
  lemma WithSuffixSpec(p: string, suffix: string)
    requires forall k :: 0 <= k < |suffix| ==> !IsSep(suffix[k])
    ensures WithSuffix(p, suffix) == p[..|p| - |SplitExt(p).1|] + suffix
    ensures Dirname(WithSuffix(p, suffix)) == Dirname(p)
  {
    SplitExtSpec(p);
    var root := SplitExt(p).0;
    var ext := SplitExt(p).1;
    assert root == p[..|p| - |ext|];
    TailStartAppend(root, suffix);
    TailStartAppend(root, ext);
    var out := root + suffix;
    assert TailStart(out) == TailStart(p);
    assert out[..TailStart(out)] == p[..TailStart(p)];
  }

  // ---- str.replace ----

  /**
   * `s.replace(old, new)`: every non-overlapping occurrence of `old`, found
   * from the left, is replaced by `new`; an empty `old` matches before every
   * character and at the end.
   */
  function Replace(s: string, target: string, replacement: string): string
    decreases |s|
  {
    if target == [] then
      if s == [] then replacement else replacement + [s[0]] + Replace(s[1..], target, replacement)
    else if |s| >= |target| && s[..|target|] == target then replacement + Replace(s[|target|..], target, replacement)
    else if s == [] then []
    else [s[0]] + Replace(s[1..], target, replacement)
  }

  /** `w` occurs in `s` at index `i`. */
  predicate OccursAt(s: string, w: string, i: nat) {
    i + |w| <= |s| && s[i..i + |w|] == w
  }

  /** Without an occurrence of `target`, replacing changes nothing. */
  lemma {:induction false} ReplaceAbsent(s: string, target: string, replacement: string)
    requires target != []
    requires forall i :: 0 <= i <= |s| ==> !OccursAt(s, target, i)
    ensures Replace(s, target, replacement) == s
    decreases |s|
  {
    if s != [] {
      assert !OccursAt(s, target, 0);
      forall i | 0 <= i <= |s[1..]| ensures !OccursAt(s[1..], target, i) {
        assert !OccursAt(s, target, i + 1);
        if i + |target| <= |s[1..]| {
          assert s[1..][i..i + |target|] == s[i + 1..i + 1 + |target|];
        }
      }
      ReplaceAbsent(s[1..], target, replacement);
    }
  }

  /**
   * The leftmost occurrence of `target` is replaced by `replacement`, the text
   * before it is kept, and replacing goes on after it: with the lemma above,
   * this says what `str.replace` does to every string.
   */
  lemma {:induction false} ReplaceFirst(a: string, target: string, replacement: string, b: string)
    requires target != []
    requires forall i :: 0 <= i < |a| ==> !OccursAt(a + target, target, i)
    ensures Replace(a + target + b, target, replacement) == a + replacement + Replace(b, target, replacement)
    decreases |a|
  {
    var s := a + target + b;
    if a == [] {
      assert s == target + b;
      assert s[..|target|] == target && s[|target|..] == b;
    } else {
      assert !OccursAt(a + target, target, 0);
      assert s[..|target|] == (a + target)[..|target|];
      assert s[1..] == a[1..] + target + b;
      NoEarlierOccurrence(a, target);
      ReplaceFirst(a[1..], target, replacement, b);
      var rest := Replace(b, target, replacement);
      assert Replace(s, target, replacement) == [a[0]] + (a[1..] + replacement + rest);
      assert a + replacement + rest == [a[0]] + (a[1..] + replacement + rest);
    }
  }

  /** Dropping the first character of `a` keeps `target` out of the text before it. */
  lemma NoEarlierOccurrence(a: string, target: string)
    requires a != []
    requires forall i :: 0 <= i < |a| ==> !OccursAt(a + target, target, i)
    ensures forall i :: 0 <= i < |a[1..]| ==> !OccursAt(a[1..] + target, target, i)
  {
    var u := a + target;
    assert a[1..] + target == u[1..];
    forall i | 0 <= i < |a[1..]| ensures !OccursAt(a[1..] + target, target, i) {
      assert !OccursAt(u, target, i + 1);
      if i + |target| <= |u[1..]| {
        assert u[1..][i..i + |target|] == u[i + 1..i + 1 + |target|];
      }
    }
  }

  /** Every character of the result comes from the input or from the replacement. */
  lemma {:induction false} ReplaceChars(s: string, target: string, replacement: string)
    ensures forall k :: 0 <= k < |Replace(s, target, replacement)| ==>
      Replace(s, target, replacement)[k] in s || Replace(s, target, replacement)[k] in replacement
    decreases |s|
  {
    var r := Replace(s, target, replacement);
    if target == [] {
      if s != [] {
        ReplaceChars(s[1..], target, replacement);
        var rest := Replace(s[1..], target, replacement);
        forall k | 0 <= k < |r| ensures r[k] in s || r[k] in replacement {
          if k > |replacement| {
            assert r[k] == rest[k - |replacement| - 1];
            assert rest[k - |replacement| - 1] in s[1..] || rest[k - |replacement| - 1] in replacement;
          }
        }
      }
    } else if |s| >= |target| && s[..|target|] == target {
      ReplaceChars(s[|target|..], target, replacement);
      var rest := Replace(s[|target|..], target, replacement);
      forall k | 0 <= k < |r| ensures r[k] in s || r[k] in replacement {
        if k >= |replacement| {
          assert r[k] == rest[k - |replacement|];
          assert rest[k - |replacement|] in s[|target|..] || rest[k - |replacement|] in replacement;
        }
      }
    } else if s != [] {
      ReplaceChars(s[1..], target, replacement);
      var rest := Replace(s[1..], target, replacement);
      forall k | 0 <= k < |r| ensures r[k] in s || r[k] in replacement {
        if k > 0 {
          assert r[k] == rest[k - 1];
          assert rest[k - 1] in s[1..] || rest[k - 1] in replacement;
        }
      }
    }
  }

  /** Replacing with text free of separators keeps a separator-free string free of them. */
  lemma ReplaceKeepsSeparatorFree(s: string, target: string, replacement: string)
    requires forall k :: 0 <= k < |s| ==> !IsSep(s[k])
    requires forall k :: 0 <= k < |replacement| ==> !IsSep(replacement[k])
    ensures forall k :: 0 <= k < |Replace(s, target, replacement)| ==> !IsSep(Replace(s, target, replacement)[k])
  {
    ReplaceChars(s, target, replacement);
    var r := Replace(s, target, replacement);
    forall k | 0 <= k < |r| ensures !IsSep(r[k]) {
      if r[k] in s {
        var j :| 0 <= j < |s| && s[j] == r[k];
      } else {
        var j :| 0 <= j < |replacement| && replacement[j] == r[k];
      }
    }
  }

  const Yolo := "yolo"
  const YoloV := "YOLOv"

  /** Replacing turns a leading `yolo` into a leading `Y`. */
  lemma ReplaceYoloStart(s: string)
    ensures |s| >= 4 && s[..4] == Yolo ==> |Replace(s, Yolo, YoloV)| > 0 && Replace(s, Yolo, YoloV)[0] == 'Y'
  {
  }

  /**
   * If the output of replacing `yolo` starts with text built from characters
   * that `YOLOv` does not contain, the input starts with that same text.
   */
  lemma {:induction false} ReplaceYoloPrefix(s: string, w: string)
    requires forall k :: 0 <= k < |w| ==> w[k] !in YoloV
    requires |w| <= |Replace(s, Yolo, YoloV)| && Replace(s, Yolo, YoloV)[..|w|] == w
    ensures |w| <= |s| && s[..|w|] == w
    decreases |s|
  {
    var r := Replace(s, Yolo, YoloV);
    if w != [] {
      ReplaceYoloStart(s);
      if |s| >= 4 && s[..4] == Yolo {
        assert false;
      } else {
        assert s != [];
        assert r == [s[0]] + Replace(s[1..], Yolo, YoloV);
        assert w[1..] == Replace(s[1..], Yolo, YoloV)[..|w| - 1];
        ReplaceYoloPrefix(s[1..], w[1..]);
      }
    }
  }

  /** After `replace('yolo', 'YOLOv')` no `yolo` is left, not even one formed across a replacement. */
  lemma {:induction false} ReplaceYoloLeavesNone(s: string)
    ensures forall i :: 0 <= i <= |Replace(s, Yolo, YoloV)| ==> !OccursAt(Replace(s, Yolo, YoloV), Yolo, i)
    decreases |s|
  {
    var r := Replace(s, Yolo, YoloV);
    if |s| >= 4 && s[..4] == Yolo {
      var rest := Replace(s[4..], Yolo, YoloV);
      ReplaceYoloLeavesNone(s[4..]);
      forall i | 0 <= i <= |r| ensures !OccursAt(r, Yolo, i) {
        if i < 5 {
          assert r[i] in YoloV;
        } else if i + 4 <= |r| {
          assert r[i..i + 4] == rest[i - 5..i - 1];
          assert !OccursAt(rest, Yolo, i - 5);
        }
      }
    } else if s != [] {
      var rest := Replace(s[1..], Yolo, YoloV);
      ReplaceYoloLeavesNone(s[1..]);
      forall i | 0 <= i <= |r| ensures !OccursAt(r, Yolo, i) {
        if i == 0 && OccursAt(r, Yolo, 0) {
          assert r[..4] == Yolo;
          ReplaceYoloPrefix(s, Yolo);
        } else if i > 0 && i + 4 <= |r| {
          assert r[i..i + 4] == rest[i - 1..i + 3];
          assert !OccursAt(rest, Yolo, i - 1);
        }
      }
    }
  }
}
