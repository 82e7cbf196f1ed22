/** Option and Result wrappers shared by the ranking scripts, and the ways a run can stop. */
module Basics {

  /** A cell or an average that may be missing (pandas' NaN). */
  datatype Option<+T> = None | Some(value: T)

  /** Why a script stops: its explicit `exit()` or an exception the script does not catch. */
  datatype Failure =
    | MissingColumn(name: string)   // KeyError: `df[col]` on a required metric column the table lacks
    | NoDatasets                    // TypeError: `set.intersection(*[])` when the table has no rows
    | NoCommonModels                // YoloBets.py prints an error and calls exit()
    | EmptyAggregate                // `pd.DataFrame([]).set_index('Model')` raises KeyError
    | MissingValue                  // sklearn refuses a feature matrix that holds NaN
    | DuplicateEntry                // `df.pivot` refuses two rows for one (Model, Dataset)
    | InsufficientData              // fewer than two samples for a two-component PCA
    | ModelLoadFailed(path: string) // `YOLO(path)` or `.to(device)` raised, outside the try block
    | NoRecords(dataset: string)    // `sort_values` on a dataset frame with no columns raises KeyError

  datatype Result<+T> = Ok(value: T) | Err(failure: Failure)
}
