/** Option and Result wrappers, and the exceptions that can end a merge. */
module Outcomes {

  datatype Option<+T> = None | Some(value: T)

  datatype Result<+T, +E> = Success(value: T) | Failure(error: E)

  /** The Python exceptions `all_merge` can raise once its inputs are open.
      KeyError carries the missing dictionary key; ValueError carries the
      row keys that `csv.DictWriter.writerow` found outside its fieldnames. */
  datatype MergeError =
    | KeyError(key: string)
    | ValueError(wrongFields: set<string>)
}
