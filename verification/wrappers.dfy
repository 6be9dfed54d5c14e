/** Failure-compatible wrappers used throughout the model. */
module Wrappers {

  /** A value that may be absent; Python's `None` */
  datatype Option<+T> = None | Some(value: T) {
    predicate IsFailure() {
      None?
    }

    function PropagateFailure<U>(): Option<U>
      requires None?
    {
      None
    }

    function Extract(): T
      requires Some?
    {
      value
    }

    function GetOr(default: T): T {
      match this
      case Some(v) => v
      case None => default
    }
  }

  /** The outcome of a step that may abort the run */
  datatype Result<+R, +E> = Success(value: R) | Failure(error: E) {
    predicate IsFailure() {
      Failure?
    }

    function PropagateFailure<U>(): Result<U, E>
      requires Failure?
    {
      Failure(error)
    }

    function Extract(): R
      requires Success?
    {
      value
    }
  }
}

/** The ways a run of the retriever aborts. */
module Errors {

  datatype RunError =
    /** the assertion that the repaired article starts with its table-of-contents title */
    | TitleMismatch(article: nat)
    /** `headers[-2].split(" ")[1]` on a `Sida` line without a space (IndexError) */
    | MissingPageToken(article: nat)
    /** the assertion that the cleaned text no longer names the service */
    | ResidualAttribution(article: nat)
    /** `toc[i]` for an article block without a table-of-contents entry (IndexError) */
    | MissingTocEntry(article: nat)
    /** `roman.fromRoman` rejected the last `_` segment of an input file name */
    | InvalidRomanNumeral(inputFile: string)
    /** `pd.concat` of an empty list of tables (ValueError) */
    | NoInputTables
    /** a corpus table built from entries none of which gained article columns: fewer columns than named (ValueError) */
    | ColumnCountMismatch
}
