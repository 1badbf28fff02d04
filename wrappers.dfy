/** Option, Result and the error kinds the library raises: its own exception
    classes (exception.py) and the Python built-in exceptions that reach them. */
module Wrappers {

  datatype Option<+T> = None | Some(value: T) {
    function GetOr(default: T): T {
      match this
      case Some(v) => v
      case None => default
    }
  }

  /** The assertions of the library that can fail on well-typed arguments. */
  datatype Assertion =
    | UnsupportedFileType   // filename[-3:] not one of the six accepted suffixes
    | ParserNotCallable     // custom_parser given a parser name it does not know
    | KWithWordList         // wordcount_sankey given both k and word_list
    | ThresholdNotInt       // _prepare_sankey_data given threshold=None
    | TooFewColumns         // make_sankey given fewer than two columns

  datatype Error =
    | AssertionError(failed: Assertion)
    | ReadFailure                          // open/readlines or a pandas reader failed
    | KeyError(key: string)                // a missing dataframe column or dictionary key
    | AttributeError                       // str.strip called on a non-string cell
    | ZeroDivisionError                    // average of an empty word list
    | TypeError                            // slicing dict.items()
    | DefaultParsingError(cause: Error)
    | LoadStopWordError
    | StopWordError(cause: Error)
    | DataResultsError(cause: Error)
    | ParserError(filename: string, cause: Error)
    | VisualizeError(name: Option<string>, cause: Error)
    | CallbackFailed(entry: string)        // a visualization callback raised

  datatype Result<+T> = Success(value: T) | Failure(error: Error)
}
