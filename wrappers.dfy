/** Failure-carrying results and the error kinds the vectorizer and the recommender raise. */
module Wrappers {

  datatype Option<+T> = None | Some(value: T)

  datatype Result<+R, +E> = Success(value: R) | Failure(error: E)

  /** The ValueError messages of vector.py, one constructor per raise site. */
  datatype Error =
    | NotFitted        // "Vectorizer must be fit before transform"
    | NotInitialized   // "Please initialize the recommender first"
    | NoData           // "No valid data found in CSV files ..."
}
