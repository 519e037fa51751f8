/** Optional values and fallible results, used for the `None` returned by a
    failed lookup or regex search and for the exceptions the scraper raises. */
module Wrappers {

  datatype Option<+T> = None | Some(value: T)

  datatype Result<+R, +E> = Success(value: R) | Failure(error: E)
}
