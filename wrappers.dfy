/** The optional value used for "no result" (an empty `Maybe`, a `firstOrNull` that found nothing). */
module Wrappers {
  datatype Option<+T> = None | Some(value: T)
}
