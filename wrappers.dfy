/** The optional value used for "a regex search found nothing" and
    "this field was rejected". */
module Wrappers {

  datatype Option<+T> = None | Some(value: T)
}
