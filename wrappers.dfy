/** The optional value the pages get from `?? null`, `?.` and missing JSON fields. */
module Wrappers {

  datatype Option<+T> = None | Some(value: T) {

    /** `this ?? fallback` */
    function GetOr(fallback: T): T {
      match this
      case Some(v) => v
      case None => fallback
    }
  }
}
