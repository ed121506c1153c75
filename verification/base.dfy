/** Optional values: a field that Mongoose may leave unset, a payload field a
    client may omit, or a lookup that may find nothing. */
module Base {

  datatype Option<+T> = None | Some(value: T) {

    /** The value, or `default` when absent. */
    function GetOr(default: T): T {
      match this
      case Some(v) => v
      case None => default
    }
  }
}
