/** Optional values. In the JavaScript being modelled, `None` also stands for
    a number that is `NaN` (a failed `parseInt`, an `Invalid Date`). */
module Options {

  datatype Option<+T> = None | Some(value: T) {

    /** The wrapped value, or `default` when there is none. */
    function GetOr(default: T): T {
      match this
      case Some(v) => v
      case None => default
    }
  }
}
