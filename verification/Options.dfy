/** Values that may be missing: an absent dictionary field, or Python's None. */
module Options {
  datatype Option<+T> = None | Some(value: T) {
    function Or(default: T): T {
      match this
      case Some(v) => v
      case None => default
    }
  }
}
