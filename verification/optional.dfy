/** The conventional Some/None wrapper shared by the other modules. */
module Optional {

  /** `None` stands for JavaScript's `null` and for a file that is not on disk. */
  datatype Option<T> = None | Some(value: T) {
    function GetOr(default: T): T {
      match this
      case Some(v) => v
      case None => default
    }
  }
}
