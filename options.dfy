/** The optional values the frontend passes around: an argument that was left
    out (`undefined`) or a result that is `null`. */
module Options {

  datatype Option<T> = None | Some(value: T) {

    /** The value, or `default` when there is none (a JavaScript default
        parameter). */
    function GetOr(default: T): T {
      match this
      case Some(v) => v
      case None => default
    }
  }
}
