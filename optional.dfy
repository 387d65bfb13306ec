/** The optional value used throughout the model for JavaScript's `undefined`
    (a missing map entry, an omitted field, an absent file). */
module Optional {

  datatype Option<T> = None | Some(value: T) {

    /** The value, or `default` when there is none. */
    function GetOr(default: T): T {
      match this
      case Some(v) => v
      case None => default
    }
  }
}
