/** An optional value: stands for a JavaScript variable or store field that may be
    `null` or absent. */
module Optional {

  datatype Option<+T> = None | Some(value: T) {

    /** The held value, or `default` when there is none (JavaScript's `v || default`
        for values that are always truthy when present). */
    function GetOr(default: T): (r: T)
      ensures Some? ==> r == value
      ensures None? ==> r == default
    {
      match this
      case Some(v) => v
      case None => default
    }
  }
}
