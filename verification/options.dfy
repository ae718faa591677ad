/** The optional value used wherever the converter reads a property that may be
    `undefined` (a definition without fields, a field without directives, ...). */
module Options {

  datatype Option<+T> = None | Some(value: T) {

    /** Returns the value, or `default` when there is none (the `x || default` idiom). */
    function GetOr(default: T): T
    {
      match this
      case Some(v) => v
      case None => default
    }
  }
}
