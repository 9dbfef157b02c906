/** The optional value used for every cell of the recipe table: `None` stands
    for a blank cell (a NaN in the data frame), `Some(v)` for a filled one. */
module Options {

  datatype Option<+T> = None | Some(value: T) {

    /** The contained value, or `default` for a blank cell. */
    function GetOr(default: T): T {
      match this
      case Some(v) => v
      case None => default
    }
  }
}
