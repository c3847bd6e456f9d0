/** Small value wrappers shared by every module of the model. */
module Optional {

  /** A value that may be absent: a TypeScript optional field (`x?: T`) or `T | null`. */
  datatype Option<+T> = None | Some(value: T) {

    /** The wrapped value, or `default` when absent (the `a || b` idiom on a present/absent value). */
    function GetOr(default: T): T {
      match this
      case Some(v) => v
      case None => default
    }
  }

  /**
   * A filter facet of the user interface: either the sentinel `'all'`
   * (no restriction) or one selected value.
   */
  datatype Facet<+T> = Any | Only(choice: T)

  /** True when `x` passes facet `f`: `f === 'all' || f === x`. */
  predicate Admits<T(==)>(f: Facet<T>, x: T) {
    match f
    case Any => true
    case Only(c) => c == x
  }
}
