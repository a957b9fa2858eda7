/** Python's dynamically typed argument and session values, reduced to the
    distinctions the package's branches test: `is None`, `isinstance(_, str)`,
    and everything else (integers, which session keys may also be, and any
    other object). */
module Values {

  datatype Value =
    | NoneV                // Python's None
    | Str(s: string)       // an instance of str
    | Int(i: int)          // an int (session keys may be str or int)
    | Object(id: nat)      // any other object, told apart only by identity

  /** `isinstance(v, str)` */
  predicate IsString(v: Value) {
    v.Str?
  }
}
