/** An optional value: a lookup that may miss, a regular-expression match that may fail. */
module Options {

  datatype Option<+T> = None | Some(value: T) {

    /** Applies `f` to the carried value, if there is one. */
    function Map<U>(f: T -> U): (r: Option<U>)
      ensures r.Some? <==> Some?
      ensures Some? ==> r.value == f(value)
    {
      match this
      case None => None
      case Some(v) => Some(f(v))
    }
  }
}
