/** Swift's `Optional`, as the failure-carrying result of every decoder. */
module Wrappers {

  datatype Option<+T> = None | Some(value: T) {

    /** Swift's `Optional.flatMap`: feeds a present value to `f`, keeps an absent one absent. */
    function FlatMap<U>(f: T -> Option<U>): (r: Option<U>)
    {
      match this
      case None => None
      case Some(v) => f(v)
    }
  }
}
