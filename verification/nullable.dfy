/** Optional values. `None` stands for both `null` and `undefined` of the
    TypeScript side and for `None` of the Rust side; `Or` is the `??`
    operator on two optional values and `GetOr` is `?? default`. */
module Nullable {

  datatype Option<+T> = None | Some(value: T) {

    /** `this ?? default` */
    function GetOr(default: T): (r: T)
      ensures Some? ==> r == value
      ensures None? ==> r == default
    {
      match this
      case Some(v) => v
      case None => default
    }

    /** `this ?? other`, both sides optional */
    function Or(other: Option<T>): (r: Option<T>)
      ensures Some? ==> r == this
      ensures None? ==> r == other
    {
      if Some? then this else other
    }
  }
}
