/** The front end's exported helper `opt` (src/vue_lib/index.ts): an
    optional argument turned into a nullable value. */
module VueIndex {
  import opened Nullable

  /** A JavaScript value of type `T | null | undefined`. */
  datatype JsValue<T> = Undefined | Null | Defined(v: T)

  /** The value as an `Option`, both absent forms read as `None`. */
  function ToOption<T>(x: JsValue<T>): (r: Option<T>)
    ensures r.Some? <==> x.Defined?
    ensures r.Some? ==> r.value == x.v
  {
    if x.Defined? then Some(x.v) else None
  }

  /** `opt(v) = v ?? null`: a defined value passes through, and both
      `undefined` and `null` become `null`. */
  function Opt<T>(x: JsValue<T>): (r: JsValue<T>)
    ensures !r.Undefined?
    ensures x.Defined? ==> r == x
    ensures !x.Defined? ==> r.Null?
  {
    match x
    case Defined(_) => x
    case _ => Null
  }

  /** `opt` loses nothing but the difference between the two absent forms,
      and applying it twice is applying it once. */
  lemma OptKeepsValue<T>(x: JsValue<T>)
    ensures ToOption(Opt(x)) == ToOption(x)
    ensures Opt(Opt(x)) == Opt(x)
    ensures Opt(x) == x <==> !x.Undefined?
  {
  }
}
