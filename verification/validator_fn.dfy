/** Single validation rules paired with an identity token (src/validator_fn.rs). */
module ValidatorFns {
  import opened Identity
  import opened Errors
  import opened Concat

  /** A rule: from a value and the key of its field to an outcome. */
  type Rule<!V, !K> = (V, K) -> ValidationResult<K>

  /** A synchronous rule and its identity token. */
  datatype ValidatorFn<!V, !K> = ValidatorFn(closure: Rule<V, K>, id: nat)

  /** An asynchronous rule and its identity token. The rule produces a future;
      what is modelled is the outcome that future resolves to. */
  datatype AsyncValidatorFn<!V, !K> = AsyncValidatorFn(futureProducer: Rule<V, K>, id: nat)

  /** What `validation(...)` accepts for a synchronous validator: a closure,
      converted by `From<C>`, or a rule that is already wrapped, passed through
      the identity conversion. */
  datatype IntoValidatorFn<!V, !K> = Closure(closure: Rule<V, K>) | Wrapped(f: ValidatorFn<V, K>)

  /** What `validation(...)` accepts for an asynchronous validator: an
      asynchronous rule as it is, or a synchronous one converted by
      `From<ValidatorFn>`. */
  datatype IntoAsyncValidatorFn<!V, !K> = Async(af: AsyncValidatorFn<V, K>) | Sync(f: ValidatorFn<V, K>)

  /** Runs a synchronous rule. */
  function ValidateValue<V, K>(f: ValidatorFn<V, K>, value: V, key: K): ValidationResult<K>
  {
    f.closure(value, key)
  }

  /** Runs an asynchronous rule to completion. */
  function AsyncValidateValue<V, K>(af: AsyncValidatorFn<V, K>, value: V, key: K): ValidationResult<K>
  {
    af.futureProducer(value, key)
  }

  /** Rule equality: the tokens alone are compared, never the closures. */
  predicate Eq<V, K>(a: ValidatorFn<V, K>, b: ValidatorFn<V, K>)
  {
    a.id == b.id
  }

  predicate AsyncEq<V, K>(a: AsyncValidatorFn<V, K>, b: AsyncValidatorFn<V, K>)
  {
    a.id == b.id
  }

  /** An asynchronous rule resolves, on every input, to what a synchronous one returns. */
  ghost predicate SameOutcomes<V(!new), K(!new)>(af: AsyncValidatorFn<V, K>, f: ValidatorFn<V, K>)
  {
    forall value, key :: AsyncValidateValue(af, value, key) == ValidateValue(f, value, key)
  }

  /** `ValidatorFn::new`: wraps the closure under a freshly minted token. */
  function New<V(!new), K(!new)>(src: IdSource, closure: Rule<V, K>): (r: (ValidatorFn<V, K>, IdSource))
    ensures forall value, key :: ValidateValue(r.0, value, key) == closure(value, key)
    ensures src.next <= r.0.id < r.1.next
  {
    var (id, src') := Mint(src);
    (ValidatorFn(closure, id), src')
  }

  /** `Clone`: shares the closure and keeps the token. */
  function Clone<V(!new), K(!new)>(f: ValidatorFn<V, K>): (r: ValidatorFn<V, K>)
    ensures Eq(r, f)
    ensures forall value, key :: ValidateValue(r, value, key) == ValidateValue(f, value, key)
  {
    ValidatorFn(f.closure, f.id)
  }

  /** The conversion `validation(...)` applies to its argument: a closure is
      wrapped by `new`, a wrapped rule is taken as it is. */
  function Into<V(!new), K(!new)>(src: IdSource, x: IntoValidatorFn<V, K>): (r: (ValidatorFn<V, K>, IdSource))
    ensures x.Wrapped? ==> r.0 == x.f && r.1 == src
    ensures x.Closure? ==> r.0.closure == x.closure && src.next <= r.0.id < r.1.next
  {
    match x
    case Closure(c) => New(src, c)
    case Wrapped(f) => (f, src)
  }

  /** `AsyncValidatorFn::new`: wraps the future producer under a freshly minted token. */
  function AsyncNew<V(!new), K(!new)>(src: IdSource, producer: Rule<V, K>): (r: (AsyncValidatorFn<V, K>, IdSource))
    ensures forall value, key :: AsyncValidateValue(r.0, value, key) == producer(value, key)
    ensures src.next <= r.0.id < r.1.next
  {
    var (id, src') := Mint(src);
    (AsyncValidatorFn(producer, id), src')
  }

  function AsyncClone<V(!new), K(!new)>(af: AsyncValidatorFn<V, K>): (r: AsyncValidatorFn<V, K>)
    ensures AsyncEq(r, af)
    ensures forall value, key :: AsyncValidateValue(r, value, key) == AsyncValidateValue(af, value, key)
  {
    AsyncValidatorFn(af.futureProducer, af.id)
  }

  /** `From<ValidatorFn> for AsyncValidatorFn`: an asynchronous rule whose
      future runs a clone of the synchronous rule. It is built with
      `AsyncValidatorFn::new`, so it carries a new token, not the original's. */
  function FromSync<V(!new), K(!new)>(src: IdSource, f: ValidatorFn<V, K>): (r: (AsyncValidatorFn<V, K>, IdSource))
    ensures SameOutcomes(r.0, f)
    ensures src.next <= r.0.id < r.1.next
  {
    AsyncNew(src, (value, key) => ValidateValue(Clone(f), value, key))
  }

  /** The conversion an asynchronous `validation(...)` applies to its argument. */
  function AsyncInto<V(!new), K(!new)>(src: IdSource, x: IntoAsyncValidatorFn<V, K>): (r: (AsyncValidatorFn<V, K>, IdSource))
    ensures x.Async? ==> r.0 == x.af && r.1 == src
    ensures x.Sync? ==> SameOutcomes(r.0, x.f) && src.next <= r.0.id < r.1.next
  {
    match x
    case Async(af) => (af, src)
    case Sync(f) => FromSync(src, f)
  }

  /** Equality looks only at tokens: rules with the same token are equal
      whatever their closures, and a clone equals its original. */
  lemma EqIsIdentity<V(!new), K(!new)>(c1: Rule<V, K>, c2: Rule<V, K>, id: nat, f: ValidatorFn<V, K>)
    ensures Eq(ValidatorFn(c1, id), ValidatorFn(c2, id))
    ensures Eq(Clone(f), f) && Eq(f, Clone(f))
  {
  }

  /** Two rules built one after the other are unequal, even from the same closure. */
  lemma SeparatelyBuiltUnequal<V(!new), K(!new)>(src: IdSource, c1: Rule<V, K>, c2: Rule<V, K>)
    ensures !Eq(New(src, c1).0, New(New(src, c1).1, c2).0)
  {
  }

  /** Converting the same synchronous rule twice gives two unequal asynchronous rules. */
  lemma ConvertTwiceUnequal<V(!new), K(!new)>(src: IdSource, f: ValidatorFn<V, K>)
    ensures !AsyncEq(FromSync(src, f).0, FromSync(FromSync(src, f).1, f).0)
  {
  }
}
