/** The older single-file revision of the library (src/lib.rs). Its error
    types, `extend`, `get` and `concat_results` are the ones of the `Errors`
    and `Concat` modules; what differs is the shape of a rule, which fails
    with a single error that `validate_value` promotes to a one-element
    collection. */
module Legacy {
  import opened Identity
  import opened Errors
  import opened Concat
  import ValidatorFns
  import Validators

  /** A rule of this revision: it fails with exactly one error. */
  type SingleErrorRule<!V, !K> = (V, K) -> Result<ValidationError<K>>

  datatype LegacyValidatorFn<!V, !K> = LegacyValidatorFn(rule: SingleErrorRule<V, K>, id: nat)

  /** The rules of a validator, in registration order. */
  datatype LegacyValidator<!V, !K> = LegacyValidator(validations: seq<LegacyValidatorFn<V, K>>)

  /** `ValidatorFn::new`: wraps the rule under a freshly minted token. */
  function NewFn<V, K>(src: IdSource, rule: SingleErrorRule<V, K>): (r: (LegacyValidatorFn<V, K>, IdSource))
    ensures r.0.rule == rule
    ensures src.next <= r.0.id < r.1.next
  {
    var (id, src') := Mint(src);
    (LegacyValidatorFn(rule, id), src')
  }

  /** `ValidatorFn::validate_value`: passes success through and promotes a
      failure's single error to a one-element collection. */
  function FnValidateValue<V, K>(f: LegacyValidatorFn<V, K>, value: V, key: K): (r: ValidationResult<K>)
    ensures r.Ok? <==> f.rule(value, key).Ok?
    ensures r.Err? ==> r.error.errors == [f.rule(value, key).error]
  {
    match f.rule(value, key)
    case Ok => Ok
    case Err(e) => Err(FromError(e))
  }

  function NewValidator<V, K>(): (v: LegacyValidator<V, K>)
    ensures |v.validations| == 0
  {
    LegacyValidator([])
  }

  function DefaultValidator<V, K>(): (v: LegacyValidator<V, K>)
    ensures |v.validations| == 0
  {
    NewValidator()
  }

  /** `validation(f)`: wraps `f` under a fresh token and appends it. */
  function Validation<V, K>(src: IdSource, v: LegacyValidator<V, K>, rule: SingleErrorRule<V, K>): (r: (LegacyValidator<V, K>, IdSource))
    ensures |r.0.validations| == |v.validations| + 1
    ensures r.0.validations[..|v.validations|] == v.validations
    ensures r.0.validations[|v.validations|].rule == rule
    ensures src.next <= r.0.validations[|v.validations|].id < r.1.next
  {
    var (f, src') := NewFn(src, rule);
    (LegacyValidator(v.validations + [f]), src')
  }

  /** Each rule's promoted outcome, in order. */
  function Results<V, K>(fs: seq<LegacyValidatorFn<V, K>>, value: V, key: K): (rs: seq<ValidationResult<K>>)
    ensures |rs| == |fs|
    ensures forall i :: 0 <= i < |fs| ==> rs[i] == FnValidateValue(fs[i], value, key)
  {
    seq(|fs|, i requires 0 <= i < |fs| => FnValidateValue(fs[i], value, key))
  }

  /** Reference definition: the errors of the failing rules, in registration order. */
  function FailedErrors<V, K>(fs: seq<LegacyValidatorFn<V, K>>, value: V, key: K): seq<ValidationError<K>>
  {
    if |fs| == 0 then []
    else
      var head := match fs[0].rule(value, key) case Ok => [] case Err(e) => [e];
      head + FailedErrors(fs[1..], value, key)
  }

  lemma {:induction false} FlattenIsFailedErrors<V, K>(fs: seq<LegacyValidatorFn<V, K>>, value: V, key: K)
    ensures Flatten(Results(fs, value, key)) == FailedErrors(fs, value, key)
    ensures |FailedErrors(fs, value, key)| == 0 <==> forall i :: 0 <= i < |fs| ==> fs[i].rule(value, key).Ok?
  {
    if |fs| != 0 {
      FlattenIsFailedErrors(fs[1..], value, key);
      assert Results(fs, value, key)[1..] == Results(fs[1..], value, key);
      assert forall i :: 1 <= i < |fs| ==> fs[i] == fs[1..][i - 1];
    }
  }

  /** `Validator::validate_value`: every rule runs, in order; success exactly
      when no rule failed, otherwise the failing rules' errors in order. */
  function ValidateValue<V, K>(v: LegacyValidator<V, K>, value: V, key: K): (r: ValidationResult<K>)
    ensures r.Ok? <==> forall i :: 0 <= i < |v.validations| ==> v.validations[i].rule(value, key).Ok?
    ensures r.Err? ==> r.error.errors == FailedErrors(v.validations, value, key)
  {
    FlattenIsFailedErrors(v.validations, value, key);
    ConcatResults(Results(v.validations, value, key))
  }

  /** Positional rule equality, as in the current revision. */
  predicate Eq<V, K>(a: LegacyValidator<V, K>, b: LegacyValidator<V, K>)
  {
    && |a.validations| == |b.validations|
    && forall i :: 0 <= i < |a.validations| ==> a.validations[i].id == b.validations[i].id
  }

  /** `PartialEq for Validator` of this revision: the same positional token
      comparison as the current revision, run on the adapted rules. */
  method Equals<V(!new), K(!new)>(a: LegacyValidator<V, K>, b: LegacyValidator<V, K>) returns (same: bool)
    ensures same <==> Eq(a, b)
  {
    same := Validators.Equals(Adapt(a), Adapt(b));
    AdaptPreservesEq(a, b);
  }

  /** The single-error adapter: a rule of this revision as a rule of the
      current one, under the same token. */
  function Adapt<V(!new), K(!new)>(v: LegacyValidator<V, K>): (w: Validators.Validator<V, K>)
    ensures |w.validations| == |v.validations|
    ensures forall i :: 0 <= i < |v.validations| ==> w.validations[i].id == v.validations[i].id
    ensures forall i, value, key :: 0 <= i < |v.validations| ==>
      ValidatorFns.ValidateValue(w.validations[i], value, key) == FnValidateValue(v.validations[i], value, key)
  {
    Validators.Validator(seq(|v.validations|, i requires 0 <= i < |v.validations| =>
      ValidatorFns.ValidatorFn((value, key) => FnValidateValue(v.validations[i], value, key), v.validations[i].id)))
  }

  lemma AdaptPreservesEq<V(!new), K(!new)>(a: LegacyValidator<V, K>, b: LegacyValidator<V, K>)
    ensures Validators.Eq(Adapt(a), Adapt(b)) <==> Eq(a, b)
  {
  }

  /** Adapting preserves both the validation outcome and equality. */
  lemma AdaptAgrees<V(!new), K(!new)>(a: LegacyValidator<V, K>, b: LegacyValidator<V, K>, value: V, key: K)
    ensures Validators.ValidateValue(Adapt(a), value, key) == ValidateValue(a, value, key)
    ensures Validators.Eq(Adapt(a), Adapt(b)) <==> Eq(a, b)
  {
    assert Validators.RuleResults(Adapt(a), value, key) == Results(a.validations, value, key);
    AdaptPreservesEq(a, b);
  }

  /** `Validatable::validate_or_empty`: success as the empty collection, a
      failure's errors as they are. */
  function ValidateOrEmpty<K>(r: ValidationResult<K>): (e: ValidationErrors<K>)
    ensures r.Ok? ==> e.IsEmpty()
    ensures r.Err? ==> e == r.error
  {
    match r
    case Ok => Empty()
    case Err(errors) => errors
  }

  /** For a merged outcome nothing is lost by `validate_or_empty`: it yields
      all the errors, and testing it for emptiness gives the outcome back. */
  lemma OrEmptyRoundTrip<K>(results: seq<ValidationResult<K>>)
    ensures ValidateOrEmpty(ConcatResults(results)).errors == Flatten(results)
    ensures Finish(ValidateOrEmpty(ConcatResults(results))) == ConcatResults(results)
  {
  }

  // ----- the example of the documentation -----

  function NotNegative(value: int, key: string): Result<ValidationError<string>>
  {
    if value < 0 then Err(WithMessage(NewError(key, ""), k => "The value of " + k + " cannot be less than 0"))
    else Ok
  }

  function NotAbove10(value: int, key: string): Result<ValidationError<string>>
  {
    if value > 10 then Err(WithMessage(NewError(key, ""), k => "The value of " + k + " cannot be greater than 10"))
    else Ok
  }

  function ExampleValidator(): LegacyValidator<int, string>
  {
    var (v1, s1) := Validation(IdSource(0), NewValidator(), NotNegative);
    Validation(s1, v1, NotAbove10).0
  }

  /** 11 and -1 fail with one error each, 5 passes. */
  lemma ExampleOutcomes()
    ensures ValidateValue(ExampleValidator(), 11, "field1").Err?
    ensures ValidateValue(ExampleValidator(), 11, "field1").error.Len() == 1
    ensures ValidateValue(ExampleValidator(), -1, "field1").Err?
    ensures ValidateValue(ExampleValidator(), -1, "field1").error.Len() == 1
    ensures ValidateValue(ExampleValidator(), 5, "field1").Ok?
  {
    var v := ExampleValidator();
    assert v.validations[0].rule == NotNegative && v.validations[1].rule == NotAbove10;
    assert FailedErrors(v.validations, 11, "field1") == [] + FailedErrors(v.validations[1..], 11, "field1");
    assert FailedErrors(v.validations, -1, "field1")
        == [NotNegative(-1, "field1").error] + FailedErrors(v.validations[1..], -1, "field1");
  }
}
