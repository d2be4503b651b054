/** Validators: ordered collections of rules run against one field, in a
    synchronous and an asynchronous flavour (src/validator.rs). */
module Validators {
  import opened Identity
  import opened Errors
  import opened Concat
  import opened ValidatorFns

  /** The rules of a synchronous validator, in registration order. */
  datatype Validator<!V, !K> = Validator(validations: seq<ValidatorFn<V, K>>)

  /** The rules of an asynchronous validator, in registration order. */
  datatype AsyncValidator<!V, !K> = AsyncValidator(validations: seq<AsyncValidatorFn<V, K>>)

  // ----- synchronous validator -----

  /** `Validator::new`: no rules. */
  function NewValidator<V, K>(): (v: Validator<V, K>)
    ensures |v.validations| == 0
  {
    Validator([])
  }

  /** `Default for Validator`: the same as `new`. */
  function DefaultValidator<V, K>(): (v: Validator<V, K>)
    ensures |v.validations| == 0
  {
    NewValidator()
  }

  /** `validation(f)`: converts `f` into a rule and appends it after the others. */
  function Validation<V(!new), K(!new)>(src: IdSource, v: Validator<V, K>, x: IntoValidatorFn<V, K>): (r: (Validator<V, K>, IdSource))
    ensures |r.0.validations| == |v.validations| + 1
    ensures r.0.validations[..|v.validations|] == v.validations
    ensures r.0.validations[|v.validations|] == Into(src, x).0 && r.1 == Into(src, x).1
  {
    var (f, src') := Into(src, x);
    (Validator(v.validations + [f]), src')
  }

  /** Each rule's outcome on `(value, key)`, in registration order. */
  function RuleResults<V, K>(v: Validator<V, K>, value: V, key: K): (rs: seq<ValidationResult<K>>)
    ensures |rs| == |v.validations|
    ensures forall i :: 0 <= i < |rs| ==> rs[i] == ValidatorFns.ValidateValue(v.validations[i], value, key)
  {
    seq(|v.validations|, i requires 0 <= i < |v.validations| => ValidatorFns.ValidateValue(v.validations[i], value, key))
  }

  /** `validate_value`: runs every rule, in order, extending one accumulator
      with each failing rule's errors; success when nothing was accumulated. */
  function ValidateValue<V, K>(v: Validator<V, K>, value: V, key: K): (r: ValidationResult<K>)
    ensures r.Ok? <==> |Flatten(RuleResults(v, value, key))| == 0
    ensures r.Err? ==> r.error.errors == Flatten(RuleResults(v, value, key))
  {
    ConcatResults(RuleResults(v, value, key))
  }

  /** A rule added last contributes its errors last: the new validator's
      errors are the old validator's followed by the new rule's. */
  lemma ValidationAppendsErrors<V(!new), K(!new)>(src: IdSource, v: Validator<V, K>, x: IntoValidatorFn<V, K>, value: V, key: K)
    ensures Payload(ValidateValue(Validation(src, v, x).0, value, key))
         == Payload(ValidateValue(v, value, key)) + Payload(ValidatorFns.ValidateValue(Into(src, x).0, value, key))
  {
    var w := Validation(src, v, x).0;
    var last := ValidatorFns.ValidateValue(Into(src, x).0, value, key);
    assert RuleResults(w, value, key) == RuleResults(v, value, key) + [last];
    FlattenAppend(RuleResults(v, value, key), [last]);
    assert Flatten([last]) == Payload(last) + Flatten([last][1..]);
  }

  /** Rule equality, position by position: same number of rules and
      pairwise-equal tokens. */
  predicate Eq<V, K>(a: Validator<V, K>, b: Validator<V, K>)
  {
    && |a.validations| == |b.validations|
    && forall i :: 0 <= i < |a.validations| ==> ValidatorFns.Eq(a.validations[i], b.validations[i])
  }

  function Ids<V, K>(v: Validator<V, K>): (ids: seq<nat>)
    ensures |ids| == |v.validations|
    ensures forall i :: 0 <= i < |ids| ==> ids[i] == v.validations[i].id
  {
    seq(|v.validations|, i requires 0 <= i < |v.validations| => v.validations[i].id)
  }

  /** `PartialEq for Validator`: the source's loop over the tokens. */
  method Equals<V, K>(a: Validator<V, K>, b: Validator<V, K>) returns (same: bool)
    ensures same <==> Eq(a, b)
  {
    same := SameIdsPositionally(Ids(a), Ids(b));
  }

  /** Tokens that each stand for one closure. */
  ghost predicate Registered<V, K>(fs: seq<ValidatorFn<V, K>>, registry: map<nat, Rule<V, K>>)
  {
    forall i :: 0 <= i < |fs| ==> fs[i].id in registry && registry[fs[i].id] == fs[i].closure
  }

  /** Why comparing tokens suffices: when every token stands for one closure,
      equal validators validate every input alike. */
  lemma EqualValidatorsAgree<V, K>(a: Validator<V, K>, b: Validator<V, K>, registry: map<nat, Rule<V, K>>, value: V, key: K)
    requires Registered(a.validations, registry) && Registered(b.validations, registry)
    requires Eq(a, b)
    ensures ValidateValue(a, value, key) == ValidateValue(b, value, key)
  {
    assert RuleResults(a, value, key) == RuleResults(b, value, key);
  }

  // ----- asynchronous validator -----

  function AsyncNewValidator<V, K>(): (av: AsyncValidator<V, K>)
    ensures |av.validations| == 0
  {
    AsyncValidator([])
  }

  function AsyncDefaultValidator<V, K>(): (av: AsyncValidator<V, K>)
    ensures |av.validations| == 0
  {
    AsyncNewValidator()
  }

  /** `validation(f)` of the asynchronous validator: converts `f` and appends it. */
  function AsyncValidation<V(!new), K(!new)>(src: IdSource, av: AsyncValidator<V, K>, x: IntoAsyncValidatorFn<V, K>): (r: (AsyncValidator<V, K>, IdSource))
    ensures |r.0.validations| == |av.validations| + 1
    ensures r.0.validations[..|av.validations|] == av.validations
    ensures r.0.validations[|av.validations|] == AsyncInto(src, x).0 && r.1 == AsyncInto(src, x).1
  {
    var (af, src') := AsyncInto(src, x);
    (AsyncValidator(av.validations + [af]), src')
  }

  /** Each rule's resolved outcome, in registration order. */
  function AsyncRuleResults<V, K>(av: AsyncValidator<V, K>, value: V, key: K): (rs: seq<ValidationResult<K>>)
    ensures |rs| == |av.validations|
    ensures forall i :: 0 <= i < |rs| ==> rs[i] == ValidatorFns.AsyncValidateValue(av.validations[i], value, key)
  {
    seq(|av.validations|, i requires 0 <= i < |av.validations| => ValidatorFns.AsyncValidateValue(av.validations[i], value, key))
  }

  /** An order in which the scheduler completes `n` futures: each of them exactly once. */
  predicate IsCompletionOrder(completion: seq<nat>, n: nat)
  {
    && |completion| == n
    && (forall j :: 0 <= j < |completion| ==> completion[j] < n)
    && (forall i :: 0 <= i < n ==> i in completion)
  }

  /** `join_all`: the futures complete in the order `completion`, and each
      outcome is stored in the slot of the future that produced it. */
  method JoinAll<V, K>(av: AsyncValidator<V, K>, value: V, key: K, completion: seq<nat>) returns (results: seq<ValidationResult<K>>)
    requires IsCompletionOrder(completion, |av.validations|)
    ensures results == AsyncRuleResults(av, value, key)
  {
    var n := |av.validations|;
    var slots: seq<Option<ValidationResult<K>>> := seq(n, _ => None);
    for j := 0 to n
      invariant |slots| == n
      invariant forall i :: 0 <= i < n && slots[i].Some? ==>
        slots[i].value == ValidatorFns.AsyncValidateValue(av.validations[i], value, key)
      invariant forall i :: 0 <= i < n && i in completion[..j] ==> slots[i].Some?
    {
      var i := completion[j];
      slots := slots[i := Some(ValidatorFns.AsyncValidateValue(av.validations[i], value, key))];
      assert completion[..j + 1] == completion[..j] + [completion[j]];
    }
    assert completion[..n] == completion;
    results := seq(n, i requires 0 <= i < n && slots[i].Some? => slots[i].value);
  }

  /** `validate_value` of the asynchronous validator: every rule runs to
      completion, in whatever order the scheduler finishes them, and the
      outcomes are then merged in registration order. */
  method AsyncValidateValue<V, K>(av: AsyncValidator<V, K>, value: V, key: K, completion: seq<nat>) returns (r: ValidationResult<K>)
    requires IsCompletionOrder(completion, |av.validations|)
    ensures r == ConcatResults(AsyncRuleResults(av, value, key))
    ensures r.Ok? <==> |Flatten(AsyncRuleResults(av, value, key))| == 0
    ensures r.Err? ==> r.error.errors == Flatten(AsyncRuleResults(av, value, key))
  {
    var results := JoinAll(av, value, key, completion);
    r := ConcatResults(results);
  }

  /** `PartialEq` derived for the asynchronous validator: position by position. */
  predicate AsyncEq<V, K>(a: AsyncValidator<V, K>, b: AsyncValidator<V, K>)
  {
    && |a.validations| == |b.validations|
    && forall i :: 0 <= i < |a.validations| ==> ValidatorFns.AsyncEq(a.validations[i], b.validations[i])
  }

  /** The loop of `From<Validator> for AsyncValidator`: each remaining rule is
      passed to the asynchronous `validation`, which converts it. */
  function ConvertRules<V(!new), K(!new)>(src: IdSource, acc: AsyncValidator<V, K>, rest: seq<ValidatorFn<V, K>>): (r: (AsyncValidator<V, K>, IdSource))
    ensures |r.0.validations| == |acc.validations| + |rest|
    ensures r.0.validations[..|acc.validations|] == acc.validations
    ensures forall i :: 0 <= i < |rest| ==> SameOutcomes(r.0.validations[|acc.validations| + i], rest[i])
    ensures forall i :: |acc.validations| <= i < |r.0.validations| ==> src.next <= r.0.validations[i].id < r.1.next
    ensures forall i, j :: |acc.validations| <= i < j < |r.0.validations| ==> r.0.validations[i].id < r.0.validations[j].id
    ensures src.next <= r.1.next
    decreases |rest|
  {
    if |rest| == 0 then (acc, src)
    else
      var (acc', src') := AsyncValidation(src, acc, Sync(rest[0]));
      var r := ConvertRules(src', acc', rest[1..]);
      assert r.0.validations[..|acc.validations|] == acc'.validations[..|acc.validations|];
      assert forall i :: 1 <= i < |rest| ==> rest[i] == rest[1..][i - 1];
      r
  }

  /** `From<Validator> for AsyncValidator`. */
  function FromValidator<V(!new), K(!new)>(src: IdSource, v: Validator<V, K>): (r: (AsyncValidator<V, K>, IdSource))
    ensures |r.0.validations| == |v.validations|
    ensures forall i :: 0 <= i < |v.validations| ==> SameOutcomes(r.0.validations[i], v.validations[i])
    ensures forall i :: 0 <= i < |v.validations| ==> src.next <= r.0.validations[i].id < r.1.next
    ensures forall i, j :: 0 <= i < j < |v.validations| ==> r.0.validations[i].id < r.0.validations[j].id
  {
    ConvertRules(src, AsyncNewValidator(), v.validations)
  }

  /** The converted validator resolves, on every input, to exactly what the
      synchronous one returns: same outcome, same errors, same order. */
  lemma ConvertedValidatesAlike<V(!new), K(!new)>(src: IdSource, v: Validator<V, K>, value: V, key: K)
    ensures AsyncRuleResults(FromValidator(src, v).0, value, key) == RuleResults(v, value, key)
    ensures ConcatResults(AsyncRuleResults(FromValidator(src, v).0, value, key)) == ValidateValue(v, value, key)
  {
    var av := FromValidator(src, v).0;
    forall i | 0 <= i < |v.validations|
      ensures AsyncRuleResults(av, value, key)[i] == RuleResults(v, value, key)[i]
    {
      assert SameOutcomes(av.validations[i], v.validations[i]);
    }
  }

  /** The conversion does not keep the rules' tokens: when the source rules
      were minted before `src`, no converted rule equals its source rule's token. */
  lemma ConversionMintsNewTokens<V(!new), K(!new)>(src: IdSource, v: Validator<V, K>)
    requires MintedBefore(Ids(v), src)
    ensures forall i :: 0 <= i < |v.validations| ==> FromValidator(src, v).0.validations[i].id != v.validations[i].id
  {
    forall i | 0 <= i < |v.validations|
      ensures FromValidator(src, v).0.validations[i].id != v.validations[i].id
    {
      assert Ids(v)[i] < src.next;
    }
  }

  /** Converting the same non-empty validator twice gives unequal asynchronous validators. */
  lemma ConvertTwiceUnequal<V(!new), K(!new)>(src: IdSource, v: Validator<V, K>)
    requires |v.validations| > 0
    ensures !AsyncEq(FromValidator(src, v).0, FromValidator(FromValidator(src, v).1, v).0)
  {
    var (a1, s1) := FromValidator(src, v);
    var a2 := FromValidator(s1, v).0;
    assert a1.validations[0].id < s1.next <= a2.validations[0].id;
  }

  // ----- the example of the documentation and of the unit test -----

  /** Rejects negative values. */
  function NotNegative(value: int, key: string): ValidationResult<string>
  {
    if value < 0 then
      Err(FromError(WithMessage(NewError(key, "NOT_LESS_THAN_0"), k => "The value of " + k + " cannot be less than 0")))
    else Ok
  }

  /** Rejects values above 10. */
  function NotAbove10(value: int, key: string): ValidationResult<string>
  {
    if value > 10 then
      Err(FromError(WithMessage(NewError(key, "GREATER_THAN_10"), k => "The value of " + k + " cannot be greater than 10")))
    else Ok
  }

  /** The example validator together with the token supply left after building it. */
  function ExampleBuild(): (Validator<int, string>, IdSource)
  {
    var (v1, s1) := Validation(IdSource(0), NewValidator(), Closure(NotNegative));
    Validation(s1, v1, Closure(NotAbove10))
  }

  function ExampleValidator(): Validator<int, string>
  {
    ExampleBuild().0
  }

  /** 11 and -1 fail with one error each and 5 passes, both as written and
      after conversion to an asynchronous validator. */
  lemma ExampleOutcomes()
    ensures ValidateValue(ExampleValidator(), 11, "field1").Err?
    ensures ValidateValue(ExampleValidator(), 11, "field1").error.Len() == 1
    ensures ValidateValue(ExampleValidator(), -1, "field1").Err?
    ensures ValidateValue(ExampleValidator(), -1, "field1").error.Len() == 1
    ensures ValidateValue(ExampleValidator(), -1, "field1").error.errors[0].typeId == "NOT_LESS_THAN_0"
    ensures ValidateValue(ExampleValidator(), 5, "field1").Ok?
    ensures ConcatResults(AsyncRuleResults(FromValidator(ExampleBuild().1, ExampleValidator()).0, 11, "field1")).Err?
    ensures ConcatResults(AsyncRuleResults(FromValidator(ExampleBuild().1, ExampleValidator()).0, -1, "field1")).Err?
    ensures ConcatResults(AsyncRuleResults(FromValidator(ExampleBuild().1, ExampleValidator()).0, 5, "field1")).Ok?
  {
    var v := ExampleValidator();
    assert |v.validations| == 2;
    assert forall value: int, key: string :: RuleResults(v, value, key) == [NotNegative(value, key), NotAbove10(value, key)];
    var r11, rm1, r5 := RuleResults(v, 11, "field1"), RuleResults(v, -1, "field1"), RuleResults(v, 5, "field1");
    assert Flatten(r11) == Payload(r11[0]) + Flatten(r11[1..]);
    assert Flatten(rm1) == Payload(rm1[0]) + Flatten(rm1[1..]);
    assert Flatten(r5) == Payload(r5[0]) + Flatten(r5[1..]);
    ConvertedValidatesAlike(ExampleBuild().1, v, 11, "field1");
    ConvertedValidatesAlike(ExampleBuild().1, v, -1, "field1");
    ConvertedValidatesAlike(ExampleBuild().1, v, 5, "field1");
  }

  /** The example of the asynchronous validator's documentation: an
      asynchronous rule and a synchronous one converted on registration. */
  function AsyncExampleValidator(): AsyncValidator<int, string>
  {
    var (af, s1) := ValidatorFns.AsyncNew(IdSource(0), NotNegative);
    var (f, s2) := ValidatorFns.New(s1, NotAbove10);
    var (av1, s3) := AsyncValidation(s2, AsyncNewValidator(), Async(af));
    AsyncValidation(s3, av1, Sync(f)).0
  }

  /** 11 and -1 fail and 5 passes, for every order in which the two futures complete. */
  method AsyncExampleOutcomes(completion: seq<nat>) returns (r11: ValidationResult<string>, rm1: ValidationResult<string>, r5: ValidationResult<string>)
    requires IsCompletionOrder(completion, 2)
    ensures r11.Err? && rm1.Err? && r5.Ok?
  {
    var av := AsyncExampleValidator();
    assert forall value: int, key: string ::
      AsyncRuleResults(av, value, key) == [NotNegative(value, key), NotAbove10(value, key)];
    r11 := AsyncValidateValue(av, 11, "field1", completion);
    rm1 := AsyncValidateValue(av, -1, "field1", completion);
    r5 := AsyncValidateValue(av, 5, "field1", completion);
    var rs := AsyncRuleResults(av, 11, "field1");
    assert Flatten(rs) == Payload(rs[0]) + Flatten(rs[1..]);
    rs := AsyncRuleResults(av, -1, "field1");
    assert Flatten(rs) == Payload(rs[0]) + Flatten(rs[1..]);
    rs := AsyncRuleResults(av, 5, "field1");
    assert Flatten(rs) == Payload(rs[0]) + Flatten(rs[1..]);
  }
}
