# form-validation, modelled in Dafny

A model of the core of `form-validation`, a Rust library for validating the
fields of a data-entry form. A *rule* maps a value and the key of its field
to `Ok(())` or to a collection of errors. A `ValidatorFn` pairs a rule with an
identity token, and rules are compared by that token alone. A `Validator` is
an ordered list of rules: it runs all of them and concatenates their errors
in registration order. `concat_results` merges the outcomes of many fields
the same way. The asynchronous variants (`AsyncValidatorFn`,
`AsyncValidator`) run their rules concurrently and then merge the outcomes in
registration order. A synchronous validator converts into an asynchronous one
rule by rule. The older single-file revision (`src/lib.rs`) uses a different
rule shape: a rule there fails with one error, which is promoted to a
one-element collection.

Files and modules, one per source file, plus `identity.dfy` for what two of them share:

- `identity.dfy` (`Identity`): identity tokens and the positional
  token-comparison loop that the validator equalities of `src/validator.rs`
  and `src/lib.rs` share.
- `errors.dfy` (`Errors`): `ValidationError`, `ValidationErrors`, `get`,
  `extend`, `default`, `From<ValidationError>` and `Display`.
- `concat_results.dfy` (`Concat`): `concat_results` as the fold the source
  writes. Its partner is a reference definition, `Flatten`: the in-order
  concatenation of the `Err` payloads.
- `validator_fn.dfy` (`ValidatorFns`): `ValidatorFn` and `AsyncValidatorFn`,
  including the conversion between them.
- `validator.dfy` (`Validators`): `Validator` and `AsyncValidator`: building,
  validating, equality, `join_all` and `From<Validator>`.
- `lib_legacy.dfy` (`Legacy`): the single-error revision in `src/lib.rs`.

Modelling choices:

- A message is a function `K -> string`. Rendering applies it to the stored
  key.
- A token is a `nat` minted from a counter (`IdSource`). Every constructor
  that mints takes the counter and returns the advanced one.
- An asynchronous rule is represented by the outcome its future resolves to.
- `join_all` (`Validators.JoinAll`) takes the order in which the scheduler
  completes the futures as a parameter, which can be any permutation. It
  stores each outcome in the slot of the future that produced it.
- Generic `V` and `K` carry Dafny's `!new` characteristic where a contract
  quantifies over them. Values and keys are plain values, not heap objects.

Keeping the rule's token when a synchronous rule is converted into an
asynchronous one would let equality survive the conversion. But
`src/validator_fn.rs:197-198` builds the converted rule with
`AsyncValidatorFn::new`, which mints a new token. The model follows the code:
`ValidatorFns.FromSync` and `Validators.FromValidator` hand out fresh tokens,
and `Validators.ConversionMintsNewTokens` and `Validators.ConvertTwiceUnequal`
state the consequences.

Three parts of `src/lib.rs` are textually the same as the current files:
`ValidationErrors::get` and `extend` (`src/lib.rs:118-131`, `140-142`) and
`concat_results` (`src/lib.rs:402-421`). The `Errors` and `Concat` members
below model both copies. Two test inputs in the source needed adjusting:

- The doc example and unit test of `src/validator.rs` call
  `ValidationError::new(key)` with one argument, but `src/error.rs:33` takes a
  type id as well. The model's example rules supply the type ids
  `NOT_LESS_THAN_0` and `GREATER_THAN_10`.
- The errors of `src/lib.rs` have no type id. They are modelled with the same
  datatype and an empty type id.

## Model

| member | source | states |
|---|---|---|
| `Identity.Mint` | src/validator_fn.rs:50-58 | a new token is at or above the supply's next unused token and below the advanced supply, so it is strictly above, and differs from, every token minted before `src` |
| `Identity.MintIsFresh` | src/validator_fn.rs:54-57 | a minted token is not among the tokens minted before it, and the advanced supply covers it too |
| `Identity.SameIdsPositionally` | src/validator.rs:53-69 | the `&=` loop over positions (with the length check first) returns true exactly when both token lists have the same length and agree at every position |
| `Errors.NewError` | src/error.rs:33-39 | the error stores exactly the given key and type id, and its message is "Validation error" for every key |
| `Errors.Message` | src/error.rs:42-46 | after `message(text)`, the message is `text` for every key and the key and type id are unchanged |
| `Errors.WithMessage` | src/error.rs:66-74 | after `with_message(f)`, the message function is `f`, the rendered message is `f` of the stored key, and the key and type id are unchanged |
| `Errors.Render` | src/error.rs:72-74 | `get_message` applies the message function to the stored key; `NewError`, `Message` and `WithMessage` state what it then returns: "Validation error", the fixed text, or `f` of the key |
| `Errors.Empty` | src/error.rs:150-154 | `default()` is empty and has length 0 |
| `Errors.Len` | src/error.rs:145-147 | the number of errors; `Empty`, `Extend`, `FromError` and `ConcatCount` state its value |
| `Errors.IsEmpty` | src/error.rs:134-136 | no errors; `Empty`, `Get` and `ConcatResults` state when it holds |
| `Errors.Extend` | src/error.rs:140-142 | `extend` adds the lengths, keeps the existing errors first and unchanged, and follows them with the other collection's errors in their order |
| `Errors.FromError` | src/error.rs:169-171 | a promoted error is a collection of length 1 holding exactly that error |
| `Errors.Filter` | src/error.rs:119-124 | the filtered errors are no more than the input and all carry the key; the result is empty exactly when no input error has the key |
| `Errors.Get` | src/error.rs:118-131 | `get(k)` is `None` exactly when no error has key `k`; otherwise it is a non-empty collection, no longer than the original, of errors with key `k`, equal to the original's errors at exactly the positions holding key `k`, in increasing order |
| `Errors.FilterSelects` | src/error.rs:119-124 | the filter is exactly the sub-sequence of the errors at the positions whose key matches, in original order |
| `Errors.FilterAppend` | src/error.rs:119-124 | filtering a concatenation gives the filter of each part, in order |
| `Errors.GetAfterExtend` | src/error.rs:118-142 | after a merge, `get(k)` is `None` exactly when both parts have no error for `k`; otherwise it holds the first part's errors for `k` followed by the second part's |
| `Errors.ExtendIdentity` | src/error.rs:150-154 | `default()` is a left and a right identity of `extend` |
| `Errors.ExtendAssociative` | src/error.rs:140-142 | merging is associative, so grouping does not change the final order |
| `Errors.DisplaySingle` | src/error.rs:156-161 | a one-error collection displays as that error's message |
| `Errors.DisplayExtend` | src/error.rs:156-161 | the display of a merge of two non-empty collections is the first display, ", ", then the second display |
| `Errors.Display` | src/error.rs:156-161 | the messages joined by ", " in collection order; `DisplaySingle` and `DisplayExtend` state its value on one error and on a merge |
| `Concat.Fold` | src/concat_results.rs:35-41 | the loop leaves the seed's errors first, followed by every `Err` input's errors in input order; `Ok` inputs add nothing |
| `Concat.ConcatResults` | src/concat_results.rs:29-48 | the result is `Ok` exactly when the concatenated `Err` payloads are empty; otherwise it is `Err` with that concatenation, which is never empty |
| `Concat.DeterminedByFlatten` | src/concat_results.rs:29-48 | inputs that carry the same errors in the same order merge to the same result |
| `Concat.FlattenAppend` | src/concat_results.rs:37-41 | the errors of `xs ++ ys` are the errors of `xs` followed by those of `ys` |
| `Concat.ConcatCount` | src/concat_results.rs:37-41 | on `Err`, the error count is the sum of the `Err` inputs' lengths |
| `Concat.OkIffNoErrors` | src/concat_results.rs:43-47 | the result is `Ok` exactly when every input is `Ok` or an `Err` with an empty collection |
| `Concat.SplitInvariance` | src/concat_results.rs:35-47 | merging `xs ++ ys` carries the errors of merging `xs` followed by those of merging `ys` |
| `Concat.OkIsNeutral` | src/concat_results.rs:38-40 | inserting `Ok(())` anywhere in the inputs does not change the result |
| `Concat.DocExample` | src/concat_results.rs:10-27 | `[Ok, Err(field1), Err(field1), Err(field2)]` gives 3 errors, 2 under "field1" and 1 under "field2" |
| `ValidatorFns.New` | src/validator_fn.rs:50-58 | `new` mints a fresh token, and `validate_value` of the result returns exactly the closure's result for every value and key |
| `ValidatorFns.ValidateValue` | src/validator_fn.rs:99-101 | runs the stored closure; `New` and `Clone` state that it returns exactly the closure's result on every value and key |
| `ValidatorFns.Clone` | src/validator_fn.rs:61-68 | a clone equals its original and validates every input alike |
| `ValidatorFns.Into` | src/validator_fn.rs:76-83 | a closure passed to `validation` is wrapped as by `new`, under a fresh token; an already wrapped rule is passed through with its token |
| `ValidatorFns.AsyncNew` | src/validator_fn.rs:166-177 | the asynchronous `new` mints a fresh token, and the rule resolves to the producer's outcome for every value and key |
| `ValidatorFns.AsyncValidateValue` | src/validator_fn.rs:181-188 | the outcome the produced future resolves to; `AsyncNew`, `AsyncClone` and `FromSync` state it for every value and key |
| `ValidatorFns.AsyncClone` | src/validator_fn.rs:215-224 | an asynchronous clone equals its original and resolves alike |
| `ValidatorFns.FromSync` | src/validator_fn.rs:197-204 | the converted rule resolves, for every value and key, to what the synchronous rule returns, under a freshly minted token |
| `ValidatorFns.AsyncInto` | src/validator_fn.rs:192-205 | an asynchronous rule passed to `validation` keeps its token; a synchronous one is converted and gets a fresh token |
| `ValidatorFns.EqIsIdentity` | src/validator_fn.rs:70-74 | rules with the same token are equal whatever their closures, and a rule equals its clone |
| `ValidatorFns.Eq` | src/validator_fn.rs:70-74 | equality compares tokens only; `EqIsIdentity` and `SeparatelyBuiltUnequal` state what that means for clones and for separately built rules |
| `ValidatorFns.AsyncEq` | src/validator_fn.rs:208-212 | asynchronous equality compares tokens only; `AsyncClone` and `ConvertTwiceUnequal` state what that means for clones and conversions |
| `ValidatorFns.SeparatelyBuiltUnequal` | src/validator_fn.rs:50-58 | two rules built one after the other are unequal, even from the same closure |
| `ValidatorFns.ConvertTwiceUnequal` | src/validator_fn.rs:197-198 | converting the same synchronous rule twice gives two unequal asynchronous rules |
| `Validators.NewValidator` | src/validator.rs:73-77 | `new()` has no rules |
| `Validators.DefaultValidator` | src/validator.rs:110-114 | `default()` has no rules |
| `Validators.Validation` | src/validator.rs:80-86 | `validation` appends exactly one rule at the end, the converted argument, and leaves the earlier rules and their order unchanged |
| `Validators.ValidateValue` | src/validator.rs:93-107 | the result is `Ok` exactly when the rules' errors, concatenated in registration order, are empty; otherwise it is `Err` with that concatenation |
| `Validators.ValidationAppendsErrors` | src/validator.rs:93-107 | after adding a rule, the validator's errors are the previous errors followed by the new rule's errors |
| `Validators.Equals` | src/validator.rs:53-69 | two validators are equal exactly when they have the same number of rules and the rules at each position have equal tokens |
| `Validators.AsyncEq` | src/validator.rs:165-168 | the derived equality: same number of rules and equal tokens position by position; `Validators.ConvertTwiceUnequal` states that two conversions of one validator are unequal |
| `Validators.EqualValidatorsAgree` | src/validator.rs:53-69 | when every token stands for one closure, equal validators validate every input alike |
| `Validators.AsyncNewValidator` | src/validator.rs:177-181 | the asynchronous `new()` has no rules |
| `Validators.AsyncDefaultValidator` | src/validator.rs:223-231 | the asynchronous `default()` has no rules |
| `Validators.AsyncValidation` | src/validator.rs:184-190 | the asynchronous `validation` appends exactly the converted argument at the end and leaves earlier rules unchanged |
| `Validators.JoinAll` | src/validator.rs:199-206 | whatever order the futures complete in, the collected outcomes are the rules' outcomes in registration order |
| `Validators.AsyncValidateValue` | src/validator.rs:192-219 | for every completion order, the result is the merge, in registration order, of the rules' outcomes: `Ok` exactly when their errors are empty, otherwise `Err` with their in-order concatenation |
| `Validators.ConvertRules` | src/validator.rs:239-247 | the conversion loop keeps the rules already converted, appends one converted rule per remaining rule in the same order, each resolving like its source rule, under fresh and increasing tokens |
| `Validators.FromValidator` | src/validator.rs:239-247 | `From<Validator>` gives as many rules as the original, in the same order, each resolving like its counterpart, under fresh and increasing tokens |
| `Validators.ConvertedValidatesAlike` | src/validator.rs:234-247 | the converted validator's per-rule outcomes equal the original's, so its merged result equals the synchronous `validate_value` for every input |
| `Validators.ConversionMintsNewTokens` | src/validator.rs:239-247 | a converted rule never carries its source rule's token when the source rules were minted earlier |
| `Validators.ConvertTwiceUnequal` | src/validator.rs:239-247 | converting the same non-empty validator twice gives unequal asynchronous validators |
| `Validators.ExampleOutcomes` | src/validator.rs:294-299 | with the rules "< 0" and "> 10", inputs 11 and -1 fail with one error each and 5 succeeds; after conversion with tokens minted later than the originals, 11 and -1 still fail and 5 still succeeds |
| `Validators.AsyncExampleOutcomes` | src/validator.rs:159-161 | an asynchronous validator with one asynchronous rule and one converted synchronous rule rejects 11 and -1 and accepts 5, for every completion order |
| `Legacy.NewFn` | src/lib.rs:203-211 | `new` keeps the rule and mints a fresh token |
| `Legacy.FnValidateValue` | src/lib.rs:250-252 | `Ok` passes through, and `Err(e)` becomes the one-element collection `[e]` |
| `Legacy.NewValidator` | src/lib.rs:333-337 | `new()` has no rules |
| `Legacy.DefaultValidator` | src/lib.rs:370-374 | `default()` has no rules |
| `Legacy.Validation` | src/lib.rs:340-346 | `validation` appends one freshly wrapped rule and leaves the earlier rules unchanged |
| `Legacy.FlattenIsFailedErrors` | src/lib.rs:356-360 | the accumulated errors are the single errors of the failing rules in registration order, and they are empty exactly when no rule failed |
| `Legacy.ValidateValue` | src/lib.rs:353-367 | the result is `Ok` exactly when no rule failed; otherwise it is `Err` with the failing rules' errors in registration order |
| `Legacy.Equals` | src/lib.rs:301-317 | validators are equal exactly when they have the same length and equal tokens at each position |
| `Legacy.Adapt` | src/lib.rs:246-253 | the single-error adapter turns each rule into a collection-returning rule under the same token, keeping the count; each adapted rule returns, for every value and key, its legacy rule's outcome with the single error promoted to `[e]` |
| `Legacy.AdaptAgrees` | src/lib.rs:246-253 | the adapted validator validates every input exactly as the single-error validator does, and adapting preserves equality both ways |
| `Legacy.ValidateOrEmpty` | src/lib.rs:229-234 | `Ok` becomes the empty collection, and `Err(e)` becomes `e` unchanged |
| `Legacy.OrEmptyRoundTrip` | src/lib.rs:229-234 | applied to a merged outcome, `validate_or_empty` yields all its errors, and testing that collection for emptiness gives back the outcome |
| `Legacy.ExampleOutcomes` | src/lib.rs:291-294 | with the rules "< 0" and "> 10", inputs 11 and -1 fail with one error each and 5 succeeds |

## Left out

- Futures, `Pin<Box<dyn Future>>` and the executor. An asynchronous rule is modelled by the outcome it resolves to. The scheduling that `join_all` is exposed to is a completion-order parameter.
- `Uuid::new_v4`. Tokens come from a counter, which gives the only property the library uses: a new token differs from every earlier one.
- `Rc` sharing and `PhantomData`. They are ownership plumbing with no behaviour to model.
- `Debug` of `ValidatorFn` and `AsyncValidatorFn` (`src/validator_fn.rs:85-93`, `226-235`). It prints the closure's address and the random token.
- The derived `Debug` of `Validator` and `AsyncValidator` (`src/validator.rs:48`, `165`). It prints each rule's `Debug`, so their addresses and tokens.
- `Debug` of the legacy `Validator` (`src/lib.rs:319-329`). It prints the rules' addresses.
- `Debug` of `ValidationError` (`src/error.rs:83-96`) and of the legacy `ValidationError` (`src/lib.rs:84-96`). They render the key, the type id (current revision only) and the message for diagnostics, and no core operation uses them.
- The `format!` text inside message closures. Messages are opaque functions of the key. The example rules' messages omit the offending value.
- Re-evaluation of the message on every render. Dafny functions are pure, so rendering twice cannot be told apart from rendering once.
- `usize` lengths. Lengths are unbounded naturals; a collection that large cannot occur.
- A panicking rule closure, or one with interior mutable state (`Cell`, `RefCell`) that can answer differently on repeated calls. Rules are total, pure functions.
- Key comparison through `PartialEq`. It is modelled as Dafny equality, which is an equivalence relation.
- `Clone` derived for `Validator` and `AsyncValidator`. It copies the rule list with its tokens; value semantics make it the identity.
- `src/validatable.rs`: `validate_or_empty` there is the same as `src/lib.rs:229-234`, modelled by `Legacy.ValidateOrEmpty`. Its asynchronous twin applies the same mapping after awaiting.
- `src/validation.rs`: a trait declaration without logic.
