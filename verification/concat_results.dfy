/** Merging many validation outcomes into one (src/concat_results.rs). */
module Concat {
  import opened Errors

  /** The outcome of validating one field or one rule. */
  type ValidationResult<!K> = Result<ValidationErrors<K>>

  /** The errors one outcome contributes; an `Ok` contributes none. */
  function Payload<K>(r: ValidationResult<K>): seq<ValidationError<K>>
  {
    match r
    case Ok => []
    case Err(errs) => errs.errors
  }

  /** Reference definition: every `Err` payload, flattened in input order. */
  function Flatten<K>(results: seq<ValidationResult<K>>): seq<ValidationError<K>>
  {
    if |results| == 0 then [] else Payload(results[0]) + Flatten(results[1..])
  }

  /** The number of errors the outcomes carry between them. */
  function ErrorCount<K>(results: seq<ValidationResult<K>>): nat
  {
    if |results| == 0 then 0 else |Payload(results[0])| + ErrorCount(results[1..])
  }

  /** The loop of `concat_results`: starting from `acc`, extend with the
      payload of each `Err` in turn and skip each `Ok`. */
  function Fold<K>(acc: ValidationErrors<K>, results: seq<ValidationResult<K>>): (r: ValidationErrors<K>)
    ensures r.errors == acc.errors + Flatten(results)
    decreases |results|
  {
    if |results| == 0 then acc
    else
      var next := match results[0] case Ok => acc case Err(errs) => Extend(acc, errs);
      Fold(next, results[1..])
  }

  /** The final test: an empty accumulator is success, anything else a failure carrying it. */
  function Finish<K>(errs: ValidationErrors<K>): ValidationResult<K>
  {
    if !errs.IsEmpty() then Err(errs) else Ok
  }

  /** `concat_results`: a fold seeded with the empty collection. */
  function ConcatResults<K>(results: seq<ValidationResult<K>>): (r: ValidationResult<K>)
    ensures r.Ok? <==> |Flatten(results)| == 0
    ensures r.Err? ==> r.error.errors == Flatten(results)
    ensures r.Err? ==> !r.error.IsEmpty()
  {
    Finish(Fold(Empty(), results))
  }

  /** Two lists of outcomes carrying the same errors in the same order merge alike. */
  lemma DeterminedByFlatten<K>(xs: seq<ValidationResult<K>>, ys: seq<ValidationResult<K>>)
    requires Flatten(xs) == Flatten(ys)
    ensures ConcatResults(xs) == ConcatResults(ys)
  {
  }

  lemma {:induction false} FlattenAppend<K>(xs: seq<ValidationResult<K>>, ys: seq<ValidationResult<K>>)
    ensures Flatten(xs + ys) == Flatten(xs) + Flatten(ys)
  {
    if |xs| == 0 {
      assert xs + ys == ys;
    } else {
      assert (xs + ys)[1..] == xs[1..] + ys;
      FlattenAppend(xs[1..], ys);
    }
  }

  /** The merged error count is the sum of the inputs' error counts. */
  lemma {:induction false} ConcatCount<K>(results: seq<ValidationResult<K>>)
    ensures |Flatten(results)| == ErrorCount(results)
    ensures ConcatResults(results).Err? ==> ConcatResults(results).error.Len() == ErrorCount(results)
  {
    if |results| != 0 {
      ConcatCount(results[1..]);
    }
  }

  /** Success exactly when no input carries an error; an `Err` with an empty
      collection therefore still merges to `Ok`. */
  lemma {:induction false} OkIffNoErrors<K>(results: seq<ValidationResult<K>>)
    ensures ConcatResults(results).Ok? <==> forall i :: 0 <= i < |results| ==> |Payload(results[i])| == 0
  {
    if |results| != 0 {
      OkIffNoErrors(results[1..]);
      assert forall i :: 1 <= i < |results| ==> results[i] == results[1..][i - 1];
    }
  }

  /** Splitting the inputs anywhere and merging each part gives the whole's
      errors in the same order. */
  lemma SplitInvariance<K>(xs: seq<ValidationResult<K>>, ys: seq<ValidationResult<K>>)
    ensures Payload(ConcatResults(xs + ys)) == Payload(ConcatResults(xs)) + Payload(ConcatResults(ys))
  {
    FlattenAppend(xs, ys);
  }

  /** Inserting an `Ok` anywhere changes nothing. */
  lemma OkIsNeutral<K>(xs: seq<ValidationResult<K>>, ys: seq<ValidationResult<K>>)
    ensures ConcatResults(xs + [Ok] + ys) == ConcatResults(xs + ys)
  {
    var okOnly: seq<ValidationResult<K>> := [Ok];
    var withOk := xs + okOnly + ys;
    assert Flatten(okOnly) == [] by {
      assert Flatten(okOnly) == Payload(okOnly[0]) + Flatten(okOnly[1..]);
    }
    assert Flatten(withOk) == Flatten(xs) + Flatten(ys) by {
      FlattenAppend(xs + okOnly, ys);
      FlattenAppend(xs, okOnly);
    }
    FlattenAppend(xs, ys);
    DeterminedByFlatten(withOk, xs + ys);
  }

  /** The example in the documentation of `concat_results`: one `Ok`, two
      errors for "field1" and one for "field2". */
  function DocResults(): seq<ValidationResult<string>>
  {
    [ Ok,
      Err(FromError(NewError("field1", "TEST_ERROR1"))),
      Err(FromError(NewError("field1", "TEST_ERROR2"))),
      Err(FromError(NewError("field2", "TEST_ERROR1"))) ]
  }

  lemma DocExample()
    ensures ConcatResults(DocResults()).Err?
    ensures ConcatResults(DocResults()).error.Len() == 3
    ensures Get(ConcatResults(DocResults()).error, "field1").Some?
    ensures Get(ConcatResults(DocResults()).error, "field1").value.Len() == 2
    ensures Get(ConcatResults(DocResults()).error, "field2").Some?
    ensures Get(ConcatResults(DocResults()).error, "field2").value.Len() == 1
  {
    var rs := DocResults();
    var e1, e2, e3 := rs[1].error.errors[0], rs[2].error.errors[0], rs[3].error.errors[0];
    assert Flatten(rs[3..]) == [e3];
    assert Flatten(rs[2..]) == [e2, e3];
    assert Flatten(rs[1..]) == [e1, e2, e3];
    assert Flatten(rs) == [e1, e2, e3];
    var all := [e1, e2, e3];
    assert "field1" != "field2";
    assert Filter(all[2..], "field1") == [];
    assert Filter(all[1..], "field1") == [e2];
    assert Filter(all, "field1") == [e1, e2];
    assert Filter(all[2..], "field2") == [e3];
    assert Filter(all[1..], "field2") == [e3];
    assert Filter(all, "field2") == [e3];
  }
}
