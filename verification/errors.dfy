/** Field-scoped validation errors and the ordered collection they are
    gathered into (src/error.rs). */
module Errors {

  datatype Option<T> = None | Some(value: T)

  /** Rust's `Result<(), E>`: success carries nothing, failure carries an `E`. */
  datatype Result<E> = Ok | Err(error: E)

  /** The text an error renders as until a message is set on it. */
  const DefaultMessage: string := "Validation error"

  /** One error: the key of the offending field, a machine-readable type id,
      and the function that produces the human-readable message from the key.
      The message is evaluated each time the error is rendered. */
  datatype ValidationError<!K> = ValidationError(key: K, typeId: string, message: K -> string)
  {
    /** The rendered message: the message function applied to the stored key. */
    function Render(): string
    {
      message(key)
    }
  }

  /** An error for `key` with the generic message. */
  function NewError<K(!new)>(key: K, typeId: string): (e: ValidationError<K>)
    ensures e.key == key && e.typeId == typeId
    ensures forall k :: e.message(k) == DefaultMessage
    ensures e.Render() == DefaultMessage
  {
    ValidationError(key, typeId, _ => DefaultMessage)
  }

  /** Replaces the message with a constant text. */
  function Message<K(!new)>(e: ValidationError<K>, text: string): (r: ValidationError<K>)
    ensures r.key == e.key && r.typeId == e.typeId
    ensures forall k :: r.message(k) == text
    ensures r.Render() == text
  {
    e.(message := _ => text)
  }

  /** Replaces the message with a function of the key, evaluated when rendered. */
  function WithMessage<K>(e: ValidationError<K>, f: K -> string): (r: ValidationError<K>)
    ensures r.key == e.key && r.typeId == e.typeId
    ensures r.message == f
    ensures r.Render() == f(e.key)
  {
    e.(message := f)
  }

  /** The ordered collection of errors; duplicates are kept. */
  datatype ValidationErrors<!K> = ValidationErrors(errors: seq<ValidationError<K>>)
  {
    function Len(): nat
    {
      |errors|
    }

    predicate IsEmpty()
    {
      |errors| == 0
    }
  }

  /** `default()`: the empty collection. */
  function Empty<K>(): (r: ValidationErrors<K>)
    ensures r.IsEmpty() && r.Len() == 0
  {
    ValidationErrors([])
  }

  /** Appends all of `other`'s errors, in their order, after those of `errs`. */
  function Extend<K>(errs: ValidationErrors<K>, other: ValidationErrors<K>): (r: ValidationErrors<K>)
    ensures r.Len() == errs.Len() + other.Len()
    ensures r.errors[..errs.Len()] == errs.errors
    ensures r.errors[errs.Len()..] == other.errors
  {
    ValidationErrors(errs.errors + other.errors)
  }

  /** `From<ValidationError>`: a single error promoted to a collection. */
  function FromError<K>(e: ValidationError<K>): (r: ValidationErrors<K>)
    ensures r.Len() == 1 && r.errors[0] == e
  {
    ValidationErrors([e])
  }

  /** The errors whose key is `key`, in their original order. */
  function Filter<K(==)>(errors: seq<ValidationError<K>>, key: K): (r: seq<ValidationError<K>>)
    ensures |r| <= |errors|
    ensures forall j :: 0 <= j < |r| ==> r[j].key == key
    ensures |r| == 0 <==> forall i :: 0 <= i < |errors| ==> errors[i].key != key
  {
    if |errors| == 0 then []
    else if errors[0].key == key then [errors[0]] + Filter(errors[1..], key)
    else Filter(errors[1..], key)
  }

  /** `get(key)`: the errors for one field, or `None` when the field has none. */
  function Get<K(==)>(errs: ValidationErrors<K>, key: K): (r: Option<ValidationErrors<K>>)
    ensures r.None? <==> forall i :: 0 <= i < errs.Len() ==> errs.errors[i].key != key
    ensures r.Some? ==> !r.value.IsEmpty() && r.value.Len() <= errs.Len()
    ensures r.Some? ==> forall j :: 0 <= j < r.value.Len() ==> r.value.errors[j].key == key
    ensures r.Some? ==> SelectedBy(r.value.errors, errs.errors, key, KeyIndices(errs.errors, key))
  {
    FilterSelects(errs.errors, key);
    var matching := Filter(errs.errors, key);
    if |matching| != 0 then Some(ValidationErrors(matching)) else None
  }

  /** `r` is the sub-sequence of `errors` at the strictly increasing positions
      `idx`, and those positions are exactly the ones whose key is `key`. */
  ghost predicate SelectedBy<K>(r: seq<ValidationError<K>>, errors: seq<ValidationError<K>>, key: K, idx: seq<nat>)
  {
    && PicksAt(r, errors, idx)
    && Increasing(idx)
    && (forall i :: 0 <= i < |errors| ==> (errors[i].key == key <==> i in idx))
  }

  /** `r[j]` is the error at position `idx[j]` of `errors`, for every `j`. */
  ghost predicate PicksAt<K>(r: seq<ValidationError<K>>, errors: seq<ValidationError<K>>, idx: seq<nat>)
  {
    && |idx| == |r|
    && (forall j :: 0 <= j < |idx| ==> idx[j] < |errors| && r[j] == errors[idx[j]])
  }

  ghost predicate Increasing(idx: seq<nat>)
  {
    forall j, j' :: 0 <= j < j' < |idx| ==> idx[j] < idx[j']
  }

  /** Every position of a sequence moved one place to the right. */
  ghost function Shift(idx: seq<nat>): (r: seq<nat>)
    ensures |r| == |idx|
    ensures forall j :: 0 <= j < |idx| ==> r[j] == idx[j] + 1
    ensures forall i: nat :: i in r <==> i > 0 && i - 1 in idx
  {
    var r := seq(|idx|, j requires 0 <= j < |idx| => idx[j] + 1);
    assert forall i: nat :: i in r ==> i > 0 && i - 1 in idx by {
      forall i: nat | i in r ensures i > 0 && i - 1 in idx {
        var j :| 0 <= j < |r| && r[j] == i;
        assert idx[j] == i - 1;
      }
    }
    assert forall i: nat :: i > 0 && i - 1 in idx ==> i in r by {
      forall i: nat | i > 0 && i - 1 in idx ensures i in r {
        var j :| 0 <= j < |idx| && idx[j] == i - 1;
        assert r[j] == i;
      }
    }
    r
  }

  /** The positions of `errors` whose key is `key`, in increasing order. */
  ghost function KeyIndices<K>(errors: seq<ValidationError<K>>, key: K): seq<nat>
  {
    if |errors| == 0 then []
    else if errors[0].key == key then [0] + Shift(KeyIndices(errors[1..], key))
    else Shift(KeyIndices(errors[1..], key))
  }

  /** The positions of matching errors are increasing and are exactly the matching ones. */
  lemma {:induction false} KeyIndicesExact<K>(errors: seq<ValidationError<K>>, key: K)
    ensures Increasing(KeyIndices(errors, key))
    ensures forall i :: 0 <= i < |errors| ==> (errors[i].key == key <==> i in KeyIndices(errors, key))
  {
    if |errors| != 0 {
      var t := errors[1..];
      KeyIndicesExact(t, key);
      var st := Shift(KeyIndices(t, key));
      assert Increasing(st);
      forall i | 0 <= i < |errors|
        ensures errors[i].key == key <==> i in KeyIndices(errors, key)
      {
        if i > 0 {
          assert errors[i] == t[i - 1];
        }
      }
    }
  }

  /** `Filter` picks its errors at the positions `KeyIndices` lists. */
  lemma {:induction false} FilterPicksAt<K>(errors: seq<ValidationError<K>>, key: K)
    ensures PicksAt(Filter(errors, key), errors, KeyIndices(errors, key))
  {
    if |errors| != 0 {
      var t := errors[1..];
      FilterPicksAt(t, key);
      var ft, it := Filter(t, key), KeyIndices(t, key);
      var h := if errors[0].key == key then 1 else 0;
      var r, idx := Filter(errors, key), KeyIndices(errors, key);
      forall j | 0 <= j < |idx|
        ensures idx[j] < |errors| && r[j] == errors[idx[j]]
      {
        if j >= h {
          assert idx[j] == it[j - h] + 1;
          assert r[j] == ft[j - h] == t[it[j - h]];
        }
      }
    }
  }

  /** `Filter` keeps exactly the errors with the given key, in their original order. */
  lemma FilterSelects<K>(errors: seq<ValidationError<K>>, key: K)
    ensures SelectedBy(Filter(errors, key), errors, key, KeyIndices(errors, key))
  {
    KeyIndicesExact(errors, key);
    FilterPicksAt(errors, key);
  }

  /** Filtering distributes over concatenation: a field's errors in a merged
      collection are its errors from each part, in order. */
  lemma {:induction false} FilterAppend<K>(a: seq<ValidationError<K>>, b: seq<ValidationError<K>>, key: K)
    ensures Filter(a + b, key) == Filter(a, key) + Filter(b, key)
  {
    if |a| != 0 {
      assert (a + b)[1..] == a[1..] + b;
      FilterAppend(a[1..], b, key);
    } else {
      assert a + b == b;
    }
  }

  /** `default()` is a left and right identity of `extend`. */
  lemma ExtendIdentity<K>(e: ValidationErrors<K>)
    ensures Extend(Empty(), e) == e
    ensures Extend(e, Empty()) == e
  {
  }

  /** `extend` is associative, so the grouping of merges does not change the order. */
  lemma ExtendAssociative<K>(a: ValidationErrors<K>, b: ValidationErrors<K>, c: ValidationErrors<K>)
    ensures Extend(Extend(a, b), c) == Extend(a, Extend(b, c))
  {
  }

  /** The fields' lookups after a merge are the lookups of each part, in order. */
  lemma GetAfterExtend<K>(a: ValidationErrors<K>, b: ValidationErrors<K>, key: K)
    ensures Get(Extend(a, b), key).None? <==> Get(a, key).None? && Get(b, key).None?
    ensures Get(Extend(a, b), key).Some? ==>
      Get(Extend(a, b), key).value.errors == Filter(a.errors, key) + Filter(b.errors, key)
  {
    FilterAppend(a.errors, b.errors, key);
  }

  /** Joins strings with a separator between consecutive ones. */
  function Join(parts: seq<string>, sep: string): string
  {
    if |parts| == 0 then ""
    else if |parts| == 1 then parts[0]
    else parts[0] + sep + Join(parts[1..], sep)
  }

  /** Each error rendered, in collection order. */
  function Messages<K>(errors: seq<ValidationError<K>>): (r: seq<string>)
    ensures |r| == |errors|
    ensures forall i :: 0 <= i < |errors| ==> r[i] == errors[i].Render()
  {
    seq(|errors|, i requires 0 <= i < |errors| => errors[i].Render())
  }

  /** `Display`: the rendered messages joined by ", ". */
  function Display<K>(errs: ValidationErrors<K>): string
  {
    Join(Messages(errs.errors), ", ")
  }

  lemma {:induction false} JoinAppend(p: seq<string>, q: seq<string>, sep: string)
    requires |p| > 0 && |q| > 0
    ensures Join(p + q, sep) == Join(p, sep) + sep + Join(q, sep)
  {
    if |p| == 1 {
      assert (p + q)[1..] == q;
    } else {
      assert (p + q)[1..] == p[1..] + q;
      JoinAppend(p[1..], q, sep);
    }
  }

  /** A single error displays as its own message. */
  lemma DisplaySingle<K>(e: ValidationError<K>)
    ensures Display(FromError(e)) == e.Render()
  {
  }

  /** Displaying a merge of two non-empty collections puts ", " between their displays. */
  lemma DisplayExtend<K>(a: ValidationErrors<K>, b: ValidationErrors<K>)
    requires !a.IsEmpty() && !b.IsEmpty()
    ensures Display(Extend(a, b)) == Display(a) + ", " + Display(b)
  {
    assert Messages(a.errors + b.errors) == Messages(a.errors) + Messages(b.errors);
    JoinAppend(Messages(a.errors), Messages(b.errors), ", ");
  }
}
