/** Identity tokens of validation rules.

    Every rule the library wraps is tagged with a random UUID, and rules are
    compared by that tag alone. Here a tag is a natural number drawn from a
    monotone counter: what the library relies on the UUIDs for is only that a
    freshly minted tag differs from every tag minted before it, and a counter
    gives exactly that. */
module Identity {

  /** The supply of unused tokens: no token at or above `next` has been handed out. */
  datatype IdSource = IdSource(next: nat)

  /** Hands out one token and the supply that remains. */
  function Mint(src: IdSource): (r: (nat, IdSource))
    ensures src.next <= r.0 < r.1.next
  {
    (src.next, IdSource(src.next + 1))
  }

  /** Every token in `ids` was handed out before the supply reached `src`. */
  predicate MintedBefore(ids: seq<nat>, src: IdSource)
  {
    forall i :: 0 <= i < |ids| ==> ids[i] < src.next
  }

  /** A token minted from `src` is none of the tokens minted before it, and
      the remaining supply accounts for it as well. */
  lemma MintIsFresh(ids: seq<nat>, src: IdSource)
    requires MintedBefore(ids, src)
    ensures Mint(src).0 !in ids
    ensures MintedBefore(ids + [Mint(src).0], Mint(src).1)
  {
  }

  /** Positional comparison of two validators' rule tokens, as both revisions
      of the library write it: unequal lengths are unequal; otherwise every
      position is compared, without stopping early, and the verdicts are
      and-ed together. */
  method SameIdsPositionally(a: seq<nat>, b: seq<nat>) returns (same: bool)
    ensures same <==> |a| == |b| && forall i :: 0 <= i < |a| ==> a[i] == b[i]
    ensures same <==> a == b
  {
    if |a| == |b| {
      same := true;
      for i := 0 to |a|
        invariant same <==> forall j :: 0 <= j < i ==> a[j] == b[j]
      {
        same := same && a[i] == b[i];
      }
    } else {
      same := false;
    }
  }
}
