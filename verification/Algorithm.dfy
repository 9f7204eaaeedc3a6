/** Linear search (find_if in pine/algorithm.hpp), and a list insertion. */
module Algorithm {

  /** The first position satisfying the predicate, or the length when there is none. */
  function FirstIndex<T>(s: seq<T>, pred: T -> bool): (i: nat)
    ensures i <= |s|
    ensures i < |s| ==> pred(s[i])
    ensures forall j | 0 <= j < i :: !pred(s[j])
  {
    if s == [] || pred(s[0]) then 0 else 1 + FirstIndex(s[1..], pred)
  }

  lemma FirstIndexIs<T>(s: seq<T>, pred: T -> bool, i: nat)
    requires i <= |s| && (i < |s| ==> pred(s[i])) && forall j | 0 <= j < i :: !pred(s[j])
    ensures FirstIndex(s, pred) == i
  {
  }

  /** After k elements of a search: i is where it stopped, or the length. */
  ghost predicate FoundSoFar<T>(s: seq<T>, pred: T -> bool, k: nat, i: nat) {
    && k <= |s|
    && if i < k then i == FirstIndex(s, pred) else i == |s| && forall j | 0 <= j < k :: !pred(s[j])
  }

  lemma FoundNone<T>(s: seq<T>, pred: T -> bool)
    ensures FoundSoFar(s, pred, 0, |s|)
  {
  }

  lemma FoundNext<T>(s: seq<T>, pred: T -> bool, k: nat, i: nat)
    requires k < |s| && FoundSoFar(s, pred, k, i)
    ensures i <= |s| && FoundSoFar(s, pred, k + 1, if i == |s| && pred(s[k]) then k else i)
  {
  }

  lemma FoundAll<T>(s: seq<T>, pred: T -> bool, k: nat, i: nat)
    requires FoundSoFar(s, pred, k, i) && (k == |s| || i != |s|)
    ensures i == FirstIndex(s, pred)
  {
  }

  /** find_if over a list. */
  method FindIf<T>(list: seq<T>, pred: T -> bool) returns (i: nat)
    ensures i == FirstIndex(list, pred)
  {
    i := 0;
    while i != |list|
      invariant i <= |list|
      invariant FirstIndex(list, pred) == i + FirstIndex(list[i..], pred)
    {
      if pred(list[i]) {
        return;
      }
      i := i + 1;
    }
  }

  /** `x` put in after the first element, or alone into an empty list. */
  function InsertedAfterFirst<T>(s: seq<T>, x: T): seq<T> {
    if s == [] then [x] else s[..1] + [x] + s[1..]
  }
}
