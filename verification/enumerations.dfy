/**
 Hash-map iteration order. The system iterates over hash maps and hash
 sets whose order it does not control; the model takes such an order as a
 parameter, constrained only to visit every key exactly once.
 */
module Enumerations {

  predicate Distinct<T(==)>(s: seq<T>) {
    forall i, j :: 0 <= i < j < |s| ==> s[i] != s[j]
  }

  /** `order` visits every element of `keys` and nothing else, once each. */
  predicate Enumerates<T(==)>(order: seq<T>, keys: set<T>) {
    && (forall i :: 0 <= i < |order| ==> order[i] in keys)
    && (forall k :: k in keys ==> k in order)
    && Distinct(order)
  }

  /** A prefix of a duplicate-free sequence does not contain the element
      that follows it. */
  lemma DistinctPrefix<T>(s: seq<T>, i: nat)
    requires Distinct(s) && i < |s|
    ensures s[i] !in s[..i]
    ensures Distinct(s[..i])
  {
  }
}
