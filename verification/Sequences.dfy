/** Sequences that stand for sets. */
module Sequences {

  predicate NoDuplicates<T(==)>(s: seq<T>) {
    forall i, j :: 0 <= i < j < |s| ==> s[i] != s[j]
  }

  predicate Share<T(==)>(a: seq<T>, b: seq<T>) {
    exists x :: x in a && x in b
  }
}
