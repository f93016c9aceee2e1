/**
  Facts about sequences that the grouping and the tour search share, stated
  over an arbitrary element type so that none of the functions on
  diagnostics or queues is in scope while they are proved.
 */
module Sequences {

  /** No element occurs twice. */
  predicate Distinct<T(==)>(s: seq<T>) {
    forall i, j :: 0 <= i < j < |s| ==> s[i] != s[j]
  }

  lemma Associative<T>(a: seq<T>, b: seq<T>, c: seq<T>)
    ensures a + (b + c) == (a + b) + c
  {
  }

  lemma EmptyOrHeadIn<T>(s: seq<T>)
    ensures s == [] || s[0] in s
  {
  }

  lemma PopFront<T>(s: seq<T>)
    requires s != []
    ensures s == [s[0]] + s[1..]
  {
  }

  lemma PopBack<T>(s: seq<T>)
    requires s != []
    ensures s == s[..|s| - 1] + [s[|s| - 1]]
  {
  }
}
