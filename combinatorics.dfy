/** Counting facts shared by the enumerations of the planner. */
module Combinatorics {

  /** `b` raised to the power `e`. */
  function Pow(b: nat, e: nat): nat
  {
    if e == 0 then 1 else b * Pow(b, e - 1)
  }

  /** The elements of a sequence, as a set (Python's `set(xs)`). */
  function Elems<T(==)>(s: seq<T>): set<T>
  {
    set x | x in s
  }

  /** Appending an item adds it to the elements. */
  lemma ElemsSnoc<T>(s: seq<T>, x: T)
    ensures Elems(s + [x]) == Elems(s) + {x}
  {
  }

  /** No value occurs twice in `s`. */
  predicate Distinct<T(==)>(s: seq<T>)
  {
    forall i, j | 0 <= i < j < |s| :: s[i] != s[j]
  }

  /** A sequence without repetitions has as many distinct elements as positions. */
  lemma {:induction false} DistinctCard<T>(s: seq<T>)
    requires Distinct(s)
    ensures |Elems(s)| == |s|
  {
    if s != [] {
      var init, last := s[..|s| - 1], s[|s| - 1];
      assert Distinct(init);
      DistinctCard(init);
      assert s == init + [last];
      assert Elems(s) == Elems(init) + {last};
    }
  }
}
