/** The upper-section score of a hand (`score`). */
module Scoring {
  import opened Combinatorics

  /** How many dice of `hand` show `v` (Python's `list.count`). */
  function Count(hand: seq<int>, v: int): (n: nat)
    ensures n == multiset(hand)[v]
  {
    if hand == [] then 0
    else
      assert hand == hand[..|hand| - 1] + [hand[|hand| - 1]];
      Count(hand[..|hand| - 1], v) + (if hand[|hand| - 1] == v then 1 else 0)
  }

  /** What the upper-section box for value `v` scores on `hand`. */
  function Points(hand: seq<int>, v: int): int
  {
    v * Count(hand, v)
  }

  /** The largest item of a non-empty list (Python's builtin `max`). */
  function Max(s: seq<int>): (m: int)
    requires |s| > 0
    ensures exists i | 0 <= i < |s| :: m == s[i]
    ensures forall i | 0 <= i < |s| :: s[i] <= m
  {
    if |s| == 1 then s[0]
    else
      var rest := Max(s[..|s| - 1]);
      if s[|s| - 1] > rest then s[|s| - 1] else rest
  }

  /** The best box over the values listed in `values`. */
  function BestBox(hand: seq<int>, values: seq<int>): int
    requires |values| > 0
  {
    if |values| == 1 then Points(hand, values[0])
    else
      var rest := BestBox(hand, values[..|values| - 1]);
      if Points(hand, values[|values| - 1]) > rest then Points(hand, values[|values| - 1]) else rest
  }

  /** No listed value's box exceeds the best box. */
  lemma {:induction false} BestBoxBound(hand: seq<int>, values: seq<int>)
    requires |values| > 0
    ensures forall v | v in values :: Points(hand, v) <= BestBox(hand, values)
  {
    if |values| > 1 {
      var init, last := values[..|values| - 1], values[|values| - 1];
      assert values == init + [last];
      BestBoxBound(hand, init);
    }
  }

  /** A value among `values` whose box is the best one. */
  lemma {:induction false} BestBoxWitness(hand: seq<int>, values: seq<int>) returns (v: int)
    requires |values| > 0
    ensures v in values && BestBox(hand, values) == Points(hand, v)
  {
    if |values| == 1 {
      v := values[0];
    } else {
      var init, last := values[..|values| - 1], values[|values| - 1];
      assert values == init + [last];
      v := BestBoxWitness(hand, init);
      if Points(hand, last) > BestBox(hand, init) {
        v := last;
      }
    }
  }

  /**
   * The best upper-section score of a hand: the largest v * count(v) over
   * the values v on the hand. The source's `max` fails on an empty hand.
   */
  function HandScore(hand: seq<int>): int
    requires |hand| > 0
  {
    BestBox(hand, hand)
  }

  /** No value on the hand scores more than the hand's score. */
  lemma ScoreBound(hand: seq<int>)
    requires |hand| > 0
    ensures forall v | v in hand :: Points(hand, v) <= HandScore(hand)
  {
    BestBoxBound(hand, hand);
  }

  /** The score is the box of some value on the hand. */
  lemma ScoreAttained(hand: seq<int>) returns (v: int)
    requires |hand| > 0
    ensures v in hand && HandScore(hand) == Points(hand, v)
  {
    v := BestBoxWitness(hand, hand);
  }

  /**
   * HandScore is the only value that is attained by some die and bounds every
   * die: it is fully determined by that pair of properties.
   */
  lemma ScoreCharacterized(hand: seq<int>, v: int, r: int)
    requires v in hand && r == Points(hand, v)
    requires forall u | u in hand :: Points(hand, u) <= r
    ensures r == HandScore(hand)
  {
    var w := ScoreAttained(hand);
    ScoreBound(hand);
    assert Points(hand, w) <= r;
    assert Points(hand, v) <= HandScore(hand);
  }

  /** The score depends only on the multiset of dice, not on their order. */
  lemma ScorePermutation(a: seq<int>, b: seq<int>)
    requires |a| > 0
    requires multiset(a) == multiset(b)
    ensures |b| > 0 && HandScore(a) == HandScore(b)
  {
    assert |b| == |multiset(b)| == |multiset(a)| == |a|;
    assert forall v :: v in a <==> v in b by {
      forall v ensures v in a <==> v in b {
        assert v in a <==> v in multiset(a);
        assert v in b <==> v in multiset(b);
      }
    }
    assert forall v :: Points(a, v) == Points(b, v);
    var v := ScoreAttained(a);
    ScoreBound(a);
    ScoreCharacterized(b, v, HandScore(a));
  }

  /**
   * Appending dice that show positive faces never lowers the score: every
   * value keeps at least its count, and a non-positive value is not among
   * the new dice, so its box is unchanged.
   */
  lemma ScoreGrows(held: seq<int>, extra: seq<int>)
    requires |held| > 0
    requires forall i | 0 <= i < |extra| :: extra[i] >= 1
    ensures HandScore(held + extra) >= HandScore(held)
  {
    var hand := held + extra;
    var v := ScoreAttained(held);
    assert multiset(hand) == multiset(held) + multiset(extra);
    if v <= 0 {
      assert v !in extra;
      assert Count(hand, v) == Count(held, v);
    } else {
      MoreDiceMorePoints(v, Count(held, v), Count(hand, v));
    }
    assert v in hand;
    ScoreBound(hand);
  }

  /**
   * A positive value scores at least as much with at least as many dice.
   * Kept apart from `ScoreGrows` so that this product is proved without the
   * multiset facts in scope.
   */
  lemma MoreDiceMorePoints(v: int, fewer: nat, more: nat)
    requires v > 0 && fewer <= more
    ensures v * fewer <= v * more
  {
  }

  /**
   * The largest of the boxes listed once per distinct value of the hand is
   * the hand's score.
   */
  lemma MaxOfBoxes(hand: seq<int>, values: seq<int>, boxes: seq<int>)
    requires |hand| > 0
    requires Elems(values) == Elems(hand)
    requires |boxes| == |values|
    requires forall k | 0 <= k < |values| :: boxes[k] == Points(hand, values[k])
    ensures |boxes| > 0 && Max(boxes) == HandScore(hand)
  {
    assert hand[0] in Elems(values);
    var r := Max(boxes);
    forall v | v in hand ensures Points(hand, v) <= r {
      assert v in Elems(values);
      var k :| 0 <= k < |values| && values[k] == v;
      assert boxes[k] == Points(hand, v);
    }
    var k :| 0 <= k < |boxes| && r == boxes[k];
    assert values[k] in Elems(hand);
    ScoreCharacterized(hand, values[k], r);
  }

  /**
   * score: record each value's count in a dictionary, list value * count for
   * each dictionary entry, and return the largest entry of that list. The
   * dictionary is a map together with its keys in first-seen order, one
   * possible order of its items; the maximum does not depend on it.
   */
  method Score(hand: seq<int>) returns (r: int)
    requires |hand| > 0
    ensures forall v | v in hand :: Points(hand, v) <= r
    ensures r == HandScore(hand)
  {
    var counts: map<int, nat> := map[];
    var keys: seq<int> := [];
    for i := 0 to |hand|
      invariant Elems(keys) == counts.Keys == Elems(hand[..i])
      invariant forall v | v in counts :: counts[v] == Count(hand, v)
    {
      assert Elems(hand[..i + 1]) == Elems(hand[..i]) + {hand[i]} by {
        assert hand[..i + 1] == hand[..i] + [hand[i]];
      }
      if hand[i] !in counts {
        assert Elems(keys + [hand[i]]) == Elems(keys) + {hand[i]};
        keys := keys + [hand[i]];
      }
      counts := counts[hand[i] := Count(hand, hand[i])];
    }
    assert hand[..|hand|] == hand;

    var products: seq<int> := [];
    for k := 0 to |keys|
      invariant |products| == k
      invariant forall j | 0 <= j < k :: products[j] == Points(hand, keys[j])
    {
      assert keys[k] in Elems(keys);
      products := products + [keys[k] * counts[keys[k]]];
    }

    assert hand[0] in Elems(keys);
    r := Max(products);
    MaxOfBoxes(hand, keys, products);
    ScoreBound(hand);
  }
}
