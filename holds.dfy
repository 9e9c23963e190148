/** Every choice of dice to hold from a hand (`gen_all_holds`). */
module Holds {
  import opened Combinatorics

  /** Each hold of `list` followed by one more die `num`, in the order of `list`. */
  function AppendToAll(list: seq<seq<int>>, num: int): (r: seq<seq<int>>)
    ensures |r| == |list|
    ensures forall k | 0 <= k < |list| :: r[k] == list[k] + [num]
  {
    if list == [] then []
    else [list[0] + [num]] + AppendToAll(list[1..], num)
  }

  /**
   * The list of holds after the outer loop has visited every die of `hand`:
   * each pass keeps the holds so far and adds a copy of each with the die
   * appended.
   */
  function HoldList(hand: seq<int>): seq<seq<int>>
  {
    if hand == [] then [[]]
    else
      var prev := HoldList(hand[..|hand| - 1]);
      prev + AppendToAll(prev, hand[|hand| - 1])
  }

  /** The holds of `hand`, as the set the source returns. */
  function AllHolds(hand: seq<int>): set<seq<int>>
  {
    Elems(HoldList(hand))
  }

  /** `idx` lists positions of a hand of `n` dice, in strictly increasing order. */
  predicate Increasing(idx: seq<int>, n: int)
  {
    (forall k | 0 <= k < |idx| :: 0 <= idx[k] < n) &&
    (forall j, k | 0 <= j < k < |idx| :: idx[j] < idx[k])
  }

  /** `h` is the dice of `hand` at the increasing positions `idx`. */
  predicate Selects(h: seq<int>, hand: seq<int>, idx: seq<int>)
  {
    |idx| == |h| && Increasing(idx, |hand|) &&
    forall k | 0 <= k < |h| :: h[k] == hand[idx[k]]
  }

  /** `h` keeps some of the dice of `hand`, in the order they appear there. */
  ghost predicate IsSubsequence(h: seq<int>, hand: seq<int>)
  {
    exists idx :: Selects(h, hand, idx)
  }

  /** Each pass doubles the list, so there are 2^|hand| entries (with repeats). */
  lemma {:induction false} HoldListLength(hand: seq<int>)
    ensures |HoldList(hand)| == Pow(2, |hand|)
  {
    if hand != [] {
      HoldListLength(hand[..|hand| - 1]);
    }
  }

  /** Every listed hold selects dice of the hand at increasing positions. */
  lemma {:induction false} HoldSelects(hand: seq<int>, h: seq<int>) returns (idx: seq<int>)
    requires h in HoldList(hand)
    ensures Selects(h, hand, idx)
  {
    if hand == [] {
      idx := [];
    } else {
      var init, last := hand[..|hand| - 1], hand[|hand| - 1];
      var prev := HoldList(init);
      assert hand == init + [last];
      if h in prev {
        idx := HoldSelects(init, h);
        SelectsLonger(h, init, last, idx);
      } else {
        var k :| 0 <= k < |prev| && h == AppendToAll(prev, last)[k];
        var p := prev[k];
        var front := HoldSelects(init, p);
        SelectsBoth(p, init, last, front);
        idx := front + [|init|];
      }
    }
  }

  /** A selection from a hand still selects the same dice once a die is added. */
  lemma SelectsLonger(h: seq<int>, hand: seq<int>, die: int, idx: seq<int>)
    requires Selects(h, hand, idx)
    ensures Selects(h, hand + [die], idx)
  {
    assert forall k | 0 <= k < |h| :: (hand + [die])[idx[k]] == hand[idx[k]];
  }

  /** Keeping an added die extends a selection by its position. */
  lemma SelectsBoth(h: seq<int>, hand: seq<int>, die: int, idx: seq<int>)
    requires Selects(h, hand, idx)
    ensures Selects(h + [die], hand + [die], idx + [|hand|])
  {
    var h', hand', idx' := h + [die], hand + [die], idx + [|hand|];
    assert Increasing(idx', |hand'|) by {
      forall k | 0 <= k < |idx| ensures idx'[k] == idx[k] < |hand| { }
    }
    forall k | 0 <= k < |h'| ensures h'[k] == hand'[idx'[k]] {
      if k < |h| {
        assert h'[k] == h[k] && idx'[k] == idx[k];
      }
    }
  }

  /** A selection that avoids the last die is a selection from the other dice. */
  lemma SelectsShorter(h: seq<int>, hand: seq<int>, die: int, idx: seq<int>)
    requires Selects(h, hand + [die], idx)
    requires idx == [] || idx[|idx| - 1] < |hand|
    ensures Selects(h, hand, idx)
  {
    forall k | 0 <= k < |idx| ensures idx[k] < |hand| {
      if k < |idx| - 1 {
        assert idx[k] < idx[|idx| - 1];
      }
    }
    assert forall k | 0 <= k < |h| :: (hand + [die])[idx[k]] == hand[idx[k]];
  }

  /** A selection that keeps the last die is a selection from the other dice, then that die. */
  lemma SelectsDropLast(h: seq<int>, hand: seq<int>, die: int, idx: seq<int>)
    requires Selects(h, hand + [die], idx)
    requires idx != [] && idx[|idx| - 1] == |hand|
    ensures h == h[..|h| - 1] + [die]
    ensures Selects(h[..|h| - 1], hand, idx[..|idx| - 1])
  {
    var front := idx[..|idx| - 1];
    forall k | 0 <= k < |front| ensures front[k] < |hand| {
      assert idx[k] < idx[|idx| - 1];
    }
    assert forall k | 0 <= k < |front| :: (hand + [die])[front[k]] == hand[front[k]];
  }

  /** Every selection of dice at increasing positions is listed. */
  lemma {:induction false} SelectedIsListed(hand: seq<int>, h: seq<int>, idx: seq<int>)
    requires Selects(h, hand, idx)
    ensures h in HoldList(hand)
  {
    if hand == [] {
      IncreasingLength(idx, 0);
      assert h == [];
    } else {
      var init, last := hand[..|hand| - 1], hand[|hand| - 1];
      assert hand == init + [last];
      var prev := HoldList(init);
      if idx == [] || idx[|idx| - 1] < |init| {
        SelectsShorter(h, init, last, idx);
        SelectedIsListed(init, h, idx);
      } else {
        SelectsDropLast(h, init, last, idx);
        var p := h[..|h| - 1];
        SelectedIsListed(init, p, idx[..|idx| - 1]);
        var k :| 0 <= k < |prev| && prev[k] == p;
        assert AppendToAll(prev, last)[k] == h;
      }
    }
  }

  /** The holds are exactly the order-preserving subsequences of the hand. */
  lemma HoldsAreSubsequences(hand: seq<int>, h: seq<int>)
    ensures h in AllHolds(hand) <==> IsSubsequence(h, hand)
  {
    if h in AllHolds(hand) {
      var idx := HoldSelects(hand, h);
    }
    if IsSubsequence(h, hand) {
      var idx :| Selects(h, hand, idx);
      SelectedIsListed(hand, h, idx);
    }
  }

  /** Holding nothing and holding the whole hand are both choices. */
  lemma NothingAndAllHeld(hand: seq<int>)
    ensures [] in AllHolds(hand) && hand in AllHolds(hand)
  {
    SelectedIsListed(hand, [], []);
    var all := seq(|hand|, k => k);
    SelectedIsListed(hand, hand, all);
  }

  /** A hold keeps no more dice than the hand has. */
  lemma HoldLength(hand: seq<int>, h: seq<int>)
    requires h in AllHolds(hand)
    ensures |h| <= |hand|
  {
    var idx := HoldSelects(hand, h);
    IncreasingLength(idx, |hand|);
  }

  /** Strictly increasing positions below `n` number at most `n`. */
  lemma {:induction false} IncreasingLength(idx: seq<int>, n: int)
    requires n >= 0 && Increasing(idx, n)
    ensures |idx| <= n
  {
    if idx != [] {
      var front, top := idx[..|idx| - 1], idx[|idx| - 1];
      assert 0 <= top < n;
      assert Increasing(front, top) by {
        forall k | 0 <= k < |front| ensures 0 <= front[k] < top {
          assert front[k] == idx[k];
        }
      }
      IncreasingLength(front, top);
    }
  }

  /** Every die of a hold is a die of the hand. */
  lemma HoldItems(hand: seq<int>, h: seq<int>)
    requires h in HoldList(hand)
    ensures forall i | 0 <= i < |h| :: h[i] in hand
  {
    var idx := HoldSelects(hand, h);
  }

  /** For a hand of distinct values no hold is listed twice. */
  lemma {:induction false} HoldListDistinct(hand: seq<int>)
    requires Distinct(hand)
    ensures Distinct(HoldList(hand))
  {
    if hand != [] {
      var init, last := hand[..|hand| - 1], hand[|hand| - 1];
      assert Distinct(init);
      HoldListDistinct(init);
      var prev := HoldList(init);
      var added := AppendToAll(prev, last);
      var list := prev + added;
      forall i, j | 0 <= i < j < |list| ensures list[i] != list[j] {
        if j < |prev| {
          assert list[i] == prev[i] && list[j] == prev[j];
        } else if i >= |prev| {
          assert prev[i - |prev|] != prev[j - |prev|];
          assert list[i] == prev[i - |prev|] + [last];
          assert list[j] == prev[j - |prev|] + [last];
          assert list[i][..|list[i]| - 1] == prev[i - |prev|];
          assert list[j][..|list[j]| - 1] == prev[j - |prev|];
        } else {
          var p := prev[i];
          assert list[i] == p;
          assert list[j] == prev[j - |prev|] + [last];
          HoldItems(init, p);
          assert last !in init by {
            forall m | 0 <= m < |init| ensures init[m] != last {
              assert init[m] == hand[m];
            }
          }
          if |p| == |list[j]| {
            assert p[|p| - 1] in init;
            assert list[j][|p| - 1] == last;
          }
        }
      }
    }
  }

  /** A hand of distinct values has 2^|hand| different holds. */
  lemma HoldCountDistinct(hand: seq<int>)
    requires Distinct(hand)
    ensures |AllHolds(hand)| == Pow(2, |hand|)
  {
    HoldListDistinct(hand);
    DistinctCard(HoldList(hand));
    HoldListLength(hand);
  }

  /** The inner loop's step: one more earlier hold gets the die appended. */
  lemma AppendToAllSnoc(list: seq<seq<int>>, j: nat, num: int)
    requires j < |list|
    ensures AppendToAll(list[..j + 1], num) == AppendToAll(list[..j], num) + [list[j] + [num]]
  {
    var longer, shorter := AppendToAll(list[..j + 1], num), AppendToAll(list[..j], num);
    assert forall k | 0 <= k < j :: longer[k] == list[k] + [num] == shorter[k];
  }

  /** The outer loop's step: a pass over die i doubles the list of the dice before it. */
  lemma HoldListSnoc(hand: seq<int>, i: nat)
    requires i < |hand|
    ensures HoldList(hand[..i + 1]) == HoldList(hand[..i]) + AppendToAll(HoldList(hand[..i]), hand[i])
  {
    assert hand[..i + 1][..i] == hand[..i];
  }

  /**
   * gen_all_holds: for each die of the hand, walk the list of holds as it
   * stood when the pass began and append a copy of each with that die added.
   */
  method GenAllHolds(hand: seq<int>) returns (holds: set<seq<int>>)
    ensures holds == AllHolds(hand)
  {
    var list: seq<seq<int>> := [[]];
    for i := 0 to |hand|
      invariant list == HoldList(hand[..i])
    {
      var num := hand[i];
      var snapshot := list;
      for j := 0 to |snapshot|
        invariant list == snapshot + AppendToAll(snapshot[..j], num)
      {
        AppendToAllSnoc(snapshot, j, num);
        list := list + [snapshot[j] + [num]];
      }
      assert snapshot[..|snapshot|] == snapshot;
      HoldListSnoc(hand, i);
    }
    assert hand[..|hand|] == hand;
    holds := Elems(list);
  }
}
