/** The hold that maximises the expected score (`strategy`). */
module Strategy {
  import opened Combinatorics
  import opened Scoring
  import opened Expectation
  import opened Holds

  /**
   * The largest item of a non-empty list of expected values (Python's builtin
   * `max`). It is `Scoring.Max` over `real` instead of `int`; it is defined
   * again only because the element type differs.
   */
  function MaxReal(s: seq<real>): (m: real)
    requires |s| > 0
    ensures exists i | 0 <= i < |s| :: m == s[i]
    ensures forall i | 0 <= i < |s| :: s[i] <= m
  {
    if |s| == 1 then s[0]
    else
      var rest := MaxReal(s[..|s| - 1]);
      if s[|s| - 1] > rest then s[|s| - 1] else rest
  }

  /**
   * The expected score of keeping `hold` from `hand` and rerolling the
   * other |hand| - |hold| dice.
   */
  ghost function HoldValue(hand: seq<int>, sides: int, hold: seq<int>): real
    requires |hand| > 0 && sides >= 1
  {
    Expected(hold, sides, |hand| - |hold|)
  }

  /** Keeping every die is worth exactly the score of the hand. */
  lemma KeepAllValue(hand: seq<int>, sides: int)
    requires |hand| > 0 && sides >= 1
    ensures hand in AllHolds(hand)
    ensures HoldValue(hand, sides, hand) == HandScore(hand) as real
  {
    NothingAndAllHeld(hand);
    ExpectedNoFreeDice(hand, sides, 0);
  }

  /** `worth` maps each hold it lists to that hold's expected value. */
  ghost predicate Valued(hand: seq<int>, sides: int, worth: map<seq<int>, real>)
  {
    |hand| > 0 && sides >= 1 &&
    forall h {:trigger HoldValue(hand, sides, h)} | h in worth ::
      h in AllHolds(hand) && worth[h] == HoldValue(hand, sides, h)
  }

  /** Recording the value of one more hold keeps the map valued. */
  lemma ValuedAdd(hand: seq<int>, sides: int, worth: map<seq<int>, real>, h: seq<int>, v: real)
    requires Valued(hand, sides, worth)
    requires h in AllHolds(hand) && v == HoldValue(hand, sides, h)
    ensures Valued(hand, sides, worth[h := v])
  {
    var worth' := worth[h := v];
    forall x | x in worth' ensures x in AllHolds(hand) && worth'[x] == HoldValue(hand, sides, x) {
      if x != h {
        assert worth[x] == HoldValue(hand, sides, x);
      }
    }
  }

  /**
   * The loop's list of values, the holds in the order visited and the
   * dictionary from value to hold all agree with `worth`.
   */
  ghost predicate Tabled(worth: map<seq<int>, real>, order: seq<seq<int>>, values: seq<real>,
                         byValue: map<real, seq<int>>)
  {
    |order| == |values| && Elems(order) == worth.Keys &&
    (forall j | 0 <= j < |order| :: order[j] in worth && values[j] == worth[order[j]]) &&
    (forall v | v in byValue :: byValue[v] in worth && worth[byValue[v]] == v) &&
    (forall j | 0 <= j < |values| :: values[j] in byValue)
  }

  /** Visiting a new hold appends its value and overwrites the dictionary entry for that value. */
  lemma TabledAdd(worth: map<seq<int>, real>, order: seq<seq<int>>, values: seq<real>,
                  byValue: map<real, seq<int>>, h: seq<int>, v: real)
    requires Tabled(worth, order, values, byValue) && h !in worth
    ensures Tabled(worth[h := v], order + [h], values + [v], byValue[v := h])
  {
    ElemsSnoc(order, h);
    var order', values' := order + [h], values + [v];
    assert forall j | 0 <= j < |order| :: order'[j] == order[j] && values'[j] == values[j];
  }

  /**
   * The largest listed value is in the dictionary, the hold it names has
   * exactly that value, and no listed hold has a larger one.
   */
  lemma TabledBest(worth: map<seq<int>, real>, order: seq<seq<int>>, values: seq<real>,
                   byValue: map<real, seq<int>>)
    requires Tabled(worth, order, values, byValue) && |values| > 0
    ensures MaxReal(values) in byValue
    ensures byValue[MaxReal(values)] in worth && worth[byValue[MaxReal(values)]] == MaxReal(values)
    ensures forall h | h in worth :: worth[h] <= MaxReal(values)
  {
    var m := MaxReal(values);
    forall h | h in worth ensures worth[h] <= m {
      assert h in Elems(order);
      var j :| 0 <= j < |order| && order[j] == h;
      assert values[j] <= m;
    }
  }

  /**
   * strategy: compute the expected value of every hold, keep the values in
   * a list and the last hold seen for each value in a dictionary, and return
   * the largest value with the hold recorded for it. Which of several holds
   * with the same value comes back depends on the order the set is walked.
   */
  method Strategy(hand: seq<int>, sides: int) returns (value: real, hold: seq<int>)
    requires |hand| > 0 && sides >= 1
    ensures hold in AllHolds(hand)
    ensures value == HoldValue(hand, sides, hold)
    ensures forall h | h in AllHolds(hand) :: HoldValue(hand, sides, h) <= value
    ensures HandScore(hand) as real <= value
  {
    var byValue: map<real, seq<int>> := map[];
    var values: seq<real> := [];
    var holds := GenAllHolds(hand);
    var pending := holds;
    ghost var order: seq<seq<int>> := [];
    ghost var worth: map<seq<int>, real> := map[];
    while pending != {}
      invariant pending <= holds
      invariant worth.Keys == holds - pending
      invariant Valued(hand, sides, worth)
      invariant Tabled(worth, order, values, byValue)
      decreases pending
    {
      var h :| h in pending;
      var v := ExpectedValue(h, sides, |hand| - |h|);
      ValuedAdd(hand, sides, worth, h, v);
      TabledAdd(worth, order, values, byValue, h, v);
      values := values + [v];
      byValue := byValue[v := h];
      order := order + [h];
      worth := worth[h := v];
      pending := pending - {h};
    }
    NothingAndAllHeld(hand);
    assert hand in Elems(order);
    TabledBest(worth, order, values, byValue);
    value := MaxReal(values);
    hold := byValue[value];
    KeepAllValue(hand, sides);
  }
}
