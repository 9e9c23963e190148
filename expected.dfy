/** The expected score of a hold when the free dice are rolled (`expected_value`). */
module Expectation {
  import opened Combinatorics
  import opened Sequences
  import opened Scoring

  /** The faces of a die with `sides` sides, 1..sides (Python's `range(1, sides + 1)`). */
  function Faces(sides: int): seq<int>
  {
    seq(if sides > 0 then sides else 0, i => i + 1)
  }

  /** Every equally likely roll of `free` dice. */
  function Rolls(sides: int, free: int): set<seq<int>>
  {
    AllSequences(Faces(sides), free)
  }

  /** Each roll lists `free` dice (none when `free <= 0`), each showing a face 1..sides. */
  lemma RollsExactly(sides: int, free: int)
    ensures forall roll | roll in Rolls(sides, free) ::
              |roll| == (if free <= 0 then 0 else free) &&
              forall i | 0 <= i < |roll| :: 1 <= roll[i] <= sides
  {
    AllSequencesMembers(Faces(sides), free);
  }

  /** No roll leaves the hand empty: some die is held, or no roll is empty. */
  ghost predicate NonEmptyHands(held: seq<int>, rolls: set<seq<int>>)
  {
    |held| > 0 || [] !in rolls
  }

  /** Every roll, after the held dice, makes a non-empty hand. */
  lemma RollsMakeHands(held: seq<int>, sides: int, free: int)
    requires |held| > 0 || free > 0
    ensures NonEmptyHands(held, Rolls(sides, free))
  {
    RollsExactly(sides, free);
  }

  /** There are sides^free rolls. */
  lemma RollCount(sides: int, free: int)
    ensures |Rolls(sides, free)| == Pow(if sides > 0 then sides else 0, if free > 0 then free else 0)
  {
    var faces := Faces(sides);
    assert Distinct(faces);
    if free > 0 {
      AllSequencesCardDistinct(faces, free);
    } else {
      assert Rolls(sides, free) == {[]};
    }
  }

  lemma {:induction false} PowPositive(b: nat, e: nat)
    requires b > 0
    ensures Pow(b, e) > 0
  {
    if e > 0 {
      PowPositive(b, e - 1);
    }
  }

  /** Whenever some die is free, a die with at least one face gives at least one roll. */
  lemma RollsNonEmpty(sides: int, free: int)
    requires free > 0 ==> sides >= 1
    ensures |Rolls(sides, free)| > 0
  {
    RollCount(sides, free);
    if free > 0 {
      PowPositive(sides, free);
    }
  }

  /** The sum of the scores of `held` followed by each roll. */
  ghost function TotalScore(held: seq<int>, rolls: set<seq<int>>): int
    requires NonEmptyHands(held, rolls)
    decreases rolls
  {
    if rolls == {} then 0
    else
      var roll :| roll in rolls;
      HandScore(held + roll) + TotalScore(held, rolls - {roll})
  }

  /** The total does not depend on which roll is taken first. */
  lemma {:induction false} TotalScoreRemove(held: seq<int>, rolls: set<seq<int>>, roll: seq<int>)
    requires NonEmptyHands(held, rolls)
    requires roll in rolls
    ensures TotalScore(held, rolls) == HandScore(held + roll) + TotalScore(held, rolls - {roll})
    decreases rolls
  {
    var first :| first in rolls &&
      TotalScore(held, rolls) == HandScore(held + first) + TotalScore(held, rolls - {first});
    if first != roll {
      TotalScoreRemove(held, rolls - {first}, roll);
      TotalScoreRemove(held, rolls - {roll}, first);
      assert rolls - {first} - {roll} == rolls - {roll} - {first};
    }
  }

  /** Adding a new roll adds that roll's score to the total. */
  lemma TotalScoreAdd(held: seq<int>, rolls: set<seq<int>>, roll: seq<int>)
    requires NonEmptyHands(held, rolls)
    requires NonEmptyHands(held, {roll}) && roll !in rolls
    ensures TotalScore(held, rolls + {roll}) == TotalScore(held, rolls) + HandScore(held + roll)
  {
    TotalScoreRemove(held, rolls + {roll}, roll);
    assert rolls + {roll} - {roll} == rolls;
  }

  /** Scores between `lo` and `hi` sum to between |rolls| * lo and |rolls| * hi. */
  lemma {:induction false} TotalScoreBounds(held: seq<int>, rolls: set<seq<int>>, lo: int, hi: int)
    requires NonEmptyHands(held, rolls)
    requires forall r | r in rolls :: lo <= HandScore(held + r) <= hi
    ensures |rolls| * lo <= TotalScore(held, rolls) <= |rolls| * hi
    decreases rolls
  {
    if rolls != {} {
      var roll :| roll in rolls;
      var rest := rolls - {roll};
      TotalScoreRemove(held, rolls, roll);
      TotalScoreBounds(held, rest, lo, hi);
      BoundsStep(|rest|, |rolls|, lo, hi, TotalScore(held, rest), HandScore(held + roll));
    }
  }

  /**
   * Adding one score between `lo` and `hi` to such a total keeps the bounds.
   * Kept apart from `TotalScoreBounds` so that the products are proved
   * without the set facts in scope.
   */
  lemma BoundsStep(n: nat, m: nat, lo: int, hi: int, total: int, score: int)
    requires m == n + 1
    requires n * lo <= total <= n * hi
    requires lo <= score <= hi
    ensures m * lo <= total + score <= m * hi
  {
  }

  /** A roll whose hand scores least. */
  lemma {:induction false} LowestRoll(held: seq<int>, rolls: set<seq<int>>) returns (low: seq<int>)
    requires rolls != {}
    requires NonEmptyHands(held, rolls)
    ensures low in rolls && forall r | r in rolls :: HandScore(held + low) <= HandScore(held + r)
    decreases rolls
  {
    var r :| r in rolls;
    if rolls == {r} {
      low := r;
    } else {
      var other := LowestRoll(held, rolls - {r});
      low := if HandScore(held + r) <= HandScore(held + other) then r else other;
    }
  }

  /** A roll whose hand scores most. */
  lemma {:induction false} HighestRoll(held: seq<int>, rolls: set<seq<int>>) returns (high: seq<int>)
    requires rolls != {}
    requires NonEmptyHands(held, rolls)
    ensures high in rolls && forall r | r in rolls :: HandScore(held + r) <= HandScore(held + high)
    decreases rolls
  {
    var r :| r in rolls;
    if rolls == {r} {
      high := r;
    } else {
      var other := HighestRoll(held, rolls - {r});
      high := if HandScore(held + r) >= HandScore(held + other) then r else other;
    }
  }

  /** The mean score of `held` followed by each of a non-empty set of rolls. */
  ghost function Mean(held: seq<int>, rolls: set<seq<int>>): real
    requires NonEmptyHands(held, rolls) && rolls != {}
  {
    TotalScore(held, rolls) as real / |rolls| as real
  }

  /** The mean of `n` integers summing to `total`, each between `lo` and `hi`, is between them too. */
  lemma DivisionBounds(total: int, n: int, lo: int, hi: int)
    requires n > 0 && n * lo <= total <= n * hi
    ensures lo as real <= total as real / n as real <= hi as real
  {
    assert (n as real) * (lo as real) <= total as real;
    assert total as real <= (n as real) * (hi as real);
  }

  /** If every roll scores between `lo` and `hi`, so does the mean. */
  lemma MeanBounds(held: seq<int>, rolls: set<seq<int>>, lo: int, hi: int)
    requires NonEmptyHands(held, rolls) && rolls != {}
    requires forall r | r in rolls :: lo <= HandScore(held + r) <= hi
    ensures lo as real <= Mean(held, rolls) <= hi as real
  {
    TotalScoreBounds(held, rolls, lo, hi);
    DivisionBounds(TotalScore(held, rolls), |rolls|, lo, hi);
  }

  /** The mean lies between the lowest and the highest score of a rolled hand. */
  lemma MeanBetween(held: seq<int>, rolls: set<seq<int>>) returns (low: seq<int>, high: seq<int>)
    requires NonEmptyHands(held, rolls) && rolls != {}
    ensures low in rolls && high in rolls
    ensures HandScore(held + low) as real <= Mean(held, rolls) <= HandScore(held + high) as real
  {
    low := LowestRoll(held, rolls);
    high := HighestRoll(held, rolls);
    MeanBounds(held, rolls, HandScore(held + low), HandScore(held + high));
  }

  /**
   * The expected score of holding `held` and rolling `free` dice with
   * `sides` sides: the mean score over every roll. The source divides by zero
   * when a die is free but has no face, and scores an empty hand when nothing
   * is held and no die is free.
   */
  ghost function Expected(held: seq<int>, sides: int, free: int): real
    requires |held| > 0 || free > 0
    requires free > 0 ==> sides >= 1
  {
    RollsMakeHands(held, sides, free);
    RollsNonEmpty(sides, free);
    Mean(held, Rolls(sides, free))
  }

  /** The expected value is the total score divided by sides^free. */
  lemma ExpectedIsAverage(held: seq<int>, sides: int, free: nat)
    requires |held| > 0 || free > 0
    requires sides >= 1
    ensures Pow(sides, free) > 0
    ensures Expected(held, sides, free) ==
            TotalScore(held, Rolls(sides, free)) as real / Pow(sides, free) as real
  {
    RollCount(sides, free);
    PowPositive(sides, free);
  }

  /** With no die free, the expected value is the score of the held dice. */
  lemma ExpectedNoFreeDice(held: seq<int>, sides: int, free: int)
    requires |held| > 0 && free <= 0
    ensures Expected(held, sides, free) == HandScore(held) as real
  {
    var rolls := Rolls(sides, free);
    assert rolls == {[]};
    TotalScoreRemove(held, rolls, []);
    assert rolls - {[]} == {};
    assert TotalScore(held, rolls - {[]}) == 0;
    assert held + [] == held;
    assert TotalScore(held, rolls) == HandScore(held);
    assert |rolls| == 1;
  }

  /** The expected value lies between the lowest and the highest score of a rolled hand. */
  lemma ExpectedBetween(held: seq<int>, sides: int, free: int)
    requires |held| > 0 || free > 0
    requires free > 0 ==> sides >= 1
    ensures exists low, high | low in Rolls(sides, free) && high in Rolls(sides, free) ::
              HandScore(held + low) as real <= Expected(held, sides, free) <= HandScore(held + high) as real
  {
    var rolls := Rolls(sides, free);
    RollsMakeHands(held, sides, free);
    RollsNonEmpty(sides, free);
    var low, high := MeanBetween(held, rolls);
    assert HandScore(held + low) as real <= Expected(held, sides, free) <= HandScore(held + high) as real;
  }

  /** Rolling more dice never lowers the expectation below the score of what is held. */
  lemma ExpectedAtLeastHeld(held: seq<int>, sides: int, free: int)
    requires |held| > 0
    requires free > 0 ==> sides >= 1
    ensures HandScore(held) as real <= Expected(held, sides, free)
  {
    var rolls := Rolls(sides, free);
    RollsExactly(sides, free);
    RollsNonEmpty(sides, free);
    var high := HighestRoll(held, rolls);
    forall r | r in rolls ensures HandScore(held) <= HandScore(held + r) {
      ScoreGrows(held, r);
    }
    MeanBounds(held, rolls, HandScore(held), HandScore(held + high));
  }

  /**
   * The summing loop of expected_value: add up the score of the held dice
   * followed by each roll, one roll at a time in whatever order the set yields.
   */
  method SumScores(held: seq<int>, rolls: set<seq<int>>) returns (total: int)
    requires NonEmptyHands(held, rolls)
    ensures total == TotalScore(held, rolls)
  {
    total := 0;
    var pending := rolls;
    ghost var done: set<seq<int>> := {};
    while pending != {}
      invariant done == rolls - pending && pending <= rolls
      invariant total == TotalScore(held, done)
      decreases pending
    {
      var roll :| roll in pending;
      var s := Score(held + roll);
      TotalScoreAdd(held, done, roll);
      total := total + s;
      pending := pending - {roll};
      done := done + {roll};
    }
    assert done == rolls;
  }

  /**
   * expected_value: enumerate every roll of the free dice, add up the score
   * of the held dice followed by each roll, and divide by the number of rolls.
   */
  method ExpectedValue(held: seq<int>, sides: int, free: int) returns (e: real)
    requires |held| > 0 || free > 0
    requires free > 0 ==> sides >= 1
    ensures e == Expected(held, sides, free)
  {
    var rolls := GenAllSequences(Faces(sides), free);
    RollsMakeHands(held, sides, free);
    var total := SumScores(held, rolls);
    RollsNonEmpty(sides, free);
    e := total as real / |rolls| as real;
  }
}
