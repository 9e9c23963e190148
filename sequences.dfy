/** Enumeration of every ordered sequence of dice outcomes (`gen_all_sequences`). */
module Sequences {
  import opened Combinatorics

  /** Every item of `s` is one of `outcomes`. */
  predicate DrawnFrom<T(==)>(s: seq<T>, outcomes: seq<T>)
  {
    forall i | 0 <= i < |s| :: s[i] in outcomes
  }

  /** The one-position extensions of `prefix` by each outcome. */
  function Row<T(==)>(prefix: seq<T>, outcomes: seq<T>): set<seq<T>>
  {
    set x | x in outcomes :: prefix + [x]
  }

  /** Every prefix of `prefixes` extended by every outcome: one round of the outer loop. */
  function Extend<T(==)>(prefixes: set<seq<T>>, outcomes: seq<T>): set<seq<T>>
  {
    set p, x | p in prefixes && x in outcomes :: p + [x]
  }

  /**
   * The sequences after `length` rounds of extension, starting from the set
   * holding only the empty sequence. A length of zero or less runs no round.
   */
  function AllSequences<T(==)>(outcomes: seq<T>, length: int): set<seq<T>>
    decreases length
  {
    if length <= 0 then {[]} else Extend(AllSequences(outcomes, length - 1), outcomes)
  }

  /** A sequence is in a round's result iff its last item is an outcome and the rest a prefix. */
  lemma ExtendMember<T>(prefixes: set<seq<T>>, outcomes: seq<T>, s: seq<T>)
    ensures s in Extend(prefixes, outcomes) <==>
            |s| > 0 && s[..|s| - 1] in prefixes && s[|s| - 1] in outcomes
  {
    if s in Extend(prefixes, outcomes) {
      var p, x :| p in prefixes && x in outcomes && s == p + [x];
      assert s[..|s| - 1] == p;
    }
    if |s| > 0 && s[..|s| - 1] in prefixes && s[|s| - 1] in outcomes {
      assert s == s[..|s| - 1] + [s[|s| - 1]];
    }
  }

  /** The enumeration holds exactly the sequences of the right length over the outcomes. */
  lemma {:induction false} AllSequencesExactly<T>(outcomes: seq<T>, length: int, s: seq<T>)
    ensures s in AllSequences(outcomes, length) <==>
            |s| == (if length <= 0 then 0 else length) && DrawnFrom(s, outcomes)
    decreases length
  {
    if length > 0 {
      ExtendMember(AllSequences(outcomes, length - 1), outcomes, s);
      if |s| > 0 {
        var init := s[..|s| - 1];
        AllSequencesExactly(outcomes, length - 1, init);
        assert DrawnFrom(s, outcomes) <==> DrawnFrom(init, outcomes) && s[|s| - 1] in outcomes by {
          assert forall i | 0 <= i < |init| :: init[i] == s[i];
        }
      }
    }
  }

  /** The quantified form of AllSequencesExactly. */
  lemma AllSequencesMembers<T>(outcomes: seq<T>, length: int)
    ensures forall s :: s in AllSequences(outcomes, length) <==>
                        |s| == (if length <= 0 then 0 else length) && DrawnFrom(s, outcomes)
  {
    forall s ensures s in AllSequences(outcomes, length) <==>
                     |s| == (if length <= 0 then 0 else length) && DrawnFrom(s, outcomes)
    {
      AllSequencesExactly(outcomes, length, s);
    }
  }

  /** A sequence is in a row iff it is the prefix followed by one outcome. */
  lemma RowMember<T>(prefix: seq<T>, outcomes: seq<T>, s: seq<T>)
    ensures s in Row(prefix, outcomes) <==>
            |s| == |prefix| + 1 && s[..|prefix|] == prefix && s[|prefix|] in outcomes
  {
    if |s| == |prefix| + 1 && s[..|prefix|] == prefix && s[|prefix|] in outcomes {
      assert s == prefix + [s[|prefix|]];
    }
  }

  /** One prefix yields one new sequence per distinct outcome. */
  lemma {:induction false} RowCard<T>(prefix: seq<T>, outcomes: seq<T>)
    ensures |Row(prefix, outcomes)| == |Elems(outcomes)|
  {
    if outcomes != [] {
      var init, last := outcomes[..|outcomes| - 1], outcomes[|outcomes| - 1];
      assert outcomes == init + [last];
      RowCard(prefix, init);
      assert Elems(outcomes) == Elems(init) + {last};
      assert Row(prefix, outcomes) == Row(prefix, init) + {prefix + [last]};
      if last in init {
        assert Elems(outcomes) == Elems(init);
        assert Row(prefix, outcomes) == Row(prefix, init);
      } else {
        assert last !in Elems(init);
        RowMember(prefix, init, prefix + [last]);
        assert (prefix + [last])[|prefix|] == last;
      }
    }
  }

  /** The inner loop's step: one more outcome adds one more extension of the prefix. */
  lemma RowSnoc<T>(prefix: seq<T>, outcomes: seq<T>, k: nat)
    requires k < |outcomes|
    ensures Row(prefix, outcomes[..k + 1]) == Row(prefix, outcomes[..k]) + {prefix + [outcomes[k]]}
  {
    assert outcomes[..k + 1] == outcomes[..k] + [outcomes[k]];
  }

  /** Adding one prefix to a round adds that prefix's row. */
  lemma ExtendAdd<T>(prefixes: set<seq<T>>, p: seq<T>, outcomes: seq<T>)
    ensures Extend(prefixes + {p}, outcomes) == Extend(prefixes, outcomes) + Row(p, outcomes)
  {
  }

  /** Distinct prefixes never share an extension, so a round multiplies the count. */
  lemma {:induction false} ExtendCard<T>(prefixes: set<seq<T>>, outcomes: seq<T>)
    ensures |Extend(prefixes, outcomes)| == |prefixes| * |Elems(outcomes)|
    decreases prefixes
  {
    if prefixes != {} {
      var q :| q in prefixes;
      var rest := prefixes - {q};
      var earlier, row := Extend(rest, outcomes), Row(q, outcomes);
      var m := |Elems(outcomes)|;
      ExtendCard(rest, outcomes);
      RowCard(q, outcomes);
      ExtendAdd(rest, q, outcomes);
      assert rest + {q} == prefixes;
      assert earlier * row == {} by {
        forall e | e in earlier ensures e !in row {
          ExtendMember(rest, outcomes, e);
          RowMember(q, outcomes, e);
        }
      }
      calc {
        |Extend(prefixes, outcomes)|;
        |earlier + row|;
        |earlier| + |row|;
        |rest| * m + m;
        { assert |prefixes| == |rest| + 1; }
        |prefixes| * m;
      }
    }
  }

  /** There are m^length sequences, m being the number of distinct outcomes. */
  lemma {:induction false} AllSequencesCard<T>(outcomes: seq<T>, length: nat)
    ensures |AllSequences(outcomes, length)| == Pow(|Elems(outcomes)|, length)
  {
    if length > 0 {
      AllSequencesCard(outcomes, length - 1);
      ExtendCard(AllSequences(outcomes, length - 1), outcomes);
    }
  }

  /** For outcomes without repetition the count is |outcomes|^length. */
  lemma AllSequencesCardDistinct<T>(outcomes: seq<T>, length: nat)
    requires Distinct(outcomes)
    ensures |AllSequences(outcomes, length)| == Pow(|outcomes|, length)
  {
    AllSequencesCard(outcomes, length);
    DistinctCard(outcomes);
  }

  /**
   * gen_all_sequences: each of `length` rounds builds a fresh set by
   * appending every outcome, in order, to every sequence of the previous round.
   */
  method GenAllSequences<T(==)>(outcomes: seq<T>, length: int) returns (answer: set<seq<T>>)
    ensures answer == AllSequences(outcomes, length)
  {
    answer := {[]};
    var round := 0;
    while round < length
      invariant round <= (if length <= 0 then 0 else length)
      invariant answer == AllSequences(outcomes, round)
    {
      var temp: set<seq<T>> := {};
      var pending := answer;
      while pending != {}
        invariant pending <= answer
        invariant temp == Extend(answer - pending, outcomes)
        decreases pending
      {
        var partial :| partial in pending;
        var k := 0;
        while k < |outcomes|
          invariant 0 <= k <= |outcomes|
          invariant temp == Extend(answer - pending, outcomes) + Row(partial, outcomes[..k])
        {
          RowSnoc(partial, outcomes, k);
          temp := temp + {partial + [outcomes[k]]};
          k := k + 1;
        }
        assert outcomes[..|outcomes|] == outcomes;
        ExtendAdd(answer - pending, partial, outcomes);
        assert (answer - pending) + {partial} == answer - (pending - {partial});
        pending := pending - {partial};
      }
      assert answer - pending == answer;
      answer := temp;
      round := round + 1;
    }
  }
}
