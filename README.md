# Yahtzee planner, modelled in Dafny

This project models the dice planner in `Yahtzee.py`. The planner covers a simplified Yahtzee: a turn is one discard and one reroll, and only the upper section of the score card counts. It has five parts:

- **gen_all_sequences** enumerates every ordered roll of some number of dice.
- **score** scores a hand as its best upper-section box: the largest v × count(v).
- **expected_value** averages the score over every equally likely roll of the free dice.
- **gen_all_holds** enumerates every choice of dice to keep.
- **strategy** picks the choice with the largest expected value.

Each function of the source loops over collections it mutates locally. Each becomes a Dafny `method` with loop invariants. Every method except `Strategy.Strategy` is proved equal to a pure specification function, and the properties of those functions are proved as lemmas. `Strategy.Strategy` is the exception: when several holds tie, the source's choice depends on set-iteration order, so its contract states the properties of the returned pair (a hold of the hand, its expected value, and no hold worth more) rather than equality with one function.

Modules, one per part of the source:

- `Combinatorics` (combinatorics.dfy): powers, the element set of a list, and distinctness.
- `Sequences` (sequences.dfy): `gen_all_sequences`.
- `Scoring` (scoring.dfy): `score`. The dictionary is a map plus its keys in first-seen order. That is one possible order in which the dictionary yields its items; the maximum does not depend on it (`Scoring.MaxOfBoxes`).
- `Expectation` (expected.dfy): `expected_value`. The source's float `total / count` is exact `real` division of an integer total.
- `Holds` (holds.dfy): `gen_all_holds`. The source's list of tuples is a `seq<seq<int>>`.
- `Strategy` (strategy.dfy): `strategy`.

Dice, hands and holds are `seq<int>`. Python tuples and lists become sequences, and Python sets become `set`s. Sets are walked with `:|`, so every proof holds for whatever order Python iterates in.

Negative counts follow the source. A negative length runs no round, because `range(length)` is empty, so `gen_all_sequences` returns the set holding only the empty tuple. `AllSequences` and `GenAllSequences` take an `int` length and do the same. The same holds for a negative number of free dice in `expected_value`.

## Model

| member | source | states |
|---|---|---|
| Sequences.GenAllSequences | Yahtzee.py:11-26 | the nested loops return exactly `AllSequences(outcomes, length)`: `length` rounds of extension starting from `{[]}`, and no round when the length is 0 or less |
| Sequences.AllSequencesExactly | Yahtzee.py:17-25 | a sequence is enumerated if and only if it has the requested length and every item is an outcome (sound and complete) |
| Sequences.AllSequencesMembers | Yahtzee.py:17-25 | the same characterisation, quantified over every sequence |
| Sequences.ExtendMember | Yahtzee.py:20-24 | one round yields exactly the sequences whose prefix was in the previous set and whose last item is an outcome |
| Sequences.RowMember | Yahtzee.py:21-24 | extending one prefix yields exactly that prefix followed by one outcome |
| Sequences.RowSnoc | Yahtzee.py:21-24 | the inner loop's step: one more outcome adds exactly one more extension of the prefix |
| Sequences.RowCard | Yahtzee.py:21-24 | one prefix yields one new sequence per distinct outcome |
| Sequences.ExtendCard | Yahtzee.py:19-25 | a round turns n prefixes into n × m sequences, where m is the number of distinct outcomes |
| Sequences.AllSequencesCard | Yahtzee.py:17-26 | the result has m^length elements, where m is the number of distinct outcomes |
| Sequences.AllSequencesCardDistinct | Yahtzee.py:17-26 | for outcomes without repeats, the result has \|outcomes\|^length elements |
| Scoring.Count | Yahtzee.py:41 | `list.count`: the number of dice showing v, which is the multiplicity of v in the hand's multiset |
| Scoring.Max | Yahtzee.py:46 | builtin `max`: the result is an item of the list and no item exceeds it |
| Scoring.BestBoxBound | Yahtzee.py:42-46 | no listed value's box exceeds the best box |
| Scoring.BestBoxWitness | Yahtzee.py:42-46 | the best box is the box of one of the listed values |
| Scoring.ScoreBound | Yahtzee.py:38-46 | no value on the hand scores more than the hand's score |
| Scoring.ScoreAttained | Yahtzee.py:38-46 | the hand's score is v × count(v) for some value v on the hand |
| Scoring.ScoreCharacterized | Yahtzee.py:38-46 | a value attained by a die that bounds every die's box is the hand's score, so the score is uniquely determined |
| Scoring.ScorePermutation | Yahtzee.py:40-44 | two hands with the same multiset of dice score the same |
| Scoring.ScoreGrows | Yahtzee.py:62-63 | appending dice with faces of at least 1 never lowers the score of a non-empty hand |
| Scoring.MaxOfBoxes | Yahtzee.py:42-46 | the largest box, listed once per distinct value of the hand, is the hand's score |
| Scoring.Score | Yahtzee.py:29-46 | the dictionary-and-list loops return the hand's score: v × count(v) is at most the result for every v on the hand, and the result equals `HandScore` |
| Expectation.RollsExactly | Yahtzee.py:61 | every roll has max(free, 0) dice, and each face is between 1 and sides |
| Expectation.RollsMakeHands | Yahtzee.py:61-63 | when a die is held or a die is free, no rolled hand is empty |
| Expectation.RollCount | Yahtzee.py:61 | there are sides^free rolls, with sides and free clamped at 0 |
| Expectation.RollsNonEmpty | Yahtzee.py:61-65 | if a free die has at least one face, the divisor `len(...)` is positive |
| Expectation.TotalScoreRemove | Yahtzee.py:62-64 | the total does not depend on the order in which the rolls are visited |
| Expectation.TotalScoreAdd | Yahtzee.py:62-64 | visiting one more roll adds exactly that roll's score to the total |
| Expectation.TotalScoreBounds | Yahtzee.py:62-64 | if every score lies between lo and hi, the total lies between n × lo and n × hi |
| Expectation.LowestRoll | Yahtzee.py:62-64 | some roll gives a hand scoring no more than any other roll |
| Expectation.HighestRoll | Yahtzee.py:62-64 | some roll gives a hand scoring no less than any other roll |
| Expectation.DivisionBounds | Yahtzee.py:65 | a mean of values between lo and hi lies between lo and hi |
| Expectation.MeanBounds | Yahtzee.py:65 | if every rolled hand scores between lo and hi, so does the mean |
| Expectation.MeanBetween | Yahtzee.py:62-65 | the mean lies between the scores of the lowest- and highest-scoring rolls |
| Expectation.ExpectedIsAverage | Yahtzee.py:60-65 | the expected value is the sum of the scores of all rolls divided by sides^free, and that divisor is positive |
| Expectation.ExpectedNoFreeDice | Yahtzee.py:60-65 | with no free die, the expected value is exactly the score of the held dice |
| Expectation.ExpectedBetween | Yahtzee.py:62-65 | the expected value lies between the minimum and the maximum score over the rolled hands |
| Expectation.ExpectedAtLeastHeld | Yahtzee.py:62-65 | with at least one die held, the expected value is at least the score of the held dice |
| Expectation.SumScores | Yahtzee.py:60-64 | the accumulation loop returns the total score over all rolls, taken in any order |
| Expectation.ExpectedValue | Yahtzee.py:49-66 | the method returns the mean score over every roll of the free dice (`Expected`) |
| Holds.AppendToAll | Yahtzee.py:80-81 | one pass's additions: each earlier hold followed by the new die, in order |
| Holds.AppendToAllSnoc | Yahtzee.py:80-81 | the inner loop's step: one more earlier hold is appended, with the die added |
| Holds.HoldListSnoc | Yahtzee.py:78-81 | the outer loop's step: the pass over die i turns the list for the dice before it into that list followed by its copies with die i |
| Holds.HoldListLength | Yahtzee.py:78-81 | each pass walks the list as it was when the pass began and doubles it, so the list has 2^\|hand\| entries |
| Holds.HoldSelects | Yahtzee.py:78-81 | every listed hold is the hand's dice at some strictly increasing positions |
| Holds.SelectsLonger | Yahtzee.py:79-81 | a selection from a hand is still a selection once a die is appended |
| Holds.SelectsBoth | Yahtzee.py:79-81 | keeping the appended die extends the selection by its position |
| Holds.SelectsShorter | Yahtzee.py:79-81 | a selection that avoids the last die selects from the other dice |
| Holds.SelectsDropLast | Yahtzee.py:79-81 | a selection that keeps the last die is a selection from the other dice followed by that die |
| Holds.SelectedIsListed | Yahtzee.py:78-81 | every choice of dice at strictly increasing positions is listed |
| Holds.HoldsAreSubsequences | Yahtzee.py:78-82 | a tuple is a hold if and only if it is an order-preserving subsequence of the hand |
| Holds.NothingAndAllHeld | Yahtzee.py:78-82 | the empty hold and the whole hand are both holds |
| Holds.IncreasingLength | Yahtzee.py:78-81 | strictly increasing positions below n number at most n |
| Holds.HoldLength | Yahtzee.py:78-82 | no hold has more dice than the hand |
| Holds.HoldItems | Yahtzee.py:78-81 | every die of a hold is a die of the hand |
| Holds.HoldListDistinct | Yahtzee.py:78-82 | for a hand of distinct values, no hold is listed twice |
| Holds.HoldCountDistinct | Yahtzee.py:78-82 | a hand of distinct values has exactly 2^\|hand\| holds |
| Holds.GenAllHolds | Yahtzee.py:69-82 | the nested loops return the set of the doubled list `AllHolds(hand)` |
| Strategy.MaxReal | Yahtzee.py:104 | builtin `max` on the expected values: the result is an item of the list and no item exceeds it |
| Strategy.KeepAllValue | Yahtzee.py:98-100 | keeping every die is a hold, and its value is exactly the score of the hand |
| Strategy.ValuedAdd | Yahtzee.py:98-99 | recording the expected value of one more hold keeps every recorded value equal to its hold's expected value |
| Strategy.TabledAdd | Yahtzee.py:98-102 | appending a value to the list and overwriting the dictionary entry for that value keeps the list, the visiting order and the dictionary consistent |
| Strategy.TabledBest | Yahtzee.py:104 | the largest listed value is a dictionary key, the hold stored under it has exactly that value, and no visited hold has a larger one |
| Strategy.Strategy | Yahtzee.py:85-104 | the returned hold is a hold of the hand and its expected value is the returned value. No hold has a larger expected value, and the value is at least the score of the whole hand |

## Left out

- `codeskulptor.set_timeout(20)` (Yahtzee.py:8-9) only raises a platform time limit and has no behaviour to model.
- The commented-out example driver and its printing (Yahtzee.py:107-134) are not code.
- Float rounding is not modelled. The sum of scores is an exact integer and the division is exact `real` division, so the model's expected values are the mathematically exact means.
- Strategy.Strategy does not fix which of several equally valued holds is returned. The source keys a dictionary by the value, so the last hold written in set-iteration order wins. The model walks the set in an unspecified order and promises only that the returned hold attains the maximum.
- Scoring.Score requires a non-empty hand, because the source's `max` of an empty list raises an error.
- Expectation.ExpectedValue requires a held die or a free die, because otherwise the source scores an empty hand. It also requires a die with at least one face when a die is free, because otherwise the source divides by zero.
- Strategy.Strategy requires a non-empty hand and at least one face per die, for the same two reasons.
- Sequences.GenAllSequences states its result as the spec function `AllSequences`. Its characterisation as every sequence of the right length over the outcomes is the separate lemma `Sequences.AllSequencesMembers`.
- Holds.GenAllHolds states its result as the set of the spec function `HoldList`. Its characterisation as the subsequences of the hand is the separate lemma `Holds.HoldsAreSubsequences`, so that callers do not carry the quantifier.
- Expectation.SumScores is the summing loop of `expected_value`, split into its own method. Its only contract is the sum over its set of rolls.
- The Tic-Tac-Toe Monte Carlo advisor in the same repository is not part of this model. It depends on randomness and on a board class whose source is not included.
