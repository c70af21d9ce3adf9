/** The board vocabulary of the rope puzzle and its catalog of starting arrangements.
    Five pegs on the pole hold the loose ends of four ropes; one peg is always empty. */
module Levels {

  /** What a peg holds: nothing (`null` in the game) or the end of one rope. */
  datatype Slot = Empty | Rope(id: int)

  const PegCount: nat := 5
  const RopeCount: nat := 4

  /** The six shipped arrangements, peg 0 (top) to peg 4 (bottom). */
  const Level1: seq<Slot> := [Rope(0), Rope(1), Rope(3), Rope(2), Empty]
  const Level2: seq<Slot> := [Rope(0), Rope(2), Rope(1), Rope(3), Empty]
  const Level3: seq<Slot> := [Rope(0), Rope(2), Rope(3), Rope(1), Empty]
  const Level4: seq<Slot> := [Rope(1), Rope(3), Rope(0), Empty, Rope(2)]
  const Level5: seq<Slot> := [Rope(3), Rope(2), Rope(0), Empty, Rope(1)]
  const Level6: seq<Slot> := [Rope(3), Rope(2), Empty, Rope(1), Rope(0)]
  const LEVELS: seq<seq<Slot>> := [Level1, Level2, Level3, Level4, Level5, Level6]

  /** How many pegs of `s` hold `x`. */
  function Occurrences(s: seq<Slot>, x: Slot): nat
  {
    if s == [] then 0 else (if s[0] == x then 1 else 0) + Occurrences(s[1..], x)
  }

  /** Every peg is empty or holds a rope id 0..3, so a rope-indexed table can be indexed by it. */
  predicate RopeIdsInRange(s: seq<Slot>)
  {
    forall p :: 0 <= p < |s| ==> s[p] == Empty || 0 <= s[p].id < RopeCount
  }

  /** The board invariant: five pegs, every entry empty or a rope id 0..3,
      exactly one empty peg and every rope exactly once. */
  predicate IsArrangement(s: seq<Slot>)
  {
    && |s| == PegCount
    && RopeIdsInRange(s)
    && Occurrences(s, Empty) == 1
    && (forall r :: 0 <= r < RopeCount ==> Occurrences(s, Rope(r)) == 1)
  }

  /** `Array.prototype.indexOf`: the first peg holding `x`, or -1. */
  function IndexOf(s: seq<Slot>, x: Slot): (k: int)
    ensures -1 <= k < |s|
    ensures k == -1 <==> x !in s
    ensures 0 <= k ==> s[k] == x && x !in s[..k]
  {
    if s == [] then -1
    else if s[0] == x then 0
    else
      var k := IndexOf(s[1..], x);
      assert s[1..][..k + 1] == s[1..k + 2] by { }
      if k == -1 then -1 else k + 1
  }

  lemma {:induction false} OccurrencesPositive(s: seq<Slot>, x: Slot)
    ensures Occurrences(s, x) > 0 <==> x in s
  {
    if s != [] {
      OccurrencesPositive(s[1..], x);
      assert s == [s[0]] + s[1..];
    }
  }

  /** Writing `x` at peg `i` removes one occurrence of the old entry and adds one of `x`. */
  lemma {:induction false} OccurrencesUpdate(s: seq<Slot>, i: nat, x: Slot, y: Slot)
    requires i < |s|
    ensures Occurrences(s[i := x], y)
         == Occurrences(s, y) - (if s[i] == y then 1 else 0) + (if x == y then 1 else 0)
  {
    if i == 0 {
      assert s[i := x][1..] == s[1..];
    } else {
      OccurrencesUpdate(s[1..], i - 1, x, y);
      assert s[i := x][1..] == s[1..][i - 1 := x];
    }
  }

  /** An entry that occurs once sits at exactly one peg. */
  lemma {:induction false} OccurrencesOnce(s: seq<Slot>, x: Slot, i: nat, j: nat)
    requires Occurrences(s, x) == 1
    requires i < |s| && j < |s| && s[i] == x && s[j] == x
    ensures i == j
  {
    OccurrencesPositive(s[1..], x);
    if s[0] == x {
      assert forall k :: 1 <= k < |s| ==> s[k] == s[1..][k - 1];
    } else {
      OccurrencesOnce(s[1..], x, i - 1, j - 1);
    }
  }

  /** In an arrangement the empty peg and each rope's peg are unique, and they are
      found by `IndexOf`. */
  lemma ArrangementPegs(s: seq<Slot>)
    requires IsArrangement(s)
    ensures 0 <= IndexOf(s, Empty) < PegCount && s[IndexOf(s, Empty)] == Empty
    ensures forall p :: 0 <= p < |s| && s[p] == Empty ==> p == IndexOf(s, Empty)
    ensures forall r :: 0 <= r < RopeCount ==> 0 <= IndexOf(s, Rope(r)) < PegCount
    ensures forall r, p :: 0 <= r < RopeCount && 0 <= p < |s| && s[p] == Rope(r) ==> p == IndexOf(s, Rope(r))
  {
    OccurrencesPositive(s, Empty);
    forall p | 0 <= p < |s| && s[p] == Empty
      ensures p == IndexOf(s, Empty)
    {
      OccurrencesOnce(s, Empty, p, IndexOf(s, Empty));
    }
    forall r | 0 <= r < RopeCount
      ensures 0 <= IndexOf(s, Rope(r)) < PegCount
    {
      OccurrencesPositive(s, Rope(r));
    }
    forall r, p | 0 <= r < RopeCount && 0 <= p < |s| && s[p] == Rope(r)
      ensures p == IndexOf(s, Rope(r))
    {
      OccurrencesOnce(s, Rope(r), p, IndexOf(s, Rope(r)));
    }
  }

  /** Moving the rope at peg `from` onto the empty peg `to` keeps the board invariant. */
  lemma MovePreservesArrangement(s: seq<Slot>, from: nat, to: nat)
    requires IsArrangement(s)
    requires from < |s| && to < |s| && s[from].Rope? && s[to] == Empty
    ensures IsArrangement(s[to := s[from]][from := Empty])
  {
    var t := s[to := s[from]];
    var u := t[from := Empty];
    assert from != to;
    forall y: Slot
      ensures Occurrences(u, y) == Occurrences(s, y)
    {
      OccurrencesUpdate(s, to, s[from], y);
      OccurrencesUpdate(t, from, Empty, y);
    }
    assert forall r :: 0 <= r < RopeCount ==> Occurrences(u, Rope(r)) == Occurrences(s, Rope(r));
  }

  /** Every shipped level satisfies the board invariant. */
  lemma LevelsAreArrangements()
    ensures |LEVELS| == 6
    ensures forall k :: 0 <= k < |LEVELS| ==> IsArrangement(LEVELS[k])
  {
    forall k | 0 <= k < |LEVELS|
      ensures IsArrangement(LEVELS[k])
    {
      LevelIsArrangement(k);
    }
  }

  /** The board invariant, checked rope by rope. */
  lemma ArrangementFromCounts(s: seq<Slot>)
    requires |s| == PegCount
    requires RopeIdsInRange(s)
    requires Occurrences(s, Empty) == 1
    requires Occurrences(s, Rope(0)) == 1 && Occurrences(s, Rope(1)) == 1
    requires Occurrences(s, Rope(2)) == 1 && Occurrences(s, Rope(3)) == 1
    ensures IsArrangement(s)
  {
  }

  lemma Level1IsArrangement()
    ensures IsArrangement(Level1)
  {
    ArrangementFromCounts(Level1);
  }

  lemma Level2IsArrangement()
    ensures IsArrangement(Level2)
  {
    ArrangementFromCounts(Level2);
  }

  lemma Level3IsArrangement()
    ensures IsArrangement(Level3)
  {
    ArrangementFromCounts(Level3);
  }

  lemma Level4IsArrangement()
    ensures IsArrangement(Level4)
  {
    ArrangementFromCounts(Level4);
  }

  lemma Level5IsArrangement()
    ensures IsArrangement(Level5)
  {
    ArrangementFromCounts(Level5);
  }

  lemma Level6IsArrangement()
    ensures IsArrangement(Level6)
  {
    ArrangementFromCounts(Level6);
  }

  lemma LevelIsArrangement(k: nat)
    requires k < |LEVELS|
    ensures IsArrangement(LEVELS[k])
  {
    if k == 0 {
      Level1IsArrangement();
    } else if k == 1 {
      Level2IsArrangement();
    } else if k == 2 {
      Level3IsArrangement();
    } else if k == 3 {
      Level4IsArrangement();
    } else if k == 4 {
      Level5IsArrangement();
    } else {
      Level6IsArrangement();
    }
  }
}
