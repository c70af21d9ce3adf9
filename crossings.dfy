/** The win metric: invert the board into a rope-to-peg map and count the rope pairs
    whose pegs are in the opposite order to their ids. */
module Crossings {
  import opened Levels

  /** The rope-to-peg map after scanning pegs 0..n-1: it starts as four -1 entries and each
      occupied peg writes its own index into its rope's entry, later pegs overwriting earlier. */
  function RopeToPegPrefix(s: seq<Slot>, n: nat): (m: seq<int>)
    requires n <= |s| && RopeIdsInRange(s)
    ensures |m| == RopeCount
    ensures forall r :: 0 <= r < RopeCount ==> -1 <= m[r] < n
  {
    if n == 0 then seq(RopeCount, _ => -1)
    else
      var m := RopeToPegPrefix(s, n - 1);
      if s[n - 1].Rope? then m[s[n - 1].id := n - 1] else m
  }

  /** `getRopeToSlotMap`: the map after scanning every peg; each entry is -1 or a peg. */
  function RopeToPeg(s: seq<Slot>): (m: seq<int>)
    requires RopeIdsInRange(s)
    ensures |m| == RopeCount
    ensures forall r :: 0 <= r < RopeCount ==> -1 <= m[r] < |s|
  {
    RopeToPegPrefix(s, |s|)
  }

  /** After the first n pegs a rope's entry is -1 exactly when no scanned peg holds it,
      and otherwise it is the last scanned peg that holds it. */
  lemma {:induction false} RopeToPegPrefixEntry(s: seq<Slot>, n: nat, r: int)
    requires n <= |s| && RopeIdsInRange(s) && 0 <= r < RopeCount
    ensures var m := RopeToPegPrefix(s, n);
      && (m[r] == -1 <==> Rope(r) !in s[..n])
      && (m[r] != -1 ==> 0 <= m[r] < n && s[m[r]] == Rope(r) && Rope(r) !in s[m[r] + 1..n])
  {
    if n > 0 {
      RopeToPegPrefixEntry(s, n - 1, r);
      assert s[..n] == s[..n - 1] + [s[n - 1]];
      var m := RopeToPegPrefix(s, n - 1);
      assert RopeToPegPrefix(s, n)[r] == if s[n - 1] == Rope(r) then n - 1 else m[r];
      if m[r] != -1 && s[n - 1] != Rope(r) {
        assert s[m[r] + 1..n] == s[m[r] + 1..n - 1] + [s[n - 1]];
      }
    }
  }

  /** On a valid board the map really inverts it: rope r's entry is the one peg holding r,
      so distinct ropes have distinct pegs. */
  lemma RopeToPegInverts(s: seq<Slot>)
    requires IsArrangement(s)
    ensures RopeIdsInRange(s)
    ensures forall r :: 0 <= r < RopeCount ==>
      0 <= RopeToPeg(s)[r] < PegCount && s[RopeToPeg(s)[r]] == Rope(r)
    ensures forall r, p :: 0 <= r < RopeCount && 0 <= p < |s| && s[p] == Rope(r) ==> RopeToPeg(s)[r] == p
    ensures forall r1, r2 :: 0 <= r1 < RopeCount && 0 <= r2 < RopeCount && r1 != r2 ==>
      RopeToPeg(s)[r1] != RopeToPeg(s)[r2]
  {
    ArrangementPegs(s);
    forall r | 0 <= r < RopeCount
      ensures 0 <= RopeToPeg(s)[r] < PegCount && s[RopeToPeg(s)[r]] == Rope(r)
    {
      RopeToPegPrefixEntry(s, |s|, r);
      assert s[..|s|] == s;
      assert Rope(r) in s;
    }
  }

  /** Pairs (i, k), i < k < j, with m[i] > m[k]: the inner loop's count after it has reached j. */
  function RowCount(m: seq<int>, i: nat, j: nat): (c: nat)
    requires i < |m| && j <= |m|
    ensures i < j ==> c <= j - i - 1
  {
    if j <= i + 1 then 0 else RowCount(m, i, j - 1) + (if m[i] > m[j - 1] then 1 else 0)
  }

  /** The outer loop's count after rows 0..i-1 are complete. */
  function RowsCount(m: seq<int>, i: nat): (c: nat)
    requires i <= |m|
    ensures 2 * c <= i * (2 * |m| - i - 1)
  {
    if i == 0 then 0
    else
      var n := |m|;
      assert (i - 1) * (2 * n - i) + 2 * (n - i) == i * (2 * n - i - 1);
      RowsCount(m, i - 1) + RowCount(m, i - 1, |m|)
  }

  /** `countCrossings` on a rope-to-peg map: the nested loops' final count, which is at
      most n(n-1)/2 for n ropes. */
  function CountInversions(m: seq<int>): (c: nat)
    ensures 2 * c <= |m| * (|m| - 1)
  {
    RowsCount(m, |m|)
  }

  /** The crossing count of a board, as the game computes it: with four ropes at most six. */
  function CrossingCount(s: seq<Slot>): (c: nat)
    requires RopeIdsInRange(s)
    ensures c <= 6
  {
    CountInversions(RopeToPeg(s))
  }

  /** The independent definition: the set of inverted index pairs. */
  ghost function InversionPairs(m: seq<int>): set<(int, int)>
  {
    set i, j | 0 <= i < j < |m| && m[i] > m[j] :: (i, j)
  }

  ghost function RowPairs(m: seq<int>, i: nat, j: nat): set<(int, int)>
    requires i < |m| && j <= |m|
  {
    set k | i < k < j && m[i] > m[k] :: (i, k)
  }

  ghost function PairsBelow(m: seq<int>, i: nat): set<(int, int)>
    requires i <= |m|
  {
    set a, b | 0 <= a < i && a < b < |m| && m[a] > m[b] :: (a, b)
  }

  lemma {:induction false} RowCountIsRowPairs(m: seq<int>, i: nat, j: nat)
    requires i < |m| && j <= |m|
    ensures RowCount(m, i, j) == |RowPairs(m, i, j)|
  {
    if j <= i + 1 {
      assert RowPairs(m, i, j) == {};
    } else {
      RowCountIsRowPairs(m, i, j - 1);
      if m[i] > m[j - 1] {
        assert RowPairs(m, i, j) == RowPairs(m, i, j - 1) + {(i, j - 1)};
        assert (i, j - 1) !in RowPairs(m, i, j - 1);
      } else {
        assert RowPairs(m, i, j) == RowPairs(m, i, j - 1);
      }
    }
  }

  /** The pairs below row i are those below row i-1 together with row i-1, disjointly. */
  lemma PairsBelowSplit(m: seq<int>, i: nat)
    requires 0 < i <= |m|
    ensures PairsBelow(m, i) == PairsBelow(m, i - 1) + RowPairs(m, i - 1, |m|)
    ensures PairsBelow(m, i - 1) * RowPairs(m, i - 1, |m|) == {}
  {
    var lower, row := PairsBelow(m, i - 1), RowPairs(m, i - 1, |m|);
    forall a, b | 0 <= a < i && a < b < |m| && m[a] > m[b]
      ensures (a, b) in lower + row
    {
      if a == i - 1 { assert (a, b) in row; } else { assert (a, b) in lower; }
    }
  }

  lemma DisjointUnionSize<T>(a: set<T>, b: set<T>)
    requires a * b == {}
    ensures |a + b| == |a| + |b|
  {
  }

  lemma {:induction false} RowsCountIsPairsBelow(m: seq<int>, i: nat)
    requires i <= |m|
    ensures RowsCount(m, i) == |PairsBelow(m, i)|
  {
    if i == 0 {
      assert PairsBelow(m, i) == {};
    } else {
      var lower, row := PairsBelow(m, i - 1), RowPairs(m, i - 1, |m|);
      assert |PairsBelow(m, i)| == |lower| + |row| by {
        PairsBelowSplit(m, i);
        DisjointUnionSize(lower, row);
      }
      RowsCountIsPairsBelow(m, i - 1);
      RowCountIsRowPairs(m, i - 1, |m|);
    }
  }

  /** The nested-loop count is exactly the number of inverted pairs. */
  lemma CountInversionsIsPairCount(m: seq<int>)
    ensures CountInversions(m) == |InversionPairs(m)|
  {
    RowsCountIsPairsBelow(m, |m|);
    assert PairsBelow(m, |m|) == InversionPairs(m);
  }

  /** No inversions exactly when the map is non-decreasing. */
  lemma CountInversionsZeroIff(m: seq<int>)
    ensures CountInversions(m) == 0 <==> forall i, j :: 0 <= i < j < |m| ==> m[i] <= m[j]
  {
    CountInversionsIsPairCount(m);
    forall i, j | 0 <= i < j < |m| && m[i] > m[j]
      ensures (i, j) in InversionPairs(m)
    {
    }
    assert CountInversions(m) == 0 <==> InversionPairs(m) == {};
  }

  /** On a valid board the count lies in 0..6, and it is 0 exactly when the ropes sit on
      the pegs in increasing id order. */
  lemma CrossingsRange(s: seq<Slot>)
    requires IsArrangement(s)
    ensures RopeIdsInRange(s)
    ensures CrossingCount(s) <= 6
    ensures CrossingCount(s) == 0 <==>
      forall r1, r2 :: 0 <= r1 < r2 < RopeCount ==> RopeToPeg(s)[r1] < RopeToPeg(s)[r2]
  {
    RopeToPegInverts(s);
    CountInversionsZeroIff(RopeToPeg(s));
  }

  lemma Level1Crossings()
    ensures RopeIdsInRange(Level1) && CrossingCount(Level1) == 1
  {
    Level1IsArrangement();
    assert RopeToPeg(Level1) == [0, 1, 3, 2];
  }

  lemma Level2Crossings()
    ensures RopeIdsInRange(Level2) && CrossingCount(Level2) == 1
  {
    Level2IsArrangement();
    assert RopeToPeg(Level2) == [0, 2, 1, 3];
  }

  lemma Level3Crossings()
    ensures RopeIdsInRange(Level3) && CrossingCount(Level3) == 2
  {
    Level3IsArrangement();
    assert RopeToPeg(Level3) == [0, 3, 1, 2];
  }

  lemma Level4Crossings()
    ensures RopeIdsInRange(Level4) && CrossingCount(Level4) == 3
  {
    Level4IsArrangement();
    assert RopeToPeg(Level4) == [2, 0, 4, 1];
  }

  lemma Level5Crossings()
    ensures RopeIdsInRange(Level5) && CrossingCount(Level5) == 5
  {
    Level5IsArrangement();
    assert RopeToPeg(Level5) == [2, 4, 1, 0];
  }

  lemma Level6Crossings()
    ensures RopeIdsInRange(Level6) && CrossingCount(Level6) == 6
  {
    Level6IsArrangement();
    assert RopeToPeg(Level6) == [4, 3, 1, 0];
  }

  /** The crossing counts of the shipped levels: 1, 1, 2, 3, 5 and 6. */
  lemma LevelCrossings()
    ensures forall k :: 0 <= k < |LEVELS| ==> RopeIdsInRange(LEVELS[k])
    ensures CrossingCount(LEVELS[0]) == 1 && CrossingCount(LEVELS[1]) == 1 && CrossingCount(LEVELS[2]) == 2
    ensures CrossingCount(LEVELS[3]) == 3 && CrossingCount(LEVELS[4]) == 5 && CrossingCount(LEVELS[5]) == 6
  {
    Level1Crossings();
    Level2Crossings();
    Level3Crossings();
    Level4Crossings();
    Level5Crossings();
    Level6Crossings();
  }

  /** No level starts solved. */
  lemma NoLevelStartsSolved()
    ensures forall k :: 0 <= k < |LEVELS| ==> RopeIdsInRange(LEVELS[k]) && CrossingCount(LEVELS[k]) > 0
  {
    LevelCrossings();
  }

  /** The board the first level is solved into, rope 3 moved from peg 2 to peg 4. */
  lemma FirstLevelGoal()
    ensures RopeIdsInRange([Rope(0), Rope(1), Empty, Rope(2), Rope(3)])
    ensures CrossingCount([Rope(0), Rope(1), Empty, Rope(2), Rope(3)]) == 0
  {
    var s := [Rope(0), Rope(1), Empty, Rope(2), Rope(3)];
    assert RopeToPegPrefix(s, 1) == [0, -1, -1, -1];
    assert RopeToPegPrefix(s, 2) == [0, 1, -1, -1];
    assert RopeToPegPrefix(s, 3) == [0, 1, -1, -1];
    assert RopeToPegPrefix(s, 4) == [0, 1, 3, -1];
    assert RopeToPeg(s) == [0, 1, 3, 4];
  }
}
