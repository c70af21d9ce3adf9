/** The game's module-level state as one object. Its methods update that state in place the
    way the game's handlers do, and each is proved to perform the matching transition of
    module Game, whose properties are proved there. */
module Session {
  import opened Levels
  import opened Crossings
  import opened Animation
  import Game

  class GameSession {
    /** The board: what each of the five pegs holds. */
    var slots: array<Slot>
    /** The peg whose rope is picked up, or -1. */
    var selectedPeg: int
    /** The last move solved the board and the level-complete overlay is still to come. */
    var pendingComplete: bool
    var levelIndex: int
    /** The level-complete overlay is shown (the overlay element lacks class "hidden"). */
    var overlayVisible: bool
    /** The overlay carries its "finale" style. */
    var finale: bool
    /** Per rope: settle progress (`ropeStates[i].lerp`)... */
    var lerp: array<real>
    /** ...and the peg whose point is its `targetPos`. */
    var targetPeg: array<int>

    /** The abstract state this object holds. */
    function State(): Game.State
      reads this, slots, lerp, targetPeg
    {
      Game.State(slots[..], selectedPeg, pendingComplete, levelIndex, overlayVisible, finale,
                 lerp[..], targetPeg[..])
    }

    ghost predicate Valid()
      reads this, slots, lerp, targetPeg
    {
      Game.Valid(State())
    }

    /** `buildRopes` (every rope starts settled) followed by `loadLevel(0)`. */
    constructor ()
      ensures Valid() && State() == Game.Load(0)
      ensures fresh(slots) && fresh(lerp) && fresh(targetPeg)
    {
      slots := new Slot[0];
      lerp := new real[RopeCount](_ => 1.0);
      targetPeg := new int[RopeCount](_ => 0);
      new;
      LoadLevel(0);
    }

    /** `slots.indexOf(x)`. */
    method IndexOfSlot(x: Slot) returns (k: int)
      ensures k == IndexOf(slots[..], x)
      ensures k == -1 <==> x !in slots[..]
      ensures 0 <= k ==> k < slots.Length && slots[k] == x
    {
      k := 0;
      while k < slots.Length
        invariant 0 <= k <= slots.Length
        invariant x !in slots[..k]
      {
        if slots[k] == x {
          IndexOfPrefix(slots[..], x, k);
          return;
        }
        k := k + 1;
      }
      assert slots[..k] == slots[..];
      k := -1;
    }

    /** `isAnimating`: is some rope not yet settled? */
    method IsAnimating() returns (b: bool)
      ensures b <==> Game.Animating(lerp[..])
    {
      b := false;
      var r := 0;
      while r < lerp.Length
        invariant 0 <= r <= lerp.Length
        invariant forall i :: 0 <= i < r ==> lerp[i] >= 1.0
      {
        if lerp[r] < 1.0 {
          b := true;
          return;
        }
        r := r + 1;
      }
    }

    /** `getRopeToSlotMap`: scan the pegs and record each rope's peg. */
    method RopeToSlotMap() returns (m: seq<int>)
      requires RopeIdsInRange(slots[..])
      ensures m == RopeToPeg(slots[..])
    {
      var ropeToPeg := new int[RopeCount](_ => -1);
      for p := 0 to slots.Length
        invariant ropeToPeg[..] == RopeToPegPrefix(slots[..], p)
      {
        var rope := slots[p];
        if rope.Rope? {
          ropeToPeg[rope.id] := p;
        }
      }
      m := ropeToPeg[..];
    }

    /** `countCrossings`: the nested loops over rope pairs. */
    method CountCrossings() returns (c: nat)
      requires RopeIdsInRange(slots[..])
      ensures c == CrossingCount(slots[..])
    {
      var m := RopeToSlotMap();
      c := 0;
      for i := 0 to |m|
        invariant c == RowsCount(m, i)
      {
        for j := i + 1 to |m|
          invariant c == RowsCount(m, i) + RowCount(m, i, j)
        {
          if m[i] > m[j] {
            c := c + 1;
          }
        }
      }
    }

    /** `setRopeTarget(rope, peg, instant)`, on the scalar bookkeeping. */
    method SetRopeTarget(rope: int, peg: int, instant: bool)
      requires 0 <= rope < lerp.Length == targetPeg.Length
      modifies lerp, targetPeg
      ensures lerp[..] == old(lerp[..])[rope := if instant then 1.0 else 0.0]
      ensures targetPeg[..] == old(targetPeg[..])[rope := peg]
    {
      lerp[rope] := if instant then 1.0 else 0.0;
      targetPeg[rope] := peg;
    }

    /** `loadLevel(index)`. */
    method LoadLevel(index: int)
      requires 0 <= index < |LEVELS|
      requires lerp.Length == RopeCount && targetPeg.Length == RopeCount
      modifies this, lerp, targetPeg
      ensures Valid() && State() == Game.Load(index)
      ensures fresh(slots) && lerp == old(lerp) && targetPeg == old(targetPeg)
    {
      var level := LEVELS[index];
      assert |level| == PegCount by {
        LevelIsArrangement(index);
      }
      LoadBoard(level, index);
      assert Game.Valid(Game.Load(index)) by {
        Game.LoadIsValid(index);
      }
    }

    /** The body of `loadLevel` on a given board: copy it, reset the selection, completion
        and overlay, and settle every rope at the peg that holds it. */
    method LoadBoard(level: seq<Slot>, index: int)
      requires |level| == PegCount
      requires lerp.Length == RopeCount && targetPeg.Length == RopeCount
      modifies this, lerp, targetPeg
      ensures State() == Game.Start(level, index)
      ensures fresh(slots) && lerp == old(lerp) && targetPeg == old(targetPeg)
    {
      levelIndex := index;
      slots := new Slot[PegCount](p requires 0 <= p < PegCount => level[p]);
      assert slots[..] == level;
      selectedPeg := -1;
      pendingComplete := false;
      overlayVisible := false;
      finale := false;
      SettleRopesAtPegs();
      assert lerp[..] == seq(RopeCount, _ => 1.0);
      assert targetPeg[..] == seq(RopeCount, r => IndexOf(level, Rope(r)));
    }

    /** The loop at the end of `loadLevel`: every rope heads to the peg that holds it, settled. */
    method SettleRopesAtPegs()
      requires lerp.Length == RopeCount && targetPeg.Length == RopeCount
      modifies lerp, targetPeg
      ensures forall r :: 0 <= r < RopeCount ==> lerp[r] == 1.0
      ensures forall r :: 0 <= r < RopeCount ==> targetPeg[r] == IndexOf(slots[..], Rope(r))
    {
      for rope := 0 to RopeCount
        invariant forall r :: 0 <= r < rope ==> lerp[r] == 1.0
        invariant forall r :: 0 <= r < rope ==> targetPeg[r] == IndexOf(slots[..], Rope(r))
      {
        var peg := IndexOfSlot(Rope(rope));
        SetRopeTarget(rope, peg, true);
      }
    }

    /** `handleNext`: load the next level, or the first after the last. */
    method HandleNext()
      requires Valid()
      modifies this, lerp, targetPeg
      ensures Valid() && State() == Game.Next(old(State()))
      ensures fresh(slots) && lerp == old(lerp) && targetPeg == old(targetPeg)
    {
      ghost var g := State();
      var next := if levelIndex == |LEVELS| - 1 then 0 else levelIndex + 1;
      assert Game.Next(g) == Game.Load(next);
      LoadLevel(next);
    }

    /** `onPegClicked(peg)`: ignored while the overlay is up or a rope is settling. */
    method OnPegClicked(peg: int)
      requires Valid() && 0 <= peg < PegCount
      modifies this, slots, lerp, targetPeg
      ensures Valid() && State() == Game.Click(old(State()), peg)
      ensures slots == old(slots) && lerp == old(lerp) && targetPeg == old(targetPeg)
    {
      assert Game.Valid(Game.Click(State(), peg)) by {
        Game.ClickPreservesValid(State(), peg);
      }
      if overlayVisible {
        return;
      }
      var animating := IsAnimating();
      if !animating {
        SelectOrMove(peg);
      }
    }

    /** The rest of `onPegClicked` once input is not blocked: pick up the clicked rope, or
        move the picked-up rope onto the clicked peg if that is the empty one. */
    method SelectOrMove(peg: int)
      requires Game.WellFormed(State()) && !Game.InputBlocked(State()) && 0 <= peg < PegCount
      modifies this, slots, lerp, targetPeg
      ensures State() == Game.Click(old(State()), peg)
      ensures slots == old(slots) && lerp == old(lerp) && targetPeg == old(targetPeg)
    {
      ghost var g := State();
      var rope := slots[peg];
      var emptyIdx := IndexOfSlot(Empty);
      if rope.Rope? {
        selectedPeg := peg;
        return;
      }
      if selectedPeg == -1 || peg != emptyIdx {
        return;
      }
      assert Game.Click(g, peg) == Game.Move(g, peg);
      ApplyMove(peg);
    }

    /** The end of `onPegClicked` once every guard has passed, in place. */
    method ApplyMove(peg: int)
      requires IsArrangement(slots[..]) && 0 <= peg < PegCount && slots[peg] == Empty
      requires 0 <= selectedPeg < PegCount && slots[selectedPeg].Rope?
      requires lerp.Length == RopeCount && targetPeg.Length == RopeCount
      modifies this, slots, lerp, targetPeg
      ensures State() == Game.Move(old(State()), peg)
      ensures slots == old(slots) && lerp == old(lerp) && targetPeg == old(targetPeg)
    {
      ghost var g := State();
      var from := selectedPeg;
      var moving := slots[from];
      slots[peg] := moving;
      slots[from] := Empty;
      assert slots[..] == g.slots[peg := moving][from := Empty];
      assert IsArrangement(slots[..]) by {
        MovePreservesArrangement(g.slots, from, peg);
      }
      selectedPeg := -1;
      SetRopeTarget(moving.id, peg, false);
      var crossings := CountCrossings();
      pendingComplete := crossings == 0;
    }

    /** `showLevelComplete`, on the overlay's state. */
    method ShowLevelComplete()
      modifies this
      ensures State() == Game.ShowLevelComplete(old(State()))
      ensures slots == old(slots) && lerp == old(lerp) && targetPeg == old(targetPeg)
    {
      if overlayVisible {
        return;
      }
      finale := levelIndex == |LEVELS| - 1;
      overlayVisible := true;
    }

    /** The state part of one `animate` frame; `dt` is the clock's delta, never negative. */
    method Animate(dt: real)
      requires Valid() && dt >= 0.0
      modifies this, lerp
      ensures Valid() && State() == Game.Tick(old(State()), dt)
      ensures slots == old(slots) && lerp == old(lerp) && targetPeg == old(targetPeg)
    {
      Game.TickPreservesValid(State(), dt);
      var step := Min(dt, MaxFrameStep);
      AdvanceRopes(step);
      var animating := IsAnimating();
      if pendingComplete && !animating {
        pendingComplete := false;
        ShowLevelComplete();
      }
    }

    /** The loop in `animate`: every unsettled rope moves `step * 3.3` closer to its target,
        capped at 1; settled ropes are skipped. */
    method AdvanceRopes(step: real)
      modifies lerp
      ensures lerp[..] == AdvanceAll(old(lerp[..]), step)
    {
      for rope := 0 to lerp.Length
        invariant forall i :: 0 <= i < rope ==> lerp[i] == Advance(old(lerp[i]), step)
        invariant forall i :: rope <= i < lerp.Length ==> lerp[i] == old(lerp[i])
      {
        if lerp[rope] >= 1.0 {
          continue;
        }
        lerp[rope] := Min(1.0, lerp[rope] + step * SettleRate);
      }
    }
  }

  /** The first index holding `x` is the first hit of a scan that has found nothing before k. */
  lemma IndexOfPrefix(s: seq<Slot>, x: Slot, k: nat)
    requires k < |s| && s[k] == x && x !in s[..k]
    ensures IndexOf(s, x) == k
  {
    assert x in s;
    var i := IndexOf(s, x);
    assert forall j :: 0 <= j < k ==> s[j] == s[..k][j];
    assert forall j :: 0 <= j < i ==> s[j] == s[..i][j];
  }
}
