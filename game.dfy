/** The puzzle's state machine as values: the state the game keeps in module-level variables,
    and one function per transition (a peg click, an animation frame, loading a level, the
    "next" button). The class in session.dfy is proved to perform exactly these transitions. */
module Game {
  import opened Levels
  import opened Crossings
  import opened Animation

  /** Everything the puzzle logic reads or writes. `selectedPeg` is -1 when no rope is
      picked up; `lerp[r]` is rope r's settle progress and `targetPeg[r]` the peg its end is
      heading to; `overlayVisible` and `finale` stand for the level-complete overlay and its
      "finale" style. */
  datatype State = State(
    slots: seq<Slot>,
    selectedPeg: int,
    pendingComplete: bool,
    levelIndex: int,
    overlayVisible: bool,
    finale: bool,
    lerp: seq<real>,
    targetPeg: seq<int>)

  /** The shape every reachable state has: a valid board, a selection that is -1 or an
      occupied peg, a level in the catalog, progress in [0,1], and each rope heading to the
      peg that holds it. */
  predicate WellFormed(g: State)
  {
    && IsArrangement(g.slots)
    && (g.selectedPeg == -1 || (0 <= g.selectedPeg < PegCount && g.slots[g.selectedPeg].Rope?))
    && 0 <= g.levelIndex < |LEVELS|
    && |g.lerp| == RopeCount
    && (forall r :: 0 <= r < RopeCount ==> 0.0 <= g.lerp[r] <= 1.0)
    && |g.targetPeg| == RopeCount
    && (forall r :: 0 <= r < RopeCount ==>
          0 <= g.targetPeg[r] < PegCount && g.slots[g.targetPeg[r]] == Rope(r))
  }

  /** `isAnimating`: some rope has not settled. */
  predicate Animating(lerp: seq<real>)
  {
    exists r :: 0 <= r < |lerp| && lerp[r] < 1.0
  }

  /** The two guards at the top of `onPegClicked`. */
  predicate InputBlocked(g: State)
  {
    g.overlayVisible || Animating(g.lerp)
  }

  predicate Solved(g: State)
    requires WellFormed(g)
  {
    RopeIdsInRange(g.slots) && CrossingCount(g.slots) == 0
  }

  /** How completion is sequenced: a pending completion belongs to a solved board whose last
      move is still settling; the overlay is shown only for a solved board; and a solved
      board is always either pending or showing the overlay. */
  predicate Valid(g: State)
  {
    && WellFormed(g)
    && (g.pendingComplete ==> Solved(g) && Animating(g.lerp) && !g.overlayVisible)
    && (g.overlayVisible ==> Solved(g))
    && (Solved(g) ==> g.pendingComplete || g.overlayVisible)
  }

  /** `setRopeTarget`: the rope now heads to `peg`; `instant` settles it at once, otherwise
      its progress restarts from 0. */
  function SetRopeTarget(g: State, rope: int, peg: int, instant: bool): (g': State)
    requires 0 <= rope < |g.lerp| && |g.targetPeg| == |g.lerp|
    ensures g'.(lerp := g.lerp, targetPeg := g.targetPeg) == g
    ensures |g'.lerp| == |g.lerp| && |g'.targetPeg| == |g.targetPeg|
    ensures g'.targetPeg[rope] == peg && (g'.lerp[rope] >= 1.0 <==> instant)
    ensures g'.lerp[rope] == if instant then 1.0 else 0.0
    ensures forall r :: 0 <= r < |g.lerp| && r != rope ==>
      g'.lerp[r] == g.lerp[r] && g'.targetPeg[r] == g.targetPeg[r]
  {
    g.(lerp := g.lerp[rope := if instant then 1.0 else 0.0],
       targetPeg := g.targetPeg[rope := peg])
  }

  /** `onPegClicked(peg)`. A click never changes the level or the overlay, and a click that
      changes the board clears the selection and leaves a rope animating, which blocks
      further input until it settles. */
  function Click(g: State, peg: int): (g': State)
    requires WellFormed(g) && 0 <= peg < PegCount
    ensures g'.levelIndex == g.levelIndex && g'.overlayVisible == g.overlayVisible
    ensures g'.finale == g.finale
    ensures g'.slots != g.slots ==> g'.selectedPeg == -1 && InputBlocked(g')
  {
    if InputBlocked(g) then g
    else if g.slots[peg].Rope? then g.(selectedPeg := peg)
    else if g.selectedPeg == -1 then g
    else if peg != IndexOf(g.slots, Empty) then g
    else Move(g, peg)
  }

  /** The end of `onPegClicked` once every guard has passed: the selected rope moves onto
      the empty peg, the board stays an arrangement, and completion becomes pending exactly
      when the new board has no crossings. */
  function Move(g: State, peg: int): (g': State)
    requires IsArrangement(g.slots) && 0 <= peg < PegCount && g.slots[peg] == Empty
    requires 0 <= g.selectedPeg < PegCount && g.slots[g.selectedPeg].Rope?
    requires |g.lerp| == RopeCount && |g.targetPeg| == RopeCount
    ensures IsArrangement(g'.slots)
    ensures g'.pendingComplete <==> CrossingCount(g'.slots) == 0
  {
    var moving := g.slots[g.selectedPeg];
    var slots := g.slots[peg := moving][g.selectedPeg := Empty];
    MovePreservesArrangement(g.slots, g.selectedPeg, peg);
    var moved := SetRopeTarget(g.(slots := slots, selectedPeg := -1), moving.id, peg, false);
    moved.(pendingComplete := CrossingCount(slots) == 0)
  }

  /** `showLevelComplete`: no-op while the overlay is up; otherwise show it, in its finale
      style exactly on the last level. Nothing but the overlay changes. */
  function ShowLevelComplete(g: State): (g': State)
    ensures g'.overlayVisible
    ensures g.overlayVisible ==> g' == g
    ensures !g.overlayVisible ==> (g'.finale <==> g.levelIndex == |LEVELS| - 1)
    ensures g'.(overlayVisible := g.overlayVisible, finale := g.finale) == g
  {
    if g.overlayVisible then g
    else g.(overlayVisible := true, finale := g.levelIndex == |LEVELS| - 1)
  }

  /** The state part of one `animate` frame with raw delta `dt`. A frame moves only the
      ropes' progress and the completion: the board, the selection, the level and the
      targets stay, and a frame never makes completion pending. */
  function Tick(g: State, dt: real): (g': State)
    ensures g'.slots == g.slots && g'.selectedPeg == g.selectedPeg
    ensures g'.levelIndex == g.levelIndex && g'.targetPeg == g.targetPeg
    ensures |g'.lerp| == |g.lerp|
    ensures g'.pendingComplete ==> g.pendingComplete
  {
    var g1 := g.(lerp := AdvanceAll(g.lerp, ClampDelta(dt)));
    if g1.pendingComplete && !Animating(g1.lerp) then ShowLevelComplete(g1.(pendingComplete := false))
    else g1
  }

  /** The state `loadLevel` leaves behind for board `slots` of level `index`: nothing
      selected, nothing pending, the overlay hidden, and every rope settled at the peg that
      holds it. */
  function Start(slots: seq<Slot>, index: int): (g: State)
    ensures g.slots == slots && g.levelIndex == index
    ensures g.selectedPeg == -1 && !g.pendingComplete && !g.overlayVisible && !g.finale
    ensures !Animating(g.lerp) && |g.lerp| == RopeCount
  {
    State(slots, -1, false, index, false, false,
          seq(RopeCount, _ => 1.0),
          seq(RopeCount, r => IndexOf(slots, Rope(r))))
  }

  /** `loadLevel(index)`: every modelled field is reset, so the result depends on `index` only. */
  function Load(index: int): (g: State)
    requires 0 <= index < |LEVELS|
    ensures g.slots == LEVELS[index] && g.levelIndex == index
  {
    Start(LEVELS[index], index)
  }

  /** `handleNext`: the next level, or the first one after the last, so the catalog is
      walked cyclically. */
  function Next(g: State): (g': State)
    requires 0 <= g.levelIndex < |LEVELS|
    ensures g'.levelIndex == (g.levelIndex + 1) % |LEVELS|
    ensures g' == Load((g.levelIndex + 1) % |LEVELS|)
  {
    if g.levelIndex == |LEVELS| - 1 then Load(0) else Load(g.levelIndex + 1)
  }

  /** n frames, each with raw delta `dt`. */
  function TickTimes(g: State, dt: real, n: nat): (g': State)
    ensures |g'.lerp| == |g.lerp|
  {
    if n == 0 then g else Tick(TickTimes(g, dt, n - 1), dt)
  }

  // ---------------------------------------------------------------- loading

  /** A loaded level is a valid, unsolved state with nothing selected, nothing pending,
      the overlay hidden and every rope settled at its own peg. */
  lemma LoadIsValid(index: int)
    requires 0 <= index < |LEVELS|
    ensures var g := Load(index);
      && Valid(g) && !Solved(g)
      && g.slots == LEVELS[index] && g.levelIndex == index
      && g.selectedPeg == -1 && !g.pendingComplete && !g.overlayVisible && !g.finale
      && !Animating(g.lerp)
  {
    LevelIsArrangement(index);
    NoLevelStartsSolved();
    StartIsValid(LEVELS[index], index);
  }

  /** Loading an unsolved valid board of a catalog level gives a valid state in which no
      rope is animating. */
  lemma StartIsValid(slots: seq<Slot>, index: int)
    requires IsArrangement(slots) && 0 <= index < |LEVELS|
    requires RopeIdsInRange(slots) && CrossingCount(slots) > 0
    ensures var g := Start(slots, index); Valid(g) && !Solved(g) && !Animating(g.lerp)
  {
    ArrangementPegs(slots);
  }

  /** `handleNext` always lands on a valid, unsolved level. */
  lemma NextIsValid(g: State)
    requires 0 <= g.levelIndex < |LEVELS|
    ensures Valid(Next(g)) && !Solved(Next(g))
  {
    var k := if g.levelIndex == |LEVELS| - 1 then 0 else g.levelIndex + 1;
    assert Next(g) == Load(k);
    LoadIsValid(k);
  }

  // ---------------------------------------------------------------- clicks

  /** With the overlay up or a rope still settling, a click changes nothing. */
  lemma ClickIgnoredWhileBlocked(g: State, peg: int)
    requires WellFormed(g) && 0 <= peg < PegCount
    requires g.overlayVisible || exists r :: 0 <= r < RopeCount && g.lerp[r] < 1.0
    ensures Click(g, peg) == g
  {
  }

  /** Clicking an occupied peg only selects it, replacing any earlier selection; so clicking
      it twice is the same as clicking it once. */
  lemma ClickOccupiedSelects(g: State, peg: int)
    requires WellFormed(g) && 0 <= peg < PegCount && g.slots[peg].Rope?
    ensures WellFormed(Click(g, peg))
    ensures !InputBlocked(g) ==> Click(g, peg) == g.(selectedPeg := peg)
    ensures Click(Click(g, peg), peg) == Click(g, peg)
  {
  }

  /** Clicking the empty peg with nothing selected changes nothing. */
  lemma ClickEmptyWithoutSelection(g: State, peg: int)
    requires WellFormed(g) && 0 <= peg < PegCount
    requires g.slots[peg] == Empty && g.selectedPeg == -1
    ensures Click(g, peg) == g
  {
  }

  /** The guard `pegIdx !== emptyIdx` never fires: on a valid board an empty peg is the
      empty peg. */
  lemma EmptyGuardUnreachable(g: State, peg: int)
    requires WellFormed(g) && 0 <= peg < PegCount && g.slots[peg] == Empty
    ensures peg == IndexOf(g.slots, Empty)
  {
    ArrangementPegs(g.slots);
  }

  /** A click moves a rope exactly when input is open, the clicked peg is empty and a rope
      is selected; every other click leaves the board as it was. */
  lemma MoveAcceptedIff(g: State, peg: int)
    requires WellFormed(g) && 0 <= peg < PegCount
    ensures Click(g, peg).slots != g.slots <==>
      !InputBlocked(g) && g.slots[peg] == Empty && g.selectedPeg != -1
  {
    if !InputBlocked(g) && g.slots[peg] == Empty && g.selectedPeg != -1 {
      EmptyGuardUnreachable(g, peg);
      assert Click(g, peg).slots[peg] != Empty;
    }
  }

  /** What an accepted move does: the selected rope lands on the empty peg and its old peg
      becomes empty, the other pegs keep their ropes, the selection is cleared, completion
      becomes pending exactly when no crossing is left, and only the moved rope's animation
      restarts, towards its new peg. */
  lemma MoveEffects(g: State, peg: int)
    requires WellFormed(g) && 0 <= peg < PegCount
    requires !InputBlocked(g) && g.slots[peg] == Empty && g.selectedPeg != -1
    ensures var g' := Click(g, peg); var from := g.selectedPeg; var rope := g.slots[from].id;
      && WellFormed(g')
      && g'.slots[peg] == g.slots[from] && g'.slots[from] == Empty
      && (forall p :: 0 <= p < PegCount && p != peg && p != from ==> g'.slots[p] == g.slots[p])
      && g'.selectedPeg == -1
      && (g'.pendingComplete <==> CrossingCount(g'.slots) == 0)
      && g'.lerp == g.lerp[rope := 0.0] && g'.targetPeg == g.targetPeg[rope := peg]
      && Animating(g'.lerp)
      && g'.levelIndex == g.levelIndex && g'.overlayVisible == g.overlayVisible
  {
    EmptyGuardUnreachable(g, peg);
    var from := g.selectedPeg;
    var rope := g.slots[from].id;
    var slots := g.slots[peg := g.slots[from]][from := Empty];
    var targets := g.targetPeg[rope := peg];
    var g' := Click(g, peg);
    assert g'.slots == slots && g'.targetPeg == targets && g'.lerp == g.lerp[rope := 0.0];
    MovePreservesArrangement(g.slots, from, peg);
    forall r | 0 <= r < RopeCount
      ensures 0 <= targets[r] < PegCount && slots[targets[r]] == Rope(r)
    {
      if r != rope {
        var t := g.targetPeg[r];
        assert g.slots[t] == Rope(r);
        assert t != from && t != peg;
        assert slots[t] == g.slots[t];
      }
    }
    assert g'.lerp[rope] < 1.0;
  }

  /** Every click keeps the state well formed and keeps the completion sequencing. */
  lemma ClickPreservesValid(g: State, peg: int)
    requires Valid(g) && 0 <= peg < PegCount
    ensures Valid(Click(g, peg))
  {
    if !InputBlocked(g) && g.slots[peg] == Empty && g.selectedPeg != -1 {
      MoveEffects(g, peg);
      var g' := Click(g, peg);
      RopeToPegInverts(g'.slots);
    } else if !InputBlocked(g) && g.slots[peg].Rope? {
      ClickOccupiedSelects(g, peg);
    }
  }

  /** Once the board is solved no click can change it until the next level is loaded:
      the move that solved it is still settling, or the overlay is up. */
  lemma SolvedBoardIsFrozen(g: State, peg: int)
    requires Valid(g) && Solved(g) && 0 <= peg < PegCount
    ensures Click(g, peg).slots == g.slots
  {
  }

  // ---------------------------------------------------------------- frames

  /** One frame keeps every progress in [0,1], never lowers it, leaves settled ropes alone,
      and touches neither the board, the selection nor the level. */
  lemma TickProgress(g: State, dt: real)
    requires WellFormed(g) && dt >= 0.0
    ensures var g' := Tick(g, dt);
      && WellFormed(g')
      && g'.slots == g.slots && g'.selectedPeg == g.selectedPeg && g'.levelIndex == g.levelIndex
      && g'.targetPeg == g.targetPeg
      && (forall r :: 0 <= r < RopeCount ==> g.lerp[r] <= g'.lerp[r] <= 1.0)
      && (forall r :: 0 <= r < RopeCount && g.lerp[r] >= 1.0 ==> g'.lerp[r] == g.lerp[r])
  {
  }

  /** Completion fires in a frame exactly when it was pending and nothing is animating after
      the frame's update; firing clears the flag and raises the overlay, in finale style on
      the last level, unless the overlay was already up. A frame that does not fire leaves
      the flag and the overlay alone. */
  lemma TickCompletion(g: State, dt: real)
    ensures var g' := Tick(g, dt);
      var fires := g.pendingComplete && !Animating(AdvanceAll(g.lerp, ClampDelta(dt)));
      && (fires ==> !g'.pendingComplete && g'.overlayVisible)
      && (fires && !g.overlayVisible ==> (g'.finale <==> g.levelIndex == |LEVELS| - 1))
      && (fires && g.overlayVisible ==> g'.finale == g.finale)
      && (!fires ==> g'.pendingComplete == g.pendingComplete && g'.overlayVisible == g.overlayVisible
                     && g'.finale == g.finale)
  {
  }

  /** Every frame keeps the state valid. */
  lemma TickPreservesValid(g: State, dt: real)
    requires Valid(g) && dt >= 0.0
    ensures Valid(Tick(g, dt))
  {
    TickProgress(g, dt);
  }

  /** n frames advance each rope's progress exactly as n steps of `Advance`. */
  lemma {:induction false} TickTimesLerp(g: State, dt: real, n: nat, r: int)
    requires 0 <= r < |g.lerp|
    ensures |TickTimes(g, dt, n).lerp| == |g.lerp|
    ensures TickTimes(g, dt, n).lerp[r] == AdvanceTimes(g.lerp[r], ClampDelta(dt), n)
  {
    if n > 0 {
      TickTimesLerp(g, dt, n - 1, r);
    }
  }

  /** With a fixed frame delta dt > 0 every rope settles within ceil(1 / (3.3 d)) frames,
      d being dt clamped to 1/20 s; after that nothing is animating. */
  lemma AnimationSettles(g: State, dt: real, n: nat)
    requires WellFormed(g) && dt > 0.0
    requires n >= TicksToSettle(ClampDelta(dt))
    ensures forall r :: 0 <= r < RopeCount ==> TickTimes(g, dt, n).lerp[r] == 1.0
    ensures !Animating(TickTimes(g, dt, n).lerp)
  {
    forall r | 0 <= r < RopeCount
      ensures TickTimes(g, dt, n).lerp[r] == 1.0
    {
      TickTimesLerp(g, dt, n, r);
      SettlesWithin(g.lerp[r], ClampDelta(dt), n);
    }
    TickTimesLerp(g, dt, n, 0);
  }

  /** On the first level's board with input open, clicking peg 2 picks up rope 3... */
  lemma FirstLevelPickUp(g: State)
    requires WellFormed(g) && !InputBlocked(g) && g.slots == LEVELS[0]
    ensures Click(g, 2) == g.(selectedPeg := 2)
  {
    assert g.slots[2] == Rope(3);
  }

  /** ...and clicking the empty peg 4 next solves the level. */
  lemma FirstLevelSolvedInOneMove(g: State)
    requires WellFormed(g) && !InputBlocked(g) && g.slots == LEVELS[0] && g.selectedPeg == 2
    ensures Click(g, 4).slots == [Rope(0), Rope(1), Empty, Rope(2), Rope(3)]
    ensures Click(g, 4).pendingComplete
  {
    var goal := [Rope(0), Rope(1), Empty, Rope(2), Rope(3)];
    assert g.slots == Level1;
    EmptyGuardUnreachable(g, 4);
    var g2 := Click(g, 4);
    assert g2.slots == Level1[4 := Rope(3)][2 := Empty];
    assert g2.slots == goal;
    FirstLevelGoal();
  }
}
