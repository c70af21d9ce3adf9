# Ropegame puzzle engine, modelled in Dafny

Ropegame is a browser puzzle. Four ropes run from a wrist to a pole with five pegs. Each
rope's loose end sits on a peg, and exactly one peg is empty. The player clicks a rope end to
pick it up, then clicks the empty peg to move it there. A level is solved when no two ropes
cross, that is, when rope ids increase from the top peg to the bottom one. After the last
move has finished animating, a level-complete overlay appears. Its "next" button loads the
following level, and after the sixth level it returns to the first.

This project models the game logic of `script.js`: the board, the level catalog, the
crossing count, the click handler, level loading, the "next" button, and the state part of
the per-frame animation loop. The 3D scene is not modelled.

Modules, one file each:

- `levels.dfy` (`Levels`): a peg's content (`Slot`: `Empty` or `Rope(id)`), the six shipped
  arrangements `LEVELS`, and the board invariant `IsArrangement` (five pegs, one empty,
  ropes 0..3 once each). It also has `IndexOf`, the model of `Array.prototype.indexOf`, and
  proves that a move keeps the invariant.
- `crossings.dfy` (`Crossings`): the rope-to-peg map and the nested-loop crossing count, as
  functions. They are checked against an independent definition, the set of inverted pairs.
  The file also proves the range, the zero case and the count of each level.
- `animation.dfy` (`Animation`): one rope's settle progress, the frame-step clamp, and how
  many frames a settle takes.
- `game.dfy` (`Game`): all the state the puzzle keeps, as a value, with one function per
  transition (`Click`, `Tick`, `Load`, `Next`, `ShowLevelComplete`, `SetRopeTarget`). It also
  proves the transitions' properties and an invariant `Valid` that every transition keeps.
  `Valid` covers the board and how completion is sequenced.
- `session.dfy` (`Session`): class `GameSession`, which holds that state in fields and arrays
  and updates it in place, the way the game's handlers update their module-level variables.
  Each handler is a method whose postcondition is that the new state is the matching `Game`
  transition of the old one. The loops of `getRopeToSlotMap`, `countCrossings`,
  `isAnimating`, `slots.indexOf` and `animate` are loops here too, with invariants that tie
  them to the `Crossings`, `Levels` and `Animation` functions.

Further modelling choices:

- A rope's `ropeStates[i]` record is modelled by two arrays indexed by rope. `lerp[i]` is its
  progress, as a `real`. `targetPeg[i]` is the peg whose point is its `targetPos`.
- The overlay's "hidden" and "finale" classes are the booleans `overlayVisible` and `finale`.
- `Math.min(clock.getDelta(), 1 / 20)` is `ClampDelta`. The clock's delta is a parameter of
  `Animate` and `Tick`.
- The arithmetic `min(1, lerp + dt * 3.3)` is exact over the reals.

## Model

| member | source | states |
|---|---|---|
| Levels.LevelsAreArrangements | script.js:7-14 | the catalog has six levels, and each has five pegs, exactly one empty peg and each rope 0..3 exactly once |
| Levels.LevelIsArrangement | script.js:7-14 | level k of the catalog satisfies the board invariant |
| Levels.IndexOf | script.js:701 | `slots.indexOf(x)`: -1 exactly when x is absent; otherwise the first peg holding x |
| Levels.ArrangementPegs | script.js:723-724 | on a valid board the empty peg is unique and `indexOf` finds it; each rope's peg is unique and `indexOf` finds it |
| Levels.MovePreservesArrangement | script.js:740-742 | moving a rope onto the empty peg and emptying its old peg keeps the board invariant |
| Crossings.RopeToPegPrefix | script.js:569-575 | the map after scanning n pegs has four entries, each -1 or one of the scanned pegs |
| Crossings.RopeToPeg | script.js:569-575 | `getRopeToSlotMap`: four entries, each -1 or a peg of the board |
| Crossings.RopeToPegPrefixEntry | script.js:569-575 | after scanning n pegs, a rope's entry is -1 exactly when no scanned peg holds it, and otherwise it is the last scanned peg that holds it |
| Crossings.RopeToPegInverts | script.js:569-575 | on a valid board `getRopeToSlotMap` inverts the board: entry r is the one peg holding rope r, and distinct ropes get distinct pegs |
| Crossings.CountInversionsIsPairCount | script.js:577-586 | the nested loops count exactly the set of pairs i < j with map[i] > map[j] |
| Crossings.RowCount | script.js:581-583 | the inner loop of row i adds at most one per later index, so at most j - i - 1 after reaching j |
| Crossings.RowsCount | script.js:580-584 | after i complete rows of an n-entry map the count is at most i(2n - i - 1)/2 |
| Crossings.CountInversions | script.js:577-586 | the nested loops count at most n(n-1)/2 pairs |
| Crossings.CrossingCount | script.js:577-586 | `countCrossings` on a board: with four ropes, at most 6 |
| Crossings.RowCountIsRowPairs | script.js:581-583 | the inner loop counts exactly the inverted pairs in its row |
| Crossings.RowsCountIsPairsBelow | script.js:580-584 | after the outer loop's first i rows, the count is the number of inverted pairs whose first index is below i |
| Crossings.CountInversionsZeroIff | script.js:577-586 | the count is 0 exactly when the map is non-decreasing |
| Crossings.CrossingsRange | script.js:569-586 | on a valid board the crossing count is at most 6, and it is 0 exactly when rope ids increase strictly with their pegs |
| Crossings.LevelCrossings | script.js:7-14 | the shipped levels start with 1, 1, 2, 3, 5 and 6 crossings |
| Crossings.NoLevelStartsSolved | script.js:7-14 | every level starts with a positive crossing count |
| Crossings.FirstLevelGoal | script.js:8 | the first level with rope 3 moved to the bottom peg has no crossings |
| Animation.ClampDelta | script.js:779 | `Math.min(delta, 1/20)`: the step is at most 1/20 s, equal to the raw delta when that is at most 1/20, exactly 1/20 when the delta is at least that, and not negative for a non-negative delta |
| Animation.Advance | script.js:782-783 | a settled rope is left alone; otherwise progress stays in [0,1], never decreases, and strictly grows for a positive step |
| Animation.AdvanceAll | script.js:781-787 | the frame loop keeps the number of ropes, leaves settled ropes alone, keeps every progress in [0,1] without lowering it, and strictly raises every unsettled rope for a positive step |
| Animation.AdvanceTimes | script.js:781-783 | n frames of one rope's update keep a progress in [0,1] and never lower it |
| Animation.Steps | script.js:783 | n frames' gains of k each, added one frame at a time, are not negative for k ≥ 0 |
| Animation.StepsIsProduct | script.js:783 | n frames' gains of k add up to n·k |
| Animation.AdvanceTimesProgress | script.js:783 | after n frames a progress has gained at least the n steps of 3.3·d, capped at 1 |
| Animation.SettledAfter | script.js:783 | frames whose steps of 3.3·d add up to at least 1 settle any rope |
| Animation.SettlesWithin | script.js:779-783 | for a fixed step d > 0 every rope settles within ceil(1 / (3.3 d)) frames |
| Animation.SlowFramesSettleInSeven | script.js:779-783 | at the 1/20 s clamp the bound is 7 frames, and a move starting from 0 is still unsettled after 6 |
| Game.SetRopeTarget | script.js:527-543 | only the rope's progress and target change: it heads to the given peg, with progress exactly 1 when instant and 0 otherwise; every other rope and every other field stay |
| Game.Click | script.js:719-751 | a click never changes the level or the overlay, and one that changes the board clears the selection and blocks input while the moved rope settles |
| Game.Move | script.js:740-748 | the move keeps the board invariant, and completion becomes pending exactly when the new board has no crossings |
| Game.ShowLevelComplete | script.js:671-689 | the overlay is shown afterwards; a no-op while it was up; otherwise the finale style is on exactly on the last level; nothing but the overlay changes |
| Game.Tick | script.js:777-799 | a frame keeps the board, the selection, the level, the targets and the number of ropes, and never makes completion pending |
| Game.TickTimes | script.js:777-799 | n frames keep the number of ropes |
| Game.Start | script.js:692-703 | the reset state has the given board and index, nothing selected, nothing pending, the overlay hidden without finale style, and four settled ropes |
| Game.Load | script.js:691-703 | `loadLevel(index)` puts the catalog's board for `index` on the pegs and records the index |
| Game.Next | script.js:711-717 | `handleNext` moves to level (k + 1) mod 6: the new state is exactly that level freshly loaded, so nothing of the old board, selection, overlay or progress survives |
| Game.LoadIsValid | script.js:691-703 | a loaded level is valid and unsolved, has the catalog's board and the given index, nothing selected, nothing pending, the overlay hidden, and every rope settled |
| Game.StartIsValid | script.js:692-703 | resetting onto a valid unsolved board, with each rope settled at its own peg, gives a valid state with nothing animating |
| Game.NextIsValid | script.js:711-717 | `handleNext` always lands on a valid, unsolved level |
| Game.ClickIgnoredWhileBlocked | script.js:720-721 | with the overlay up or some rope unsettled, a click changes nothing |
| Game.ClickOccupiedSelects | script.js:726-731 | clicking an occupied peg only selects it, replacing any earlier selection, so clicking it twice equals clicking once |
| Game.ClickEmptyWithoutSelection | script.js:733-736 | clicking the empty peg with nothing selected changes nothing |
| Game.EmptyGuardUnreachable | script.js:724-738 | on a valid board every empty peg is the one `indexOf(null)` returns, so the `pegIdx !== emptyIdx` guard never fires |
| Game.MoveAcceptedIff | script.js:719-748 | the board changes exactly when input is open, the clicked peg is empty and a rope is selected |
| Game.MoveEffects | script.js:740-748 | a move puts the selected rope on the empty peg and empties its old peg. The other pegs are unchanged, the selection is cleared, completion is pending exactly when no crossing is left, and only the moved rope restarts (progress 0, heading to its new peg), so something is animating |
| Game.ClickPreservesValid | script.js:719-751 | every click keeps the board invariant and the completion sequencing |
| Game.SolvedBoardIsFrozen | script.js:720-721 | once the board is solved, no click changes it until another level is loaded |
| Game.TickProgress | script.js:779-787 | a frame keeps every progress in [0,1] and never lowers it. It leaves settled ropes alone and does not touch the board, the selection, the level or the targets |
| Game.TickCompletion | script.js:796-799 | completion fires exactly when it was pending and nothing animates after the update. Firing clears the flag and shows the overlay; any other frame leaves both alone |
| Game.TickPreservesValid | script.js:777-799 | every frame keeps the state valid |
| Game.TickTimesLerp | script.js:781-787 | n frames advance each rope's progress exactly as n single-rope updates |
| Game.AnimationSettles | script.js:779-787 | with a fixed delta, after ceil(1 / (3.3 d)) frames every rope is settled and nothing is animating |
| Game.FirstLevelPickUp | script.js:726-731 | on level 1 with input open, clicking peg 2 selects rope 3 and changes nothing else |
| Game.FirstLevelSolvedInOneMove | script.js:738-748 | on level 1, with peg 2 selected, clicking the empty peg 4 gives the board with no crossings and makes completion pending |
| Session.GameSession.constructor | script.js:805-813 | building the ropes and loading level 0 gives the valid state `Load(0)`, in freshly allocated arrays |
| Session.GameSession.IndexOfSlot | script.js:724 | the scan returns `IndexOf` of the board |
| Session.GameSession.IsAnimating | script.js:588-590 | true exactly when some rope's progress is below 1 |
| Session.GameSession.RopeToSlotMap | script.js:569-575 | the filled array is the rope-to-peg map of the board |
| Session.GameSession.CountCrossings | script.js:577-586 | the nested loops return the board's crossing count |
| Session.GameSession.SetRopeTarget | script.js:527-543 | the rope now heads to the given peg, with progress 1 when instant and 0 otherwise; no other rope changes |
| Session.GameSession.LoadLevel | script.js:691-709 | the object holds `Load(index)` afterwards, which is valid; the board is a fresh array and the rope arrays are the same objects |
| Session.GameSession.LoadBoard | script.js:692-703 | the board is a copy of the level; selection, completion and overlay are reset; every rope is settled at its peg |
| Session.GameSession.SettleRopesAtPegs | script.js:700-703 | every rope heads to the peg `indexOf` finds for it, with progress 1 |
| Session.GameSession.HandleNext | script.js:711-717 | the object holds `Next` of its old state and stays valid |
| Session.GameSession.OnPegClicked | script.js:719-751 | the object holds `Click` of its old state and stays valid; the board and rope arrays are the same objects |
| Session.GameSession.SelectOrMove | script.js:723-751 | past the two input guards, the object holds `Click` of its old state |
| Session.GameSession.ApplyMove | script.js:740-748 | the in-place move, the target reset and the crossing count together perform `Move` |
| Session.GameSession.ShowLevelComplete | script.js:671-689 | the object holds `ShowLevelComplete` of its old state; the board and rope arrays are the same objects |
| Session.GameSession.Animate | script.js:777-799 | the object holds `Tick` of its old state and stays valid |
| Session.GameSession.AdvanceRopes | script.js:781-787 | the loop updates every rope as `AdvanceAll` does |
| Session.IndexOfPrefix | script.js:724 | a scan that stops at the first hit k returns `IndexOf` |

## Left out

- Scene construction, lights, meshes and procedural textures (script.js:42-516): rendering through Three.js and the canvas, with no puzzle state.
- `updateRopeGeometry` and the eased 3D positions `startPos`, `currentPos`, `targetPos` and `eased` (script.js:545-567, 784-785): floating-point vector arithmetic. Only the scalar `lerp` and the target peg are modelled. "settled means at the target point" is not claimed.
- Texture offset scrolling and `updatePegVisuals` (script.js:789-794, 629-669): rendering only.
- Confetti (script.js:606-627): `Math.random` and the DOM.
- The text of the level label, crossing label, hints and overlay (script.js:592-604, 677-687): DOM text. `updateCrossingsLabel` is kept only for the count it returns.
- Pointer handling, raycasting, `resize`, `requestAnimationFrame` and the clock (script.js:753-775): input and frame plumbing. The peg index reaching `onPegClicked` is always 0..4, so it is a precondition. The clock's delta is a parameter.
- loader.js is not part of this model: it loads Three.js from a CDN, with network and DOM access only.
- Game.Click: it requires `WellFormed`, which means all of these: a valid board; a selection that is -1 or an occupied peg; a level index inside the catalog; four ropes whose progress is in [0,1]; and four targets, each the peg holding its rope. Every reachable state is well formed, as the preservation lemmas show; other states are not modelled.
- Session.GameSession.OnPegClicked: it requires `Valid()`, which is `WellFormed` plus the completion sequencing: a pending completion belongs to a solved board that is still animating with the overlay hidden, the overlay is shown only for a solved board, and a solved board is pending or showing the overlay. Every reachable state is valid, as the preservation lemmas show.
- Session.GameSession.SelectOrMove and Session.GameSession.ApplyMove: they are the parts of `onPegClicked` after its guards, so they require what those guards established (input open; for the move, a selected rope and the empty peg clicked).
- Session.GameSession.LoadLevel: it requires an index inside the catalog; the game only passes 0 and `levelIndex + 1` below the last level.
- Session.GameSession.Animate: it requires a non-negative delta, which is what a clock's delta is.
- Floating-point rounding in `lerp + dt * 3.3` and `1 / 20` is not modelled; both are exact reals.
