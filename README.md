# Garbage sorting game — a Dafny model of the game session

The game is a browser arcade game. Garbage items fall from the top of a
falling zone, and the player sorts each one into the bin of its category
before a 30-second countdown runs out. An item can be dragged onto a bin. If
it is left alone, it lands in whatever bin lies below its centre. All of this
lives in one JavaScript class, `GarbageSortingGame` (`script.js`). This
project models that class's state machine, with the page abstracted away:

- **`Scoring`** (`scoring.dfy`) holds the eight configured garbage kinds, their
  categories and point values, and the classifier. A correct sort adds the
  item's points. A wrong sort or a miss costs 5, with a floor at 0. It also
  proves facts about any run of resolutions.
- **`Bins`** (`bins.dfy`) holds the two first-match lookups:
  - `getTargetBin`: an inclusive rectangle test, used for a manual drop;
  - `getBinAtPosition`: an inclusive test on the horizontal extent, relative
    to the game area, used for a landing.
- **`Falling`** (`falling.dfy`) holds the entries of the falling list, and
  where a new item appears and how fast it falls. It also holds the clamp
  applied to a released item and one animation frame, written as a function.
  There are two frame functions:
  - `Frame` does what the code does;
  - `FrameIntended` is the corrected frame (see Findings).

  A page element is a `Garbage` object, so object identity is node identity.
- **`Game`** (`game.dfy`) holds the class `GarbageSortingGame`. Its fields are
  the session state (`gameState`, `score`, `timeLeft`), the two timer handles
  as booleans, the `fallingItems` sequence and the drag fields
  (`draggedItem`, `draggedItemData`, `dragOffset`). Its methods update these
  fields in place. `Valid()` is the invariant kept by the constructor,
  `StartGame`, `RestartGame`, `CountdownTick`, `SpawnGarbage`,
  `AnimateFrame`, `AnimateFrameFixed`, `HandleDrop`, `RemoveGarbageItem`,
  `StartDrag` and `EndDrag`:
  - the score is never negative;
  - `timeLeft` stays in [0, 30] and is positive while playing;
  - both timers are scheduled exactly while playing;
  - the falling items are distinct and well-formed: configured kind, speed in
    [0.3, 0.6), `y >= 0`;
  - the held item is never in the falling list.

  The other methods are steps inside these. `ReturnToFalling` keeps
  `Settled()`, which is `Valid()` without the last clause: it appends the
  held item to the list, and `EndDrag` clears the held item right after.
  `EndGame`, `HandleAutoDrop`, `AnimateItem`, `WalkFrame`, `WalkFrameFixed`,
  `StartTimers`, `StopTimers` and `ClearFallingZone` state only the fields
  they change.
- **`Scenario`** (`scenario.dfy`) is a client that plays a short session
  through the public methods.

The geometry the code reads from the page is a `Layout` value passed to each
call: the falling zone's size and client position, the game area's left edge,
and the bins' bounding boxes. The two `Math.random()` values are parameters in
[0, 1). The model applies the code's own formulas to them:
`floor(r * 8)` and `0.3 + r * 0.3`. Positions are `real`.

Behaviour of the code worth knowing:

- **Clamping.** The score is clamped at 0 after every single penalty, so it
  can differ from the running sum clamped once at the end: a miss at 0
  followed by a 10-point sort gives 10, where the clamped sum would be 5
  (`ScoreIsNotClampedSum`).
- **A second press while dragging replaces the held item.** `startDrag` makes
  the new element the held item. It takes that element out of the falling list if it
  is there. The element held before stays on screen, but is no longer falling
  or held.
- **Drops still score after the session ends.** The ended state stops
  spawning and falling, but the items stay on screen, so a drag and drop
  still changes the score.
- **Drop and landing use different coordinates.** A drop uses the bin's full
  rectangle in client coordinates. A landing compares the item's centre
  (zone-relative `x + 45`) with the bin's extent relative to the game area.

## Model

| member | source | states |
|---|---|---|
| Scoring.GarbageTypes | script.js:23-32 | There are exactly eight configured kinds, and every one awards a positive number of points. |
| Scoring.ConfiguredPointsPositive | script.js:24-31 | Any kind taken from the table has positive points, so a correct sort always raises the score. |
| Scoring.Classify | script.js:377-385 | An item counts as correct, with its own points, if and only if its category equals the bin's. Otherwise it is wrong. |
| Scoring.Apply | script.js:377-385 | A correct sort raises the score by exactly its points. A wrong sort or a miss lowers it by 5 when it is at least 5, and sets it to 0 otherwise. A wrong sort or a miss never leaves it negative. |
| Scoring.ScoreAfterNonNegative | script.js:202 | From a non-negative start, any run of correct sorts, wrong sorts and misses leaves the score non-negative. |
| Scoring.ScoreAfterAtLeastSum | script.js:383 | Clamping at every step never loses points: the score is at least the start plus the unclamped sum of the changes. |
| Scoring.ScoreAfterAllCorrect | script.js:379 | With no wrong sort and no miss, the score is exactly the start plus the points earned. |
| Scoring.ScoreIsNotClampedSum | script.js:383 | A miss at 0 followed by a 10-point sort ends at 10. The unclamped sum is 5, so the score is not max(0, sum). |
| Bins.BinAtPosition | script.js:466-482 | Returns the first bin whose inclusive [left, right] extent, relative to the game area, holds x. Returns None exactly when no bin does. |
| Bins.BinAtPositionUnique | script.js:471-481 | Over bins with disjoint extents, the lookup returns the one bin that covers x. |
| Bins.TargetBin | script.js:353-364 | Returns the first bin whose inclusive rectangle holds the pointer. Returns None exactly when no bin does. |
| Bins.TargetBinFirst | script.js:355-362 | Given a covering bin with none before it covering the point, TargetBin returns that bin. |
| Falling.KindIndex | script.js:150 | floor(r * 8) for r in [0, 1) is a valid index into the kind table. |
| Falling.FallSpeed | script.js:172 | A new item's speed lies in [0.3, 0.6). |
| Falling.SpawnX | script.js:159-164 | A new item is horizontally centred: its left and right margins in the zone are equal. |
| Falling.ReturnX | script.js:445 | A released item resumes at the point of [0, width - 90] nearest to the release position, or at 0 when the zone is narrower than an item. |
| Falling.ReturnY | script.js:446 | A released item resumes at the release height, raised to 0 if it is above the top of the zone. |
| Falling.IndexOf | script.js:507 | Finds the first entry holding the element. Returns None exactly when the element is not in the list. |
| Falling.RemoveAt | script.js:509 | Splicing out one entry keeps the list distinct and well-formed, and removes exactly that element. |
| Falling.LandingKeepsScore | script.js:193-205 | Resolving a landed item of a configured kind, against a bin or as a miss, keeps the score non-negative. |
| Falling.FrameScoreNonNegative | script.js:186-210 | One frame, as the code runs it, keeps the score non-negative. |
| Falling.FrameLandings | script.js:193-205 | The resolutions one frame as the code runs it applies, in order: one per visited item that passes the bottom. It has no contract of its own; FrameScoreIsScoreAfter states what it is for. |
| Falling.FrameScoreIsScoreAfter | script.js:193-205 | A frame's score is its landings applied in turn with the per-step clamp, as ScoreAfter does, so it is at least the start plus their unclamped sum. |
| Falling.FrameWellFormed | script.js:186-210 | One frame keeps every remaining item well-formed: configured kind, speed in range, not above the zone. |
| Falling.FrameElements | script.js:186-210 | One frame only removes elements. It never adds or duplicates one. |
| Falling.Advance | script.js:188 | The item one frame later: the same entry with `y` grown by its speed. It has no contract of its own; what a frame does with it is stated by FrameKeeps and FrameIntendedResolvesAll. |
| Falling.Landing | script.js:193-205 | How an item below the zone is resolved: against the first bin whose extent holds its centre, else a miss, classified against that first bin. Its meaning is stated by LandingBinBelow. |
| Falling.LandingBinBelow | script.js:193-205 | A landing is a miss exactly when no bin's extent holds the item's centre `x + 45`. Otherwise the first covering bin decides: the landing is correct, worth the item's own points, exactly when that bin accepts the item's category, and wrong exactly when it does not. |
| Falling.Frame | script.js:186-210 | One frame as the code runs it, with the index moving on after each splice. It has no contract of its own; FrameKeeps, FrameRemovesLanded, FrameOrigins, FrameElements, FrameWellFormed and FrameScoreNonNegative state what it does. |
| Falling.FrameIntended | script.js:186-210 | One frame in which every item is visited once. It has no contract of its own; FrameIntendedResolvesAll, FrameIntendedItems and FrameIntendedScoreNonNegative state what it does. |
| Falling.FrameOrigins | script.js:186-210 | Each item a frame leaves is either an input item the walk skipped, left unchanged, or a visited input item advanced by its speed and still within the zone height. An item is skipped exactly when the item before it was visited and spliced out. |
| Falling.FrameKeeps | script.js:186-210 | Every visited item still within the zone after advancing stays in the list, advanced. Every skipped item stays in the list unchanged. |
| Falling.FrameRemovesLanded | script.js:193-209 | Every visited item that passes the bottom of the zone leaves the list. |
| Falling.FrameAgreesWhenNothingLands | script.js:186-211 | When no item passes the bottom, the frame as written equals the corrected frame: every item advances by its speed. |
| Falling.FrameSkipsSuccessor | script.js:186-210 | When an item lands, the item right behind it is left unmoved in that frame. The corrected frame never leaves it unmoved. |
| Falling.FrameIntendedResolvesAll | script.js:186-210 | In the corrected frame, every kept item was advanced once and is within the zone, and every item still within the zone after advancing is kept. |
| Falling.FrameIntendedItems | script.js:186-210 | The corrected frame keeps the list distinct and well-formed, and only removes elements. |
| Falling.FrameIntendedScoreNonNegative | script.js:186-210 | The corrected frame keeps the score non-negative. |
| Falling.FrameIntendedLandings | script.js:193-205 | The resolutions the corrected frame applies, in order: one per item that passes the bottom. It has no contract of its own; FrameIntendedScoreIsScoreAfter states what it is for. |
| Falling.FrameIntendedScoreIsScoreAfter | script.js:193-205 | The corrected frame's score is its landings applied in turn with the per-step clamp, so it is at least the start plus their unclamped sum. |
| Game.GarbageSortingGame.constructor | script.js:6-20 | A new game is stopped, with score 0, 30 seconds, no timers, no items and nothing held. |
| Game.GarbageSortingGame.StartGame | script.js:69-85 | The state becomes playing, with score 0, 30 seconds and both timers running. There is exactly one falling item: a new element of the picked kind, at the top centre, with the picked speed. |
| Game.GarbageSortingGame.RestartGame | script.js:87-96 | The state becomes stopped, with score 0, 30 seconds, both timers cleared and an empty list, whatever was live before. |
| Game.GarbageSortingGame.EndGame | script.js:98-104 | The state becomes ended and both timers are cleared. |
| Game.GarbageSortingGame.ClearFallingZone | script.js:222-226 | The falling list is empty. |
| Game.GarbageSortingGame.StartTimers | script.js:110-124 | Both the countdown and the spawn timer are scheduled. |
| Game.GarbageSortingGame.StopTimers | script.js:126-135 | Neither timer is scheduled afterwards, whatever the state before, so a second call changes nothing. |
| Game.GarbageSortingGame.CountdownTick | script.js:112-118 | timeLeft drops by exactly 1. At 0 or below, the state becomes ended with both timers cleared. Otherwise play continues. |
| Game.GarbageSortingGame.SpawnGarbage | script.js:146-173 | Changes nothing unless playing. Otherwise it appends one new element, of the picked kind, at x = (width - 90) / 2 and y = 0, with speed in [0.3, 0.6). The rest of the list is unchanged. |
| Game.GarbageSortingGame.AnimateItem | script.js:188-209 | The item's y grows by its speed. If it is then below the zone, it is scored by the classifier against the bin below its centre (or as a miss) and spliced out. Otherwise it stays in place. |
| Game.GarbageSortingGame.AnimateFrame | script.js:182-217 | Nothing happens unless playing. Otherwise the new list and score are those of Frame: each visited item falls, and landed items are resolved and removed, skipping the item after each removal. The invariant is kept. |
| Game.GarbageSortingGame.WalkFrame | script.js:186-210 | The index loop over the list, with the index moving on after a splice, ends with the list and score of Frame. |
| Game.GarbageSortingGame.AnimateFrameFixed | script.js:186-210 | Nothing happens unless playing. Otherwise the new list and score are those of the corrected frame, FrameIntended. The invariant is kept. |
| Game.GarbageSortingGame.WalkFrameFixed | script.js:186-210 | The corrected index loop, which stays on an index after a splice, ends with the list and score of FrameIntended. |
| Game.GarbageSortingGame.HandleAutoDrop | script.js:489-504 | The score becomes the classifier's result for the item's category and points against the bin's category. |
| Game.GarbageSortingGame.HandleDrop | script.js:371-389 | The score is the same as HandleAutoDrop computes. The first entry holding the element is spliced out, and every other entry keeps its place and values. An element not in the list leaves the list unchanged. |
| Game.GarbageSortingGame.RemoveGarbageItem | script.js:506-512 | The first entry holding the element is spliced out, if there is one, and exactly that element leaves the list. |
| Game.GarbageSortingGame.StartDrag | script.js:281-302 | The element becomes the held item, the pointer offset is recorded, and the element is not in the falling list afterwards. If it was in the list, its entry is removed and saved. Otherwise the list and the saved entry are unchanged. |
| Game.GarbageSortingGame.EndDrag | script.js:313-331 | Over a bin, the held item is scored by the drop rule. Otherwise it rejoins the list at the clamped release point with its saved speed. Either way nothing is held afterwards. |
| Game.Returned | script.js:439-447 | A released item keeps its element and saved speed, resumes at `x >= 0` and, when the zone is wide enough, `x <= width - 90`, at `y >= 0` and not above the release point, and is well-formed when its saved entry was. |
| Game.GarbageSortingGame.ReturnToFalling | script.js:433-459 | Appends the held element at the release point, clamped into the zone, with the saved speed. If nothing is held, or no entry was saved, it changes nothing. |
| Scenario.CorrectDrop | script.js:371-389 | After a session starts, one drop of its first item, a 15-point pet bottle, on the resource bin leaves the score at 15. |
| Scenario.MissAfter | script.js:193-205 | An item that passes the bottom of the zone outside every bin costs 5 points: 15 becomes 10. |
| Scenario.PlayShortSession | script.js:371-389 | Start a session, make one correct drop of a 15-point item, then one miss: the score reads 15 and then 10. |

## Findings

| source | as written | input that shows it | evidently intended | confidence | as-written member | corrected member |
|---|---|---|---|---|---|---|
| script.js:186-210 | `splice(index, 1)` inside `forEach`: after a removal the walk moves on to the next index, so the item that slid into the removed slot is not visited | two falling items a, b where a's advanced y exceeds the zone height: a is resolved and removed; b is neither advanced nor checked in that frame | every falling item advances (and, if it passes the bottom, is resolved) once per frame | not executed | Falling.FrameSkipsSuccessor | Falling.FrameIntendedResolvesAll |

`Game.GarbageSortingGame.AnimateFrame` models the code as written, with the
results of `Falling.Frame`. `Game.GarbageSortingGame.AnimateFrameFixed` keeps
the index in place after a splice. Its results are those of
`Falling.FrameIntended`. The `Scenario` client runs the code's
`AnimateFrame`; for its one-item list both frames give the same result.

## Left out

- DOM construction and styling are not modelled, for both garbage nodes and
  popups: `innerHTML`, class lists, `style.*`, `updateDisplay`,
  `clearHighlights` and `highlightTargetBin`. They change nothing the game's
  logic reads.
- `returnToOriginalPosition` is not modelled: it only sets styles and is
  never called.
- `updateDragPosition` is not modelled: it only moves the held node and
  highlights a bin, and changes no game state.
- `showScorePopup` is not modelled: it is purely cosmetic.
- Event wiring is not modelled: `init`, `bindEvents`, the mouse and touch
  adapters, and the `DOMContentLoaded` hook. These only forward pointer
  coordinates to `startDrag`, `updateDragPosition` and `endDrag`.
- Scheduling is not modelled: `setInterval`, `clearInterval`, `setTimeout`
  and the self-rescheduling `requestAnimationFrame` loop. The two timer
  handles are booleans. One frame is one call of `AnimateFrame`. Several
  animation loops running side by side (each spawn and each return starts
  one) are not modelled.
- Interval leaks are not modelled: if `startGame` ran while intervals were
  already scheduled, the browser would run two of each, and booleans cannot
  show that.
- Game.GarbageSortingGame.CountdownTick: requires that the countdown interval
  is scheduled, because the browser runs its body only then.
- Game.GarbageSortingGame.StartDrag: requires the element to have a
  configured kind. Every garbage node is created by `spawnGarbage` from the
  table.
- Game.GarbageSortingGame.HandleDrop: requires the element to have a
  configured kind, for the same reason. Its only caller, `EndDrag`, holds
  such an element.
- `Math.random()` is not modelled. Its two values are parameters in [0, 1),
  so uniformity is not stated.
- Page geometry is given as a `Layout` value per call:
  `getBoundingClientRect`, `offsetWidth` and `offsetHeight`.
- Positions and speeds are exact reals. Floating-point rounding is not
  modelled.
- The `'paused'` state is not modelled: the code never enters it.
