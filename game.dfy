/**
 * The game session: one object whose fields the start, restart and end
 * buttons, the two interval timers, the animation frames and the drag
 * gestures update in place.
 */
module Game {
  import opened Options
  import opened Scoring
  import opened Bins
  import opened Falling

  /** The phases a session goes through. */
  datatype GameState = Stopped | Playing | Ended

  /** Seconds on the countdown when a session starts. */
  const GameDuration: int := 30

  /** The distance from the dragged element's top-left corner to the pointer. */
  datatype Offset = Offset(x: real, y: real)

  /** Where a released item resumes falling: the release point made relative to the falling zone, clamped, with its saved speed. */
  function Returned(element: Garbage, saved: FallingItem, offset: Offset, clientX: real, clientY: real, lay: Layout): (r: FallingItem)
    ensures r.element == element && r.speed == saved.speed
    ensures 0.0 <= r.x && (lay.zoneWidth >= ItemWidth ==> r.x <= lay.zoneWidth - ItemWidth)
    ensures r.y >= 0.0 && r.y >= clientY - lay.zoneTop - offset.y
    ensures WellFormed(saved) && Configured(element.kind) ==> WellFormed(r)
  {
    FallingItem(element,
                ReturnX(clientX - lay.zoneLeft - offset.x, lay.zoneWidth),
                ReturnY(clientY - lay.zoneTop - offset.y),
                saved.speed)
  }

  class GarbageSortingGame {
    var gameState: GameState
    var score: int
    var timeLeft: int
    /** Whether the one-second countdown interval is scheduled. */
    var gameTimer: bool
    /** Whether the spawn interval is scheduled. */
    var spawnTimer: bool
    var fallingItems: seq<FallingItem>
    var draggedItem: Option<Garbage>
    var draggedItemData: Option<FallingItem>
    var dragOffset: Offset

    /**
     * Everything the session keeps true between events, except where the
     * held item is: the score is never negative, the countdown stays within
     * its range and is positive while playing, the timers run exactly while
     * playing, the falling items are distinct and well-formed, and the saved
     * data of a held item is well-formed too.
     */
    ghost predicate Settled()
      reads this
    {
      score >= 0 &&
      0 <= timeLeft <= GameDuration &&
      (gameState == Playing ==> timeLeft >= 1) &&
      gameTimer == (gameState == Playing) &&
      spawnTimer == (gameState == Playing) &&
      AllWellFormed(fallingItems) && Distinct(fallingItems) &&
      (draggedItem.None? ==> draggedItemData.None?) &&
      (draggedItem.Some? ==> Configured(draggedItem.value.kind)) &&
      (draggedItemData.Some? ==> WellFormed(draggedItemData.value))
    }

    /** The held item is never also in the falling list. */
    ghost predicate HeldApart()
      reads this
    {
      draggedItem.Some? ==> draggedItem.value !in Elements(fallingItems)
    }

    ghost predicate Valid()
      reads this
    {
      Settled() && HeldApart()
    }

    constructor ()
      ensures Valid()
      ensures gameState == Stopped && score == 0 && timeLeft == GameDuration
      ensures !gameTimer && !spawnTimer
      ensures fallingItems == [] && draggedItem == None && draggedItemData == None
      ensures dragOffset == Offset(0.0, 0.0)
    {
      gameState := Stopped;
      score := 0;
      timeLeft := GameDuration;
      gameTimer := false;
      spawnTimer := false;
      fallingItems := [];
      draggedItem := None;
      draggedItemData := None;
      dragOffset := Offset(0.0, 0.0);
    }

    /** Start a session: reset the score, the countdown and the list, start both timers and spawn the first item. */
    method StartGame(lay: Layout, typeRoll: real, speedRoll: real)
      requires Valid()
      requires 0.0 <= typeRoll < 1.0 && 0.0 <= speedRoll < 1.0
      modifies this`gameState, this`score, this`timeLeft, this`gameTimer, this`spawnTimer, this`fallingItems
      ensures Valid()
      ensures gameState == Playing && score == 0 && timeLeft == GameDuration
      ensures gameTimer && spawnTimer
      ensures |fallingItems| == 1 && fresh(fallingItems[0].element)
      ensures fallingItems[0].element.kind == GarbageTypes()[KindIndex(typeRoll)]
      ensures fallingItems[0].x == SpawnX(lay.zoneWidth) && fallingItems[0].y == 0.0
      ensures fallingItems[0].speed == FallSpeed(speedRoll)
    {
      gameState := Playing;
      score := 0;
      timeLeft := GameDuration;
      fallingItems := [];
      ClearFallingZone();
      StartTimers();
      SpawnGarbage(lay, typeRoll, speedRoll);
    }

    /** Back to the start screen: stop the timers, clear the list, reset the score and the countdown. */
    method RestartGame()
      requires Valid()
      modifies this`gameState, this`score, this`timeLeft, this`gameTimer, this`spawnTimer, this`fallingItems
      ensures Valid()
      ensures gameState == Stopped && score == 0 && timeLeft == GameDuration
      ensures !gameTimer && !spawnTimer && fallingItems == []
    {
      StopTimers();
      ClearFallingZone();
      gameState := Stopped;
      score := 0;
      timeLeft := GameDuration;
    }

    /** End the session and stop both timers; the score and the items are left as they are. */
    method EndGame()
      modifies this`gameState, this`gameTimer, this`spawnTimer
      ensures gameState == Ended && !gameTimer && !spawnTimer
    {
      gameState := Ended;
      StopTimers();
    }

    /** Empty the falling list (the zone's nodes go with it); a held item is not touched. */
    method ClearFallingZone()
      modifies this`fallingItems
      ensures fallingItems == []
    {
      fallingItems := [];
    }

    method StartTimers()
      modifies this`gameTimer, this`spawnTimer
      ensures gameTimer && spawnTimer
    {
      gameTimer := true;
      spawnTimer := true;
    }

    /** Cancel whichever timers are scheduled; afterwards neither is, so a second call changes nothing. */
    method StopTimers()
      modifies this`gameTimer, this`spawnTimer
      ensures !gameTimer && !spawnTimer
    {
      if gameTimer {
        gameTimer := false;
      }
      if spawnTimer {
        spawnTimer := false;
      }
    }

    /** The body of the one-second countdown interval, which runs only while that interval is scheduled. */
    method CountdownTick()
      requires Valid() && gameTimer
      modifies this`timeLeft, this`gameState, this`gameTimer, this`spawnTimer
      ensures Valid()
      ensures timeLeft == old(timeLeft) - 1
      ensures timeLeft <= 0 ==> gameState == Ended && !gameTimer && !spawnTimer
      ensures timeLeft > 0 ==> gameState == Playing && gameTimer && spawnTimer
    {
      timeLeft := timeLeft - 1;
      if timeLeft <= 0 {
        EndGame();
      }
    }

    /** Append one new item at the top centre of the zone, of the kind and speed the two random numbers pick; nothing happens unless playing. */
    method SpawnGarbage(lay: Layout, typeRoll: real, speedRoll: real)
      requires Valid()
      requires 0.0 <= typeRoll < 1.0 && 0.0 <= speedRoll < 1.0
      modifies this`fallingItems
      ensures Valid()
      ensures gameState != Playing ==> fallingItems == old(fallingItems)
      ensures gameState == Playing ==>
        |fallingItems| == |old(fallingItems)| + 1 &&
        fallingItems[..|old(fallingItems)|] == old(fallingItems) &&
        fresh(fallingItems[|old(fallingItems)|].element) &&
        fallingItems[|old(fallingItems)|].element.kind == GarbageTypes()[KindIndex(typeRoll)] &&
        fallingItems[|old(fallingItems)|].x == SpawnX(lay.zoneWidth) &&
        fallingItems[|old(fallingItems)|].y == 0.0 &&
        fallingItems[|old(fallingItems)|].speed == FallSpeed(speedRoll)
    {
      if gameState != Playing {
        return;
      }
      var kind := GarbageTypes()[KindIndex(typeRoll)];
      var element := new Garbage(kind);
      var item := FallingItem(element, SpawnX(lay.zoneWidth), 0.0, FallSpeed(speedRoll));
      assert element !in Elements(fallingItems);
      Append(fallingItems, item);
      fallingItems := fallingItems + [item];
    }

    /**
     * The per-item body of a frame: the item at `index` falls by its speed;
     * if it is now below the zone it is resolved against the bin below its
     * centre (or counted as a miss) and spliced out of the list.
     */
    method AnimateItem(index: nat, lay: Layout) returns (landed: bool)
      requires index < |fallingItems|
      modifies this`fallingItems, this`score
      ensures landed == (Advance(old(fallingItems)[index]).y > lay.zoneHeight)
      ensures landed ==>
        fallingItems == old(fallingItems)[..index] + old(fallingItems)[index + 1..] &&
        score == Apply(old(score), Landing(Advance(old(fallingItems)[index]), lay))
      ensures !landed ==>
        fallingItems == old(fallingItems)[index := Advance(old(fallingItems)[index])] &&
        score == old(score)
    {
      var item := fallingItems[index];
      var moved := item.(y := item.y + item.speed);
      fallingItems := fallingItems[index := moved];
      landed := moved.y > lay.zoneHeight;
      if landed {
        var targetBin := BinAtPosition(lay.bins, lay.areaLeft, moved.x + HalfItemWidth);
        if targetBin.Some? {
          HandleAutoDrop(moved.element, lay.bins[targetBin.value]);
        } else {
          score := if score - Penalty > 0 then score - Penalty else 0;
        }
        assert fallingItems[..index] + fallingItems[index + 1..] == old(fallingItems)[..index] + old(fallingItems)[index + 1..];
        fallingItems := fallingItems[..index] + fallingItems[index + 1..];
      }
    }

    /**
     * One animation frame as the code runs it: nothing unless playing;
     * otherwise the list is walked by index, and because the index moves on
     * after a splice, the item sliding into a removed item's place is not
     * visited in this frame.
     */
    method AnimateFrame(lay: Layout)
      requires Valid()
      modifies this`fallingItems, this`score
      ensures Valid()
      ensures old(gameState) != Playing ==> fallingItems == old(fallingItems) && score == old(score)
      ensures old(gameState) == Playing ==>
        FrameResult(fallingItems, score) == Frame(old(fallingItems), old(score), lay)
    {
      if gameState != Playing {
        return;
      }
      FrameWellFormed(fallingItems, score, lay);
      FrameElements(fallingItems, score, lay);
      FrameScoreNonNegative(fallingItems, score, lay);
      WalkFrame(lay);
    }

    /** The walk over the list inside a frame: each visited item falls, and the index moves on even after a splice. */
    method WalkFrame(lay: Layout)
      modifies this`fallingItems, this`score
      ensures FrameResult(fallingItems, score) == Frame(old(fallingItems), old(score), lay)
    {
      ghost var target := Frame(fallingItems, score, lay);
      FrameBounds(fallingItems, score, lay, target);
      var i := 0;
      while i < |fallingItems|
        invariant i <= |fallingItems| + 1
        invariant FrameInProgress(fallingItems, i, score, lay, target)
        decreases |fallingItems| + 1 - i
      {
        ghost var before := fallingItems;
        ghost var scoreBefore := score;
        var landed := AnimateItem(i, lay);
        if landed {
          FrameStepLands(before, i, scoreBefore, lay, target);
        } else {
          FrameStepStays(before, i, scoreBefore, lay, target);
        }
        i := i + 1;
      }
      FrameBounds(fallingItems, score, lay, target);
    }

    /** The same frame with the skip corrected: after a splice the index stays put, so every item is visited once. */
    method AnimateFrameFixed(lay: Layout)
      requires Valid()
      modifies this`fallingItems, this`score
      ensures Valid()
      ensures old(gameState) != Playing ==> fallingItems == old(fallingItems) && score == old(score)
      ensures old(gameState) == Playing ==>
        FrameResult(fallingItems, score) == FrameIntended(old(fallingItems), old(score), lay)
    {
      if gameState != Playing {
        return;
      }
      FrameIntendedItems(fallingItems, score, lay);
      FrameIntendedScoreNonNegative(fallingItems, score, lay);
      WalkFrameFixed(lay);
    }

    /** The corrected walk: the index moves on only past an item that stays, so every item is visited once. */
    method WalkFrameFixed(lay: Layout)
      modifies this`fallingItems, this`score
      ensures FrameResult(fallingItems, score) == FrameIntended(old(fallingItems), old(score), lay)
    {
      ghost var target := FrameIntended(fallingItems, score, lay);
      FrameIntendedBounds(fallingItems, score, lay, target);
      var i := 0;
      while i < |fallingItems|
        invariant FrameIntendedInProgress(fallingItems, i, score, lay, target)
        decreases |fallingItems| - i
      {
        ghost var before := fallingItems;
        ghost var scoreBefore := score;
        var landed := AnimateItem(i, lay);
        if landed {
          FrameIntendedStepLands(before, i, scoreBefore, lay, target);
        } else {
          FrameIntendedStepStays(before, i, scoreBefore, lay, target);
          i := i + 1;
        }
      }
      FrameIntendedBounds(fallingItems, score, lay, target);
    }

    /** Scoring of an item that fell into a bin: its points when the bin accepts its category, otherwise the floored penalty. */
    method HandleAutoDrop(element: Garbage, bin: Bin)
      modifies this`score
      ensures score == Apply(old(score), Classify(element.kind.category, element.kind.points, bin.accepts))
    {
      if element.kind.category == bin.accepts {
        score := score + element.kind.points;
      } else {
        score := if score - Penalty > 0 then score - Penalty else 0;
      }
    }

    /** Scoring of an item dropped on a bin by hand, by the same rule as HandleAutoDrop; the item is then removed from the list. */
    method HandleDrop(element: Garbage, bin: Bin)
      requires Valid() && Configured(element.kind)
      modifies this`score, this`fallingItems
      ensures Valid()
      ensures score == Apply(old(score), Classify(element.kind.category, element.kind.points, bin.accepts))
      ensures IndexOf(old(fallingItems), element).None? ==> fallingItems == old(fallingItems)
      ensures IndexOf(old(fallingItems), element).Some? ==>
        var i := IndexOf(old(fallingItems), element).value;
        fallingItems == old(fallingItems)[..i] + old(fallingItems)[i + 1..]
      ensures Elements(fallingItems) == Elements(old(fallingItems)) - {element}
      ensures element !in Elements(old(fallingItems)) ==> fallingItems == old(fallingItems)
    {
      ConfiguredPointsPositive(element.kind);
      if element.kind.category == bin.accepts {
        score := score + element.kind.points;
      } else {
        score := if score - Penalty > 0 then score - Penalty else 0;
      }
      RemoveGarbageItem(element);
    }

    /** Splice out the first entry holding `element`, if there is one. */
    method RemoveGarbageItem(element: Garbage)
      requires Valid()
      modifies this`fallingItems
      ensures Valid()
      ensures IndexOf(old(fallingItems), element).None? ==> fallingItems == old(fallingItems)
      ensures IndexOf(old(fallingItems), element).Some? ==>
        var i := IndexOf(old(fallingItems), element).value;
        fallingItems == old(fallingItems)[..i] + old(fallingItems)[i + 1..]
      ensures Elements(fallingItems) == Elements(old(fallingItems)) - {element}
    {
      var index := IndexOf(fallingItems, element);
      if index.Some? {
        RemoveAt(fallingItems, index.value);
        fallingItems := fallingItems[..index.value] + fallingItems[index.value + 1..];
      }
    }

    /**
     * Pick up an element: remember the pointer offset and, when the element
     * is in the falling list, take it out and keep its entry as the saved
     * data. An element that is not in the list (one still held, or one
     * orphaned by an earlier press) becomes the held item with the saved
     * data left as it was.
     */
    method StartDrag(element: Garbage, clientX: real, clientY: real, rectLeft: real, rectTop: real)
      requires Valid() && Configured(element.kind)
      modifies this`draggedItem, this`dragOffset, this`draggedItemData, this`fallingItems
      ensures Valid()
      ensures draggedItem == Some(element) && element !in Elements(fallingItems)
      ensures dragOffset == Offset(clientX - rectLeft, clientY - rectTop)
      ensures IndexOf(old(fallingItems), element).None? ==>
        fallingItems == old(fallingItems) && draggedItemData == old(draggedItemData)
      ensures IndexOf(old(fallingItems), element).Some? ==>
        var i := IndexOf(old(fallingItems), element).value;
        draggedItemData == Some(old(fallingItems)[i]) &&
        fallingItems == old(fallingItems)[..i] + old(fallingItems)[i + 1..]
    {
      draggedItem := Some(element);
      dragOffset := Offset(clientX - rectLeft, clientY - rectTop);
      var itemIndex := IndexOf(fallingItems, element);
      if itemIndex.Some? {
        draggedItemData := Some(fallingItems[itemIndex.value]);
        RemoveAt(fallingItems, itemIndex.value);
        fallingItems := fallingItems[..itemIndex.value] + fallingItems[itemIndex.value + 1..];
      }
    }

    /**
     * Release the held item: onto the first bin under the pointer, scored by
     * the drop rule, or else back into the falling list. Either way nothing
     * is held afterwards.
     */
    method EndDrag(clientX: real, clientY: real, lay: Layout)
      requires Valid()
      modifies this`score, this`fallingItems, this`draggedItem, this`draggedItemData
      ensures Valid()
      ensures draggedItem == None && draggedItemData == None
      ensures old(draggedItem).None? ==> score == old(score) && fallingItems == old(fallingItems)
      ensures old(draggedItem).Some? && TargetBin(lay.bins, clientX, clientY).Some? ==>
        var element := old(draggedItem).value;
        score == Apply(old(score), Classify(element.kind.category, element.kind.points,
                                            lay.bins[TargetBin(lay.bins, clientX, clientY).value].accepts)) &&
        fallingItems == old(fallingItems)
      ensures old(draggedItem).Some? && TargetBin(lay.bins, clientX, clientY).None? ==>
        score == old(score) &&
        (old(draggedItemData).None? ==> fallingItems == old(fallingItems)) &&
        (old(draggedItemData).Some? ==>
           fallingItems == old(fallingItems) +
             [Returned(old(draggedItem).value, old(draggedItemData).value, dragOffset, clientX, clientY, lay)])
    {
      if draggedItem.None? {
        return;
      }
      var targetBin := TargetBin(lay.bins, clientX, clientY);
      if targetBin.Some? {
        HandleDrop(draggedItem.value, lay.bins[targetBin.value]);
      } else {
        ReturnToFalling(clientX, clientY, lay);
      }
      draggedItem := None;
      draggedItemData := None;
    }

    /** Put the held item back into the falling list at the release point, clamped into the zone, with the speed it had. */
    method ReturnToFalling(clientX: real, clientY: real, lay: Layout)
      requires Valid()
      modifies this`fallingItems
      ensures Settled()
      ensures draggedItem.None? || draggedItemData.None? ==> fallingItems == old(fallingItems)
      ensures draggedItem.Some? && draggedItemData.Some? ==>
        fallingItems == old(fallingItems) +
          [Returned(draggedItem.value, draggedItemData.value, dragOffset, clientX, clientY, lay)]
    {
      if draggedItem.None? || draggedItemData.None? {
        return;
      }
      var relativeX := clientX - lay.zoneLeft - dragOffset.x;
      var relativeY := clientY - lay.zoneTop - dragOffset.y;
      var newItem := FallingItem(draggedItem.value,
                                 MaxR(0.0, MinR(relativeX, lay.zoneWidth - ItemWidth)),
                                 MaxR(0.0, relativeY),
                                 draggedItemData.value.speed);
      Append(fallingItems, newItem);
      fallingItems := fallingItems + [newItem];
    }
  }
}
