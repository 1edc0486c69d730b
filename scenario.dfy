/**
 * A client of the session object: a short game played through its public
 * methods, showing what their contracts let a caller conclude.
 */
module Scenario {
  import opened Options
  import opened Scoring
  import opened Bins
  import opened Falling
  import opened Game

  /** A zone 400 wide and 500 high, with a combustible and a resource bin at the bottom left. */
  function ShortLayout(): Layout {
    Layout(400.0, 500.0, 0.0, 100.0, 0.0,
           [Bin(Combustible, 0.0, 90.0, 600.0, 700.0), Bin(Resource, 100.0, 190.0, 600.0, 700.0)])
  }

  /** Start a session and drop its first item, a 15-point pet bottle, on the resource bin: the score reads 15. */
  method CorrectDrop() returns (game: GarbageSortingGame)
    ensures fresh(game) && game.Valid() && game.gameState == Playing && game.score == 15
    ensures game.fallingItems == [] && game.draggedItem == None
  {
    var lay := ShortLayout();
    game := new GarbageSortingGame();
    game.StartGame(lay, 0.3, 0.0);
    assert KindIndex(0.3) == 2;
    var first := game.fallingItems[0].element;
    assert first.kind == GarbageKind("pet-bottle", Resource, 15);
    game.StartDrag(first, 200.0, 120.0, 155.0, 100.0);
    assert game.fallingItems == [];
    assert TargetBin(lay.bins, 150.0, 650.0) == Some(1);
    game.EndDrag(150.0, 650.0, lay);
  }

  /**
   * Spawn an item, release it outside every bin below the bottom of the
   * zone, and run one frame: it lands outside every bin and the score
   * drops by the 5-point penalty.
   */
  method MissAfter(game: GarbageSortingGame)
    requires game.Valid() && game.gameState == Playing && game.score == 15
    requires game.fallingItems == [] && game.draggedItem == None
    modifies game
    ensures game.score == 10
  {
    var lay := ShortLayout();
    game.SpawnGarbage(lay, 0.0, 0.0);
    var second := game.fallingItems[0].element;
    assert game.fallingItems == [FallingItem(second, 155.0, 0.0, 0.3)];
    game.StartDrag(second, 350.0, 150.0, 155.0, 100.0);
    assert game.fallingItems == [] && game.dragOffset == Offset(195.0, 50.0);
    assert TargetBin(lay.bins, 350.0, 700.0) == None;
    game.EndDrag(350.0, 700.0, lay);
    ghost var returned := FallingItem(second, 155.0, 550.0, 0.3);
    assert game.fallingItems == [returned];
    assert BinAtPosition(lay.bins, 0.0, 200.0) == None;
    assert Frame([returned], 15, lay) == FrameResult([], 10);
    game.AnimateFrame(lay);
  }

  /** The two steps in a row: 15 after the correct drop, then 10 after the miss. */
  method PlayShortSession() returns (afterDrop: int, afterMiss: int)
    ensures afterDrop == 15 && afterMiss == 10
  {
    var game := CorrectDrop();
    afterDrop := game.score;
    MissAfter(game);
    afterMiss := game.score;
  }
}
