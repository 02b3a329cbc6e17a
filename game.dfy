/** The Game object of game.py: one grid updated in place, the bag, the
    current piece, the queue of upcoming kinds, the hold slot, the flags and
    the score. Every method performs the source's steps on these fields and
    ends in the state that the matching function of module Rules gives;
    module RuleProperties proves what those functions promise. */
module TetrisGame {

  import opened Blocks
  import opened Board
  import opened Rules
  import RuleProperties

  class Game {
    /** self.grid: one Grid for the whole game, reset in place. */
    const grid: Grid
    /** self.blocks: the kinds left in the current bag. */
    var bag: seq<Kind>
    var current: Block
    /** self.next_blocks: a deque of never-moved pieces, kept as their kinds. */
    var nextBlocks: seq<Kind>
    var hold: Option<Block>
    var gameOver: bool
    var holdSwappedThisDrop: bool
    var score: int
    var previousLinesCleared: int
    var comboCount: int

    /** The object's fields as a Rules.State value. */
    ghost function Abstract(): State
      reads this, grid
    {
      State(grid.rows, bag, current, nextBlocks, hold, gameOver,
            holdSwappedThisDrop, score, previousLinesCleared, comboCount)
    }

    ghost predicate Valid()
      reads this, grid, grid.cells
    {
      grid.Valid() && Invariant(Abstract())
    }

    /** Game.__init__: a new empty grid, a full bag, the current piece drawn
        first and then five upcoming ones; no hold, score 0. `choices` are the
        six random picks, each an index into the bag at its draw. */
    constructor (choices: seq<nat>)
      requires |choices| == 6 && ValidChoices(AllKinds, choices)
      ensures Valid() && fresh(grid) && fresh(grid.cells)
      ensures Abstract() == Initial(choices)
    {
      grid := new Grid();
      bag := AllKinds;
      hold := None;
      gameOver := false;
      holdSwappedThisDrop := false;
      score := 0;
      previousLinesCleared := 0;
      comboCount := 0;
      new;
      DrawManyLength(AllKinds, choices);
      var drawn := DrawKinds(choices);
      current := Spawn(drawn[0]);
      nextBlocks := drawn[1..];
      ghost var initial := Initial(choices);
      assert initial.bag == bag && initial.current == current && initial.nextBlocks == nextBlocks;
      assert initial.grid == grid.rows;
      assert Abstract() == initial;
      RuleProperties.InitialFacts(choices);
    }

    /** A run of get_random_block calls, one per pick, collecting the kinds
        in the order drawn (the six draws of __init__). */
    method DrawKinds(choices: seq<nat>) returns (kinds: seq<Kind>)
      requires ValidChoices(bag, choices)
      modifies this`bag
      ensures (kinds, bag) == DrawMany(old(bag), choices)
    {
      ghost var all := DrawMany(bag, choices);
      kinds := [];
      assert choices[0..] == choices;
      for i := 0 to |choices|
        invariant ValidChoices(bag, choices[i..])
        invariant all.0 == kinds + DrawMany(bag, choices[i..]).0
        invariant all.1 == DrawMany(bag, choices[i..]).1
      {
        RuleProperties.DrawManyStep(bag, choices[i..]);
        assert choices[i..][1..] == choices[i + 1..];
        ghost var later := DrawMany(Draw(bag, choices[i]).1, choices[i + 1..]).0;
        var k := GetRandomBlock(choices[i]);
        assert kinds + ([k] + later) == (kinds + [k]) + later;
        kinds := kinds + [k];
      }
      assert DrawMany(bag, choices[|choices|..]) == ([], bag);
      assert kinds + [] == kinds;
    }

    /** Game.is_valid_action: every cell of the current piece is inside the
        grid and empty; the check stops at the first cell that is not. */
    method IsValidAction() returns (ok: bool)
      requires grid.Valid() && WellFormed(current)
      ensures ok == Fits(grid.rows, current)
    {
      var cells := CellPositions(current);
      for i := 0 to 4
        invariant forall j :: 0 <= j < i ==>
          Inside(cells[j].row, cells[j].column) && grid.rows[cells[j].row][cells[j].column] == 0
      {
        if !grid.IsInside(cells[i].row, cells[i].column) || !grid.IsEmptyCell(cells[i].row, cells[i].column) {
          return false;
        }
      }
      return true;
    }

    /** Game.get_random_block: refill an empty bag with all seven kinds, then
        take out the kind at index `choice` (the source's random pick). */
    method GetRandomBlock(choice: nat) returns (k: Kind)
      requires choice < |Refilled(bag)|
      modifies this`bag
      ensures (k, bag) == Draw(old(bag), choice)
    {
      if |bag| == 0 {
        bag := AllKinds;
      }
      k := bag[choice];
      bag := bag[..choice] + bag[choice + 1..];
    }

    /** Game.update_score. */
    method UpdateScore(linesCleared: int, rowsDroppedFrom: int)
      modifies this
      ensures Abstract() == Rules.UpdateScore(old(Abstract()), linesCleared, rowsDroppedFrom)
    {
      var hardDropPoints := rowsDroppedFrom * 2;
      var lineClearPoints;
      if linesCleared == 4 {
        lineClearPoints := linesCleared * 200;
      } else {
        lineClearPoints := linesCleared * 100;
      }
      var backToBackPoints := 0;
      if linesCleared == 4 && previousLinesCleared == 4 {
        backToBackPoints := lineClearPoints;
      }
      var comboPoints := 0;
      if linesCleared > 0 && previousLinesCleared > 0 {
        comboCount := comboCount + 1;
        comboPoints := comboCount * 50;
      }
      score := score + hardDropPoints + lineClearPoints + backToBackPoints + comboPoints;
      previousLinesCleared := if linesCleared > 0 then linesCleared else 0;
      comboCount := if linesCleared == 0 then 0 else comboCount;
    }

    /** Game.move_left */
    method MoveLeft()
      requires Valid()
      modifies this`current
      ensures Valid()
      ensures Abstract() == Rules.MoveLeft(old(Abstract()))
    {
      current := Move(current, 0, -1);
      var ok := IsValidAction();
      if !ok {
        current := Move(current, 0, 1);
      }
    }

    /** Game.move_right */
    method MoveRight()
      requires Valid()
      modifies this`current
      ensures Valid()
      ensures Abstract() == Rules.MoveRight(old(Abstract()))
    {
      current := Move(current, 0, 1);
      var ok := IsValidAction();
      if !ok {
        current := Move(current, 0, -1);
      }
    }

    /** Write the current piece's id into its four cells (the first loop of
        place_block); the piece must be valid. */
    method StampCurrent()
      requires grid.Valid() && WellFormed(current) && Fits(grid.rows, current)
      modifies grid, grid.cells
      ensures grid.Valid()
      ensures grid.rows == Stamp(old(grid.rows), CellPositions(current), Id(current.kind))
    {
      ghost var g := grid.rows;
      CatalogShape(current.kind);
      var cells := CellPositions(current);
      var id := Id(current.kind);
      assert cells[..0] == [];
      StampNothing(g, id);
      for i := 0 to 4
        invariant grid.Valid()
        invariant grid.rows == Stamp(g, cells[..i], id)
      {
        assert cells[..i + 1] == cells[..i] + [cells[i]];
        StampSnoc(g, cells[..i], cells[i], id);
        grid.SetCell(cells[i].row, cells[i].column, id);
      }
      assert cells[..4] == cells;
    }

    /** The game-over loop of place_block: any occupied cell under the new
        current piece sets game_over; it is never cleared here. The cells are
        inside the grid because the current piece has just spawned. */
    method CheckSpawnBlocked()
      requires grid.Valid() && current == Spawn(current.kind)
      modifies this`gameOver
      ensures gameOver == (old(gameOver) || SpawnBlocked(grid.rows, current.kind))
    {
      ghost var wasOver := gameOver;
      SpawnInside(current.kind);
      var cells := CellPositions(current);
      for i := 0 to 4
        invariant gameOver == (wasOver || exists j :: 0 <= j < i && grid.rows[cells[j].row][cells[j].column] != 0)
      {
        if !grid.IsEmptyCell(cells[i].row, cells[i].column) {
          gameOver := true;
        }
      }
    }

    /** The first half of place_block for a valid piece: write it into the
        grid, clear full rows, score them if any, and record the count. */
    method Lock()
      requires Valid() && Fits(grid.rows, current)
      modifies this, grid, grid.cells
      ensures Valid()
      ensures Abstract() == Rules.Lock(old(Abstract()))
    {
      ghost var s := Abstract();
      LockShape(s);
      ghost var stamped := Stamp(s.grid, CellPositions(s.current), Id(s.current.kind));
      StampCurrent();
      var rowsCleared := grid.ClearFullRows();
      assert Abstract() == s.(grid := Cleared(stamped));
      if rowsCleared > 0 {
        UpdateScore(rowsCleared, 0);
      }
      previousLinesCleared := rowsCleared;
      assert Abstract() == Rules.Lock(s);
    }

    /** The second half of place_block: pop the queue's front into the current
        piece, append a drawn kind, clear the hold flag, check for game over. */
    method NextPiece(choice: nat)
      requires grid.Valid() && |nextBlocks| > 0 && choice < |Refilled(bag)|
      modifies this
      ensures grid.Valid()
      ensures Abstract() == Rules.NextPiece(old(Abstract()), choice)
    {
      ghost var s := Abstract();
      current := Spawn(nextBlocks[0]);
      nextBlocks := nextBlocks[1..];
      var drawn := GetRandomBlock(choice);
      nextBlocks := nextBlocks + [drawn];
      holdSwappedThisDrop := false;
      CheckSpawnBlocked();
      assert Abstract() == Rules.NextPiece(s, choice);
    }

    /** Game.place_block: lock a valid piece and take the next one; an invalid
        piece is only rotated. */
    method PlaceBlock(choice: nat)
      requires Valid() && QueueReady(Abstract(), current) && choice < |Refilled(bag)|
      modifies this, grid, grid.cells
      ensures Valid()
      ensures Abstract() == Rules.PlaceBlock(old(Abstract()), choice)
    {
      ghost var s := Abstract();
      RuleProperties.PlaceBlockPreserves(s, choice);
      var ok := IsValidAction();
      if ok {
        Lock();
        NextPiece(choice);
      } else {
        current := Blocks.Rotate(current);
      }
      assert Abstract() == Rules.PlaceBlock(s, choice);
    }

    /** Game.soft_drop: one row down; if that is invalid, back up and lock. */
    method SoftDrop(choice: nat)
      requires Valid() && choice < |Refilled(bag)|
      requires !Fits(grid.rows, Move(current, 1, 0)) ==> QueueReady(Abstract(), current)
      modifies this, grid, grid.cells
      ensures Valid()
      ensures Abstract() == Rules.SoftDrop(old(Abstract()), choice)
    {
      current := Move(current, 1, 0);
      var ok := IsValidAction();
      if !ok {
        current := Move(current, -1, 0);
        PlaceBlock(choice);
      }
    }

    /** The loop of hard_drop: move down one row at a time while the result is
        valid; the piece ends at the last valid row and the count is the
        number of rows descended. */
    method Descend() returns (rowDroppedFrom: nat)
      requires grid.Valid() && WellFormed(current)
      modifies this`current
      ensures WellFormed(current)
      ensures rowDroppedFrom == DropDistance(grid.rows, old(current))
      ensures current == Move(old(current), rowDroppedFrom, 0)
    {
      ghost var start := current;
      rowDroppedFrom := 0;
      while true
        invariant WellFormed(current) && current == Move(start, rowDroppedFrom, 0)
        invariant DropDistance(grid.rows, start) == rowDroppedFrom + DropDistance(grid.rows, current)
        decreases DropDistance(grid.rows, current)
      {
        ghost var before := current;
        current := Move(current, 1, 0);
        var ok := IsValidAction();
        if !ok {
          current := Move(current, -1, 0);
          assert current == before && DropDistance(grid.rows, before) == 0;
          break;
        }
        assert DropDistance(grid.rows, before) == 1 + DropDistance(grid.rows, current);
        rowDroppedFrom := rowDroppedFrom + 1;
      }
    }

    /** Game.hard_drop: move down until the next row is invalid, lock there,
        and return the number of rows descended. The source locks inside the
        loop, just before leaving it. */
    method HardDrop(choice: nat) returns (rowDroppedFrom: nat)
      requires Valid() && choice < |Refilled(bag)|
      requires QueueReady(Abstract(), Move(current, DropDistance(grid.rows, current), 0))
      modifies this, grid, grid.cells
      ensures Valid()
      ensures (Abstract(), rowDroppedFrom) == Rules.HardDrop(old(Abstract()), choice)
    {
      ghost var s := Abstract();
      rowDroppedFrom := Descend();
      assert Abstract() == s.(current := Move(s.current, rowDroppedFrom, 0));
      PlaceBlock(choice);
    }

    /** The driver's hard-drop key (main.py): hard_drop, then
        update_score(0, rows descended). */
    method HardDropKey(choice: nat)
      requires Valid() && choice < |Refilled(bag)|
      requires QueueReady(Abstract(), Move(current, DropDistance(grid.rows, current), 0))
      modifies this, grid, grid.cells
      ensures Valid()
      ensures Abstract() == HardDropIntent(old(Abstract()), choice)
    {
      var rowDroppedFrom := HardDrop(choice);
      UpdateScore(0, rowDroppedFrom);
    }

    /** Game.hold_block */
    method HoldBlock()
      requires Valid()
      requires hold.None? && !holdSwappedThisDrop ==> |nextBlocks| > 0
      modifies this
      ensures Valid()
      ensures Abstract() == Rules.HoldBlock(old(Abstract()))
    {
      ghost var s := Abstract();
      RuleProperties.HoldFacts(s);
      if hold.None? && !holdSwappedThisDrop {
        hold := Some(current);
        current := Spawn(nextBlocks[0]);
        nextBlocks := nextBlocks[1..];
        holdSwappedThisDrop := true;
      } else if !holdSwappedThisDrop {
        var incoming := hold.value;
        hold := Some(current);
        current := incoming;
        current := Move(current, 0, 3);
        holdSwappedThisDrop := true;
      }
      assert Abstract() == Rules.HoldBlock(s);
    }

    /** The hold slot's reset_hold_block, run by Game.draw whenever a piece is
        held. */
    method ResetHeldBlock()
      requires Valid()
      modifies this
      ensures Valid()
      ensures Abstract() == ResetHeld(old(Abstract()))
    {
      if hold.Some? {
        hold := Some(ResetHoldBlock(hold.value));
      }
    }

    /** Game.reset */
    method Reset(choice: nat)
      requires Valid() && choice < |Refilled(bag)|
      modifies this, grid, grid.cells
      ensures Valid()
      ensures Abstract() == Rules.Reset(old(Abstract()), choice)
    {
      ghost var s := Abstract();
      RuleProperties.ResetFacts(s, choice);
      grid.ResetGrid();
      var drawn := GetRandomBlock(choice);
      nextBlocks := nextBlocks + [drawn];
      current := Spawn(nextBlocks[0]);
      nextBlocks := nextBlocks[1..];
      hold := None;
      score := 0;
      assert Abstract() == Rules.Reset(s, choice);
    }

    /** Game.try_kicking, on the already rotated current piece; only the
        current piece changes. */
    method TryKicking()
      requires grid.Valid() && WellFormed(current)
      modifies this`current
      ensures WellFormed(current)
      ensures current == Rules.TryKicking(grid.rows, old(current))
    {
      ghost var b := current;
      var blockWidth := if current.kind == I then 4 else 3;
      if current.columnOffset < 0 {
        current := Move(current, 0, if current.kind == I then 2 else 1);
        current := Blocks.Rotate(current);
        var ok := IsValidAction();
        if !ok {
          current := Move(current, 0, if current.kind == I then -2 else -1);
          current := UndoRotation(current);
        }
      } else if current.columnOffset + blockWidth >= NumCols {
        if current.kind == I {
          current := Move(current, 0, -2);
          current := Blocks.Rotate(current);
          var ok := IsValidAction();
          if !ok {
            current := Move(current, 0, 2);
            current := UndoRotation(current);
          }
        } else {
          current := Move(current, 0, -1);
          current := Blocks.Rotate(current);
          var ok := IsValidAction();
          if !ok {
            current := Move(current, 0, 1);
            current := UndoRotation(current);
          }
        }
      }
      assert current == Rules.TryKicking(grid.rows, b);
    }

    /** Game.rotate: rotate; if invalid, try a kick and then undo one rotation. */
    method Rotate()
      requires Valid()
      modifies this`current
      ensures Valid()
      ensures Abstract() == Rules.RotateIntent(old(Abstract()))
    {
      current := Blocks.Rotate(current);
      var ok := IsValidAction();
      if !ok {
        TryKicking();
        current := UndoRotation(current);
      }
    }
  }
}
