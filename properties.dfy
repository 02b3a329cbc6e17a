/** What the rules of game.py guarantee, proved about the value-level rules. */
module RuleProperties {

  import opened Blocks
  import opened Board
  import opened Rules

  // ---------------------------------------------------------------------------
  // The bag randomizer

  lemma DistinctCons(k: Kind, ks: seq<Kind>)
    requires Distinct(ks) && k !in ks
    ensures Distinct([k] + ks)
  {
  }

  lemma AllKindsDistinct()
    ensures Distinct(AllKinds) && |AllKinds| == 7
    ensures forall k: Kind :: k in AllKinds
  {
    forall k: Kind ensures k in AllKinds {
      match k
      case I => assert AllKinds[0] == k;
      case J => assert AllKinds[1] == k;
      case L => assert AllKinds[2] == k;
      case O => assert AllKinds[3] == k;
      case S => assert AllKinds[4] == k;
      case T => assert AllKinds[5] == k;
      case Z => assert AllKinds[6] == k;
    }
  }

  /** get_random_block: the drawn kind comes out of the (refilled) bag and is
      no longer in it; nothing else leaves the bag; a bag without repeats stays
      without repeats. */
  lemma DrawFacts(bag: seq<Kind>, choice: nat)
    requires Distinct(bag) && choice < |Refilled(bag)|
    ensures var (k, rest) := Draw(bag, choice);
      k in Refilled(bag) && k !in rest && Distinct(rest) &&
      |rest| == |Refilled(bag)| - 1 &&
      multiset(rest) + multiset{k} == multiset(Refilled(bag))
  {
    AllKindsDistinct();
    var b := Refilled(bag);
    assert b == b[..choice] + [b[choice]] + b[choice + 1..];
    var rest := b[..choice] + b[choice + 1..];
    forall i, j | 0 <= i < j < |rest| ensures rest[i] != rest[j] {
      var i' := if i < choice then i else i + 1;
      var j' := if j < choice then j else j + 1;
      assert rest[i] == b[i'] && rest[j] == b[j'];
    }
    forall i | 0 <= i < |rest| ensures rest[i] != b[choice] {
      var i' := if i < choice then i else i + 1;
      assert rest[i] == b[i'];
    }
  }

  /** One draw followed by the rest of a sequence of draws. */
  lemma DrawManyStep(bag: seq<Kind>, choices: seq<nat>)
    requires choices != [] && ValidChoices(bag, choices)
    ensures var rest := Draw(bag, choices[0]).1;
      ValidChoices(rest, choices[1..]) &&
      DrawMany(bag, choices).0 == [Draw(bag, choices[0]).0] + DrawMany(rest, choices[1..]).0 &&
      DrawMany(bag, choices).1 == DrawMany(rest, choices[1..]).1
  {
  }

  /** Putting a kind that is not in a partition of `rest` in front of it. */
  lemma PartitionCons(k: Kind, rest: seq<Kind>, ks: seq<Kind>, left: seq<Kind>)
    requires multiset(ks) + multiset(left) == multiset(rest) && Distinct(ks + left) && k !in rest
    ensures multiset([k] + ks) + multiset(left) == multiset(rest) + multiset{k}
    ensures Distinct([k] + ks + left)
  {
    assert multiset(ks + left) == multiset(rest);
    assert k !in multiset(ks + left);
    DistinctCons(k, ks + left);
    assert [k] + ks + left == [k] + (ks + left);
  }

  /** Drawing from a non-empty bag at most as many times as it holds: no refill
      happens, the drawn kinds and what is left partition the bag, and no kind
      is drawn twice. */
  lemma {:induction false} DrawsWithoutRefill(bag: seq<Kind>, choices: seq<nat>)
    requires Distinct(bag) && 0 < |bag| && |choices| <= |bag| && ValidChoices(bag, choices)
    ensures multiset(DrawMany(bag, choices).0) + multiset(DrawMany(bag, choices).1) == multiset(bag)
    ensures Distinct(DrawMany(bag, choices).0 + DrawMany(bag, choices).1)
    ensures |DrawMany(bag, choices).0| == |choices|
    ensures |DrawMany(bag, choices).1| == |bag| - |choices|
    decreases |choices|
  {
    if choices == [] {
      assert DrawMany(bag, choices) == ([], bag);
    } else {
      DrawFacts(bag, choices[0]);
      DrawManyStep(bag, choices);
      var k := Draw(bag, choices[0]).0;
      var rest := Draw(bag, choices[0]).1;
      if |rest| == 0 {
        assert choices[1..] == [];
        assert DrawMany(rest, choices[1..]) == ([], []);
      } else {
        DrawsWithoutRefill(rest, choices[1..]);
        PartitionCons(k, rest, DrawMany(rest, choices[1..]).0, DrawMany(rest, choices[1..]).1);
      }
    }
  }

  /** A bag cycle: as many draws as the (refilled) bag holds yield each of its
      kinds exactly once and leave the bag empty, so the next draw refills it.
      From an empty bag that is each of the seven kinds exactly once. */
  lemma BagCycle(bag: seq<Kind>, choices: seq<nat>)
    requires Distinct(bag) && |choices| == |Refilled(bag)| && ValidChoices(bag, choices)
    ensures Distinct(DrawMany(bag, choices).0)
    ensures multiset(DrawMany(bag, choices).0) == multiset(Refilled(bag))
    ensures DrawMany(bag, choices).1 == []
    ensures bag == [] ==> forall k: Kind :: k in DrawMany(bag, choices).0
  {
    AllKindsDistinct();
    var full := Refilled(bag);
    if bag == [] {
      DrawManyStep(bag, choices);
      DrawManyStep(full, choices);
      assert Draw(bag, choices[0]) == Draw(full, choices[0]);
    }
    assert DrawMany(bag, choices) == DrawMany(full, choices);
    DrawsWithoutRefill(full, choices);
    var drawn := DrawMany(bag, choices).0;
    assert drawn + [] == drawn;
    if bag == [] {
      forall k: Kind ensures k in drawn {
        assert k in full;
        assert k in multiset(full);
        assert k in multiset(drawn);
      }
    }
  }

  // ---------------------------------------------------------------------------
  // Validity and the drop distance

  /** The cells of a valid piece lie on the grid. */
  lemma FitsInside(g: seq<seq<int>>, b: Block)
    requires IsMatrix(g) && WellFormed(b) && Fits(g, b)
    ensures forall i :: 0 <= i < 4 ==> Inside(CellPositions(b)[i].row, CellPositions(b)[i].column)
  {
  }

  /** hard_drop's count n is exact: each of the first n one-row descents is
      valid and the next is not. It is bounded by the grid height: a valid
      piece descends fewer than NumRows rows. */
  lemma {:induction false} DropDistanceSpec(g: seq<seq<int>>, b: Block)
    requires IsMatrix(g) && WellFormed(b)
    ensures var n := DropDistance(g, b);
      (forall k :: 1 <= k <= n ==> Fits(g, Move(b, k, 0))) &&
      !Fits(g, Move(b, n + 1, 0)) &&
      (Fits(g, b) ==> n < NumRows)
    decreases NumRows - b.rowOffset
  {
    var down := Move(b, 1, 0);
    var n := DropDistance(g, b);
    if Fits(g, down) {
      FitsInside(g, down);
      DropDistanceSpec(g, down);
      assert n == 1 + DropDistance(g, down);
      forall k | 1 <= k <= n ensures Fits(g, Move(b, k, 0)) {
        if k > 1 {
          assert Move(b, k, 0) == Move(down, k - 1, 0);
        }
      }
      assert Move(b, n + 1, 0) == Move(down, n, 0);
      if Fits(g, b) {
        var last := Move(b, n, 0);
        FitsInside(g, last);
        FitsInside(g, b);
        assert CellPositions(last)[0].row == CellPositions(b)[0].row + n;
      }
    }
  }

  /** The lowest row a piece occupies. */
  function LowestRow(b: Block): (r: int)
    requires WellFormed(b)
    ensures forall i :: 0 <= i < 4 ==> CellPositions(b)[i].row <= r
    ensures exists i :: 0 <= i < 4 && CellPositions(b)[i].row == r
  {
    var cs := CellPositions(b);
    var top := if cs[0].row < cs[1].row then cs[1].row else cs[0].row;
    var bottom := if cs[2].row < cs[3].row then cs[3].row else cs[2].row;
    if top < bottom then bottom else top
  }

  /** On an empty grid a valid piece drops until its lowest cell reaches the
      bottom row. */
  lemma {:induction false} EmptyDrop(g: seq<seq<int>>, b: Block)
    requires IsEmptyGrid(g) && WellFormed(b) && Fits(g, b)
    ensures DropDistance(g, b) == NumRows - 1 - LowestRow(b)
    decreases NumRows - b.rowOffset
  {
    var down := Move(b, 1, 0);
    FitsInside(g, b);
    MoveShiftsCells(b, 1, 0);
    if LowestRow(b) < NumRows - 1 {
      forall i | 0 <= i < 4
        ensures Inside(CellPositions(down)[i].row, CellPositions(down)[i].column)
      {
      }
      assert Fits(g, down);
      assert LowestRow(down) == LowestRow(b) + 1;
      EmptyDrop(g, down);
    } else {
      var i :| 0 <= i < 4 && CellPositions(b)[i].row == LowestRow(b);
      assert !Inside(CellPositions(down)[i].row, CellPositions(down)[i].column);
    }
  }

  /** An O at its spawn pose on an empty grid lands 18 rows lower, and
      locking it there leaves column 0 of rows 1.. empty, so no row is full. */
  lemma OLanding(g: seq<seq<int>>)
    requires IsEmptyGrid(g)
    ensures DropDistance(g, Block(O, 0, 4, 0)) == 18
    ensures Fits(g, Block(O, 18, 4, 0))
    ensures var stamped := Stamp(g, CellPositions(Block(O, 18, 4, 0)), Id(O));
      CountFull(stamped[1..]) == 0 && Cleared(stamped) == stamped
  {
    var p := Block(O, 0, 4, 0);
    assert CellPositions(p) == [Coordinate(0, 4), Coordinate(0, 5), Coordinate(1, 4), Coordinate(1, 5)];
    assert LowestRow(p) == 1;
    EmptyDrop(g, p);
    DropDistanceSpec(g, p);
    assert Move(p, 18, 0) == Block(O, 18, 4, 0);
    var cs := CellPositions(Block(O, 18, 4, 0));
    assert forall i :: 0 <= i < 4 ==> cs[i].column >= 4;
    var stamped := Stamp(g, cs, Id(O));
    forall r | 1 <= r < NumRows ensures stamped[r][0] == 0 {
      StampAt(g, cs, Id(O), r, 0);
    }
    NothingToClear(stamped);
  }

  /** Hard-dropping a freshly spawned O onto an empty grid descends 18 rows,
      clears nothing, and with the driver's update_score(0, 18) scores exactly
      36. */
  lemma HardDropOnEmptyGrid(s: State, choice: nat)
    requires Invariant(s) && IsEmptyGrid(s.grid) && s.current == Spawn(O)
    requires |s.nextBlocks| > 0 && choice < |Refilled(s.bag)|
    ensures DropDistance(s.grid, s.current) == 18
    ensures HardDropIntent(s, choice).score == s.score + 36
  {
    assert s.current == Block(O, 0, 4, 0);
    OLanding(s.grid);
    var landed := Block(O, 18, 4, 0);
    assert Move(s.current, 18, 0) == landed;
    var locked := PlaceBlock(s.(current := landed), choice);
    assert locked.score == s.score;
    HardDropIntentFacts(s, choice);
  }

  // ---------------------------------------------------------------------------
  // Movement

  /** move_left / move_right: the piece moves one column if the result is
      valid and is otherwise restored exactly; grid, rotation, queue and score
      never change. */
  lemma MoveSideways(s: State)
    requires Invariant(s)
    ensures var p := s.current; var left := Move(p, 0, -1);
      MoveLeft(s) == s.(current := if Fits(s.grid, left) then left else p)
    ensures var p := s.current; var right := Move(p, 0, 1);
      MoveRight(s) == s.(current := if Fits(s.grid, right) then right else p)
    ensures Invariant(MoveLeft(s)) && Invariant(MoveRight(s))
  {
    MoveShiftsCells(s.current, 0, -1);
    MoveShiftsCells(s.current, 0, 1);
  }

  /** soft_drop: one row down if that is valid, otherwise a lock at the
      unchanged position. */
  lemma SoftDropFacts(s: State, choice: nat)
    requires Invariant(s) && choice < |Refilled(s.bag)|
    requires !Fits(s.grid, Move(s.current, 1, 0)) ==> QueueReady(s, s.current)
    ensures var down := Move(s.current, 1, 0);
      SoftDrop(s, choice) == if Fits(s.grid, down) then s.(current := down) else PlaceBlock(s, choice)
  {
    MoveShiftsCells(s.current, 1, 0);
  }

  // ---------------------------------------------------------------------------
  // Locking

  /** The game-over test is the validity test of the spawned piece: since
      spawn cells are inside, "some cell occupied" is exactly "not valid". */
  lemma SpawnBlockedIsInvalid(g: seq<seq<int>>, k: Kind)
    requires IsMatrix(g)
    ensures SpawnBlocked(g, k) <==> !Fits(g, Spawn(k))
  {
    SpawnInside(k);
    var cs := CellPositions(Spawn(k));
    if SpawnBlocked(g, k) {
      var i :| 0 <= i < 4 && g[cs[i].row][cs[i].column] != 0;
      assert !Fits(g, Spawn(k));
    }
  }

  /** place_block on a valid piece writes its id into exactly its four cells,
      then clears full rows; previous_lines_cleared becomes the number of rows
      cleared; a lock that clears nothing leaves the score and the combo count
      as they were. */
  lemma PlaceBlockWrites(s: State, choice: nat)
    requires Invariant(s) && Fits(s.grid, s.current) && |s.nextBlocks| > 0 && choice < |Refilled(s.bag)|
    ensures var cs := CellPositions(s.current);
      var stamped := Stamp(s.grid, cs, Id(s.current.kind));
      (forall i :: 0 <= i < 4 ==> stamped[cs[i].row][cs[i].column] == Id(s.current.kind)) &&
      (forall r, c :: 0 <= r < NumRows && 0 <= c < NumCols && Coordinate(r, c) !in cs ==>
         stamped[r][c] == s.grid[r][c])
    ensures var t := PlaceBlock(s, choice);
      var stamped := Stamp(s.grid, CellPositions(s.current), Id(s.current.kind));
      t.grid == Cleared(stamped) &&
      t.previousLinesCleared == CountFull(stamped[1..]) &&
      (CountFull(stamped[1..]) == 0 ==> t.comboCount == s.comboCount && t.score == s.score)
  {
    FitsInside(s.grid, s.current);
  }

  /** place_block on a valid piece takes the next piece from the front of the
      queue and appends one drawn kind, so the queue keeps its length; it clears
      the hold flag and leaves the hold slot alone. */
  lemma PlaceBlockQueue(s: State, choice: nat)
    requires Invariant(s) && Fits(s.grid, s.current) && |s.nextBlocks| > 0 && choice < |Refilled(s.bag)|
    ensures var t := PlaceBlock(s, choice);
      t.current == Spawn(s.nextBlocks[0]) &&
      |t.nextBlocks| == |s.nextBlocks| && t.nextBlocks[..|s.nextBlocks| - 1] == s.nextBlocks[1..] &&
      t.nextBlocks[|s.nextBlocks| - 1] == Draw(s.bag, choice).0 &&
      t.bag == Draw(s.bag, choice).1 &&
      !t.holdSwappedThisDrop && t.hold == s.hold
  {
    LockShape(s);
  }

  /** place_block on a valid piece sets game over exactly when the new piece
      is not valid on the new grid, and never clears it. */
  lemma PlaceBlockGameOver(s: State, choice: nat)
    requires Invariant(s) && Fits(s.grid, s.current) && |s.nextBlocks| > 0 && choice < |Refilled(s.bag)|
    ensures IsMatrix(PlaceBlock(s, choice).grid)
    ensures var t := PlaceBlock(s, choice);
      t.gameOver == (s.gameOver || !Fits(t.grid, t.current))
  {
    PlaceBlockPreserves(s, choice);
    SpawnBlockedIsInvalid(PlaceBlock(s, choice).grid, s.nextBlocks[0]);
  }

  /** A lock clears at most four rows: before it no row below row 0 is full,
      and the piece writes only into the four rows at its row offset, so only
      those can be full afterwards. */
  lemma LockClearsAtMostFour(s: State, choice: nat)
    requires Invariant(s) && Fits(s.grid, s.current)
    requires |s.nextBlocks| > 0 && choice < |Refilled(s.bag)|
    ensures CountFull(Stamp(s.grid, CellPositions(s.current), Id(s.current.kind))[1..]) <= 4
    ensures PlaceBlock(s, choice).previousLinesCleared <= 4
  {
    var b := s.current;
    var cs := CellPositions(b);
    var stamped := Stamp(s.grid, cs, Id(b.kind));
    var rest := stamped[1..];
    forall i | 0 <= i < |rest| && IsFull(rest[i])
      ensures b.rowOffset - 1 <= i < b.rowOffset + 3
    {
      var r := i + 1;
      assert rest[i] == stamped[r];
      if r < b.rowOffset || b.rowOffset + 4 <= r {
        forall c | 0 <= c < NumCols ensures stamped[r][c] == s.grid[r][c] {
          StampAt(s.grid, cs, Id(b.kind), r, c);
        }
        assert false;
      }
    }
    FullRowsInWindow(rest, b.rowOffset - 1, b.rowOffset + 3);
    LockShape(s);
  }

  /** place_block on an invalid piece writes nothing and only rotates it. */
  lemma PlaceInvalidOnlyRotates(s: State, choice: nat)
    requires Invariant(s) && !Fits(s.grid, s.current) && choice < |Refilled(s.bag)|
    ensures PlaceBlock(s, choice).grid == s.grid
    ensures PlaceBlock(s, choice).current.rotationState == (s.current.rotationState + 1) % NumStates(s.current.kind)
    ensures PlaceBlock(s, choice).nextBlocks == s.nextBlocks && PlaceBlock(s, choice).score == s.score
    ensures PlaceBlock(s, choice) == s.(current := Rotate(s.current))
  {
  }

  /** place_block keeps the invariant. */
  lemma PlaceBlockPreserves(s: State, choice: nat)
    requires Invariant(s) && QueueReady(s, s.current) && choice < |Refilled(s.bag)|
    ensures Invariant(PlaceBlock(s, choice))
  {
    if Fits(s.grid, s.current) {
      LockShape(s);
      DrawFacts(s.bag, choice);
    }
  }

  lemma SoftDropPreserves(s: State, choice: nat)
    requires Invariant(s) && choice < |Refilled(s.bag)|
    requires !Fits(s.grid, Move(s.current, 1, 0)) ==> QueueReady(s, s.current)
    ensures Invariant(SoftDrop(s, choice))
  {
    SoftDropFacts(s, choice);
    if !Fits(s.grid, Move(s.current, 1, 0)) {
      PlaceBlockPreserves(s, choice);
    }
  }

  /** The driver's hard drop locks the piece at the last valid row, adds two
      points per row descended, and, because it ends with update_score(0, n),
      always leaves previous_lines_cleared and the combo count at 0 even when
      the lock cleared rows. */
  lemma HardDropIntentFacts(s: State, choice: nat)
    requires Invariant(s) && choice < |Refilled(s.bag)|
    requires QueueReady(s, Move(s.current, DropDistance(s.grid, s.current), 0))
    ensures var n := DropDistance(s.grid, s.current);
      var locked := PlaceBlock(s.(current := Move(s.current, n, 0)), choice);
      var t := HardDropIntent(s, choice);
      HardDrop(s, choice) == (locked, n) &&
      t == locked.(score := locked.score + 2 * n, previousLinesCleared := 0, comboCount := 0)
    ensures Invariant(HardDropIntent(s, choice))
  {
    var n := DropDistance(s.grid, s.current);
    PlaceBlockPreserves(s.(current := Move(s.current, n, 0)), choice);
  }

  // ---------------------------------------------------------------------------
  // Hold

  /** hold_block: a no-op once used in this drop; into an empty slot it parks
      the current piece and takes the queue's front without refilling the
      queue; with a held piece it swaps, moving the incoming piece by (0, 3)
      from where it was. A second hold in the same drop changes nothing. */
  lemma HoldFacts(s: State)
    requires Invariant(s)
    requires s.hold.None? && !s.holdSwappedThisDrop ==> |s.nextBlocks| > 0
    ensures var t := HoldBlock(s);
      Invariant(t) && t.grid == s.grid && t.score == s.score &&
      (s.holdSwappedThisDrop ==> t == s) &&
      (!s.holdSwappedThisDrop ==> t.holdSwappedThisDrop && t.hold == Some(s.current)) &&
      (!s.holdSwappedThisDrop && s.hold.None? ==>
         t.current == Spawn(s.nextBlocks[0]) && t.nextBlocks == s.nextBlocks[1..] &&
         |t.nextBlocks| == |s.nextBlocks| - 1) &&
      (!s.holdSwappedThisDrop && s.hold.Some? ==>
         t.current == Move(s.hold.value, 0, 3) && t.nextBlocks == s.nextBlocks)
    ensures HoldBlock(HoldBlock(s)) == HoldBlock(s)
  {
  }

  lemma ResetHeldFacts(s: State)
    requires Invariant(s)
    ensures Invariant(ResetHeld(s))
    ensures s.hold.Some? ==> ResetHeld(s).hold.value == s.hold.value.(rowOffset := 0, columnOffset := 0)
    ensures s.hold.None? ==> ResetHeld(s) == s
    ensures s.hold.Some? ==> ResetHeld(s) == s.(hold := Some(ResetHoldBlock(s.hold.value)))
  {
  }

  // ---------------------------------------------------------------------------
  // Reset

  /** reset empties the grid and the hold slot and zeroes the score; the queue
      gains one drawn kind and loses its front, so its length is unchanged; it
      does not touch game over, the combo count, previous_lines_cleared or the
      hold flag. A first hold followed by a reset therefore leaves the queue one
      shorter for good. */
  lemma ResetFacts(s: State, choice: nat)
    requires Invariant(s) && choice < |Refilled(s.bag)|
    ensures var t := Reset(s, choice);
      Invariant(t) && t.grid == EmptyGrid() && t.hold.None? && t.score == 0 &&
      |t.nextBlocks| == |s.nextBlocks| &&
      t.current == Spawn((s.nextBlocks + [Draw(s.bag, choice).0])[0]) &&
      t.gameOver == s.gameOver && t.comboCount == s.comboCount &&
      t.previousLinesCleared == s.previousLinesCleared &&
      t.holdSwappedThisDrop == s.holdSwappedThisDrop
    ensures s.hold.None? && !s.holdSwappedThisDrop && |s.nextBlocks| > 0 ==>
      |Reset(HoldBlock(s), choice).nextBlocks| == |s.nextBlocks| - 1
  {
    DrawFacts(s.bag, choice);
  }

  // ---------------------------------------------------------------------------
  // Rotation with the wall kick

  /** rotate: a valid in-place rotation advances the state with offsets kept;
      an invalid one away from the walls, or one whose kick retry is invalid,
      is restored exactly; a kick retry that is valid (checked at the state two
      steps on) leaves the piece one state on at the shifted column, a position
      that was never checked. */
  lemma RotateOutcome(s: State)
    requires Invariant(s)
    ensures var p := s.current;
      var turned := Rotate(p);
      var r := RotateIntent(s).current;
      var atWall := p.columnOffset < 0 || p.columnOffset + BlockWidth(p.kind) >= NumCols;
      var shift := if p.columnOffset < 0 then KickShift(p.kind) else -KickShift(p.kind);
      var kicked := Move(turned, 0, shift);
      RotateIntent(s) == s.(current := r) && Invariant(RotateIntent(s)) &&
      (Fits(s.grid, turned) ==> r == turned) &&
      (!Fits(s.grid, turned) && !atWall ==> r == p) &&
      (!Fits(s.grid, turned) && atWall && !Fits(s.grid, Rotate(kicked)) ==> r == p) &&
      (!Fits(s.grid, turned) && atWall && Fits(s.grid, Rotate(kicked)) ==> r == kicked)
  {
    RotateUndoInverse(s.current);
    var turned := Rotate(s.current);
    var shift := if s.current.columnOffset < 0 then KickShift(s.current.kind) else -KickShift(s.current.kind);
    RotateUndoInverse(Move(turned, 0, shift));
  }

  /** The kick can leave an invalid piece: an L in state 1 against the left
      wall, with one occupied cell at (1, 2), is valid, but after rotate it sits
      in state 2 at column offset 0 over that occupied cell. */
  lemma KickCanLeaveInvalid()
    ensures var g := Stamp(EmptyGrid(), [Coordinate(1, 2)], 1);
      var s := State(g, [], Block(L, 0, -1, 1), [], None, false, false, 0, 0, 0);
      Invariant(s) && Fits(g, s.current) &&
      RotateIntent(s).current == Block(L, 0, 0, 2) &&
      !Fits(g, RotateIntent(s).current)
  {
    var g := Stamp(EmptyGrid(), [Coordinate(1, 2)], 1);
    StampShape(EmptyGrid(), [Coordinate(1, 2)], 1);
    var s := State(g, [], Block(L, 0, -1, 1), [], None, false, false, 0, 0, 0);
    assert g[1][2] == 1;
    forall r | 1 <= r < NumRows ensures !IsFull(g[r]) {
      StampAt(EmptyGrid(), [Coordinate(1, 2)], 1, r, 0);
    }
    var cs := CellPositions(Block(L, 0, -1, 1));
    assert cs == [Coordinate(0, 0), Coordinate(1, 0), Coordinate(2, 0), Coordinate(2, 1)];
    assert Fits(g, s.current);
    var turned := Block(L, 0, -1, 2);
    assert !Inside(CellPositions(turned)[0].row, CellPositions(turned)[0].column);
    var kicked := Block(L, 0, 0, 3);
    assert CellPositions(kicked) == [Coordinate(0, 0), Coordinate(0, 1), Coordinate(1, 1), Coordinate(2, 1)];
    assert Fits(g, kicked);
    assert CellPositions(Block(L, 0, 0, 2))[2] == Coordinate(1, 2);
  }

  // ---------------------------------------------------------------------------
  // Scoring

  /** update_score never lowers the score when its arguments are non-negative,
      and keeps the combo count non-negative. */
  lemma ScoreNeverDecreases(s: State, linesCleared: int, rowsDroppedFrom: int)
    requires s.comboCount >= 0 && linesCleared >= 0 && rowsDroppedFrom >= 0
    ensures UpdateScore(s, linesCleared, rowsDroppedFrom).score >= s.score
    ensures UpdateScore(s, linesCleared, rowsDroppedFrom).comboCount >= 0
    ensures Invariant(s) ==> Invariant(UpdateScore(s, linesCleared, rowsDroppedFrom))
  {
  }

  /** The combo bookkeeping: a clear right after a clear increments the combo
      count first and pays 50 per combo step; a zero-line call resets it; a
      clear after a gap neither pays nor resets it. */
  lemma ComboRules(s: State, linesCleared: int)
    requires linesCleared > 0
    ensures s.previousLinesCleared > 0 ==>
      UpdateScore(s, linesCleared, 0).comboCount == s.comboCount + 1
    ensures s.previousLinesCleared <= 0 ==>
      UpdateScore(s, linesCleared, 0).comboCount == s.comboCount
    ensures UpdateScore(s, 0, 0).comboCount == 0 && UpdateScore(s, 0, 0).previousLinesCleared == 0
    ensures UpdateScore(s, linesCleared, 0).previousLinesCleared == linesCleared
  {
  }

  /** Worked examples: a single from a fresh start scores 100; a second
      consecutive single scores 150 (combo 1); a back-to-back four-line clear
      scores 1600 plus the combo bonus. */
  lemma ScoreExamples(s: State)
    requires s.previousLinesCleared == 0 && s.comboCount == 0
    ensures UpdateScore(s, 1, 0).score == s.score + 100
    ensures UpdateScore(UpdateScore(s, 1, 0), 1, 0).score == s.score + 250
    ensures UpdateScore(UpdateScore(s, 1, 0), 1, 0).comboCount == 1
    ensures var t := s.(previousLinesCleared := 4);
      UpdateScore(t, 4, 0).score == s.score + 1600 + 50
  {
  }

  // ---------------------------------------------------------------------------
  // The initial state

  /** In a sequence without repeats, the head is not among the next n - 1
      elements, and both the middle slice and the tail have no repeats. */
  lemma DistinctSplit(xs: seq<Kind>, n: nat)
    requires Distinct(xs) && 0 < n <= |xs|
    ensures xs[0] !in xs[1..n] && Distinct(xs[1..n]) && Distinct(xs[n..])
  {
    assert forall i :: 0 <= i < n - 1 ==> xs[1..n][i] == xs[i + 1];
    assert forall i :: 0 <= i < |xs| - n ==> xs[n..][i] == xs[i + n];
  }

  /** Game.__init__ starts with an empty grid, no hold, score 0, five distinct
      upcoming kinds different from the current one and one kind left in the
      bag. */
  lemma InitialFacts(choices: seq<nat>)
    requires |choices| == 6 && ValidChoices(AllKinds, choices)
    ensures var s := Initial(choices);
      Invariant(s) && |s.nextBlocks| == 5 && |s.bag| == 1 &&
      s.current.kind !in s.nextBlocks && Distinct(s.nextBlocks) &&
      IsEmptyGrid(s.grid) && s.hold.None? && s.score == 0
  {
    AllKindsDistinct();
    DrawsWithoutRefill(AllKinds, choices);
    DrawManyLength(AllKinds, choices);
    var (drawn, left) := DrawMany(AllKinds, choices);
    var all := drawn + left;
    DistinctSplit(all, 6);
    assert all[1..6] == drawn[1..];
    assert all[6..] == left;
    assert all[0] == drawn[0];
  }
}
