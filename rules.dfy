/** The rules of game.py stated on values: a State holds everything the Game
    object owns, and each function here is what one Game method does to it.
    The Game class (module TetrisGame) performs the same steps in place and is
    proved to end in the state these functions give. */
module Rules {

  import opened Blocks
  import opened Board

  datatype Option<T> = None | Some(value: T)

  /** The fields of a Game object. The upcoming pieces and the bag hold kinds:
      a piece in either has never been moved, so it is the kind's spawn piece. */
  datatype State = State(
    grid: seq<seq<int>>,
    bag: seq<Kind>,
    current: Block,
    nextBlocks: seq<Kind>,
    hold: Option<Block>,
    gameOver: bool,
    holdSwappedThisDrop: bool,
    score: int,
    previousLinesCleared: int,
    comboCount: int)

  predicate Distinct(ks: seq<Kind>) {
    forall i, j :: 0 <= i < j < |ks| ==> ks[i] != ks[j]
  }

  /** What every operation keeps: a well-shaped grid of ids, no full row
      below row 0 (every lock clears them and a new or reset grid is empty),
      pieces whose rotation state indexes their table, a bag without repeats,
      a non-negative combo count and a non-negative score. */
  predicate Invariant(s: State) {
    IsMatrix(s.grid) && InRange(s.grid) && WellFormed(s.current) &&
    (s.hold.Some? ==> WellFormed(s.hold.value)) &&
    (forall r :: 1 <= r < NumRows ==> !IsFull(s.grid[r])) &&
    Distinct(s.bag) && s.comboCount >= 0 && s.score >= 0
  }

  // ---------------------------------------------------------------------------
  // The bag randomizer

  /** A full bag, in the order the source lists the kinds. */
  const AllKinds: seq<Kind> := [I, J, L, O, S, T, Z]

  /** The bag a draw picks from: refilled with all seven kinds only when empty. */
  function Refilled(bag: seq<Kind>): seq<Kind> {
    if |bag| == 0 then AllKinds else bag
  }

  /** Game.get_random_block, with the random pick given as an index into the
      (refilled) bag: returns the kind and the bag without it. */
  function Draw(bag: seq<Kind>, choice: nat): (r: (Kind, seq<Kind>))
    requires choice < |Refilled(bag)|
    ensures r.0 in Refilled(bag)
  {
    var b := Refilled(bag);
    (b[choice], b[..choice] + b[choice + 1..])
  }

  /** Every pick of a sequence of draws indexes the bag it is drawn from. */
  predicate ValidChoices(bag: seq<Kind>, choices: seq<nat>)
    decreases |choices|
  {
    choices == [] ||
    (choices[0] < |Refilled(bag)| && ValidChoices(Draw(bag, choices[0]).1, choices[1..]))
  }

  /** A sequence of draws: the kinds drawn, in order, and the bag left. */
  function DrawMany(bag: seq<Kind>, choices: seq<nat>): (seq<Kind>, seq<Kind>)
    requires ValidChoices(bag, choices)
    decreases |choices|
  {
    if choices == [] then ([], bag)
    else
      var (k, rest) := Draw(bag, choices[0]);
      var (ks, left) := DrawMany(rest, choices[1..]);
      ([k] + ks, left)
  }

  // ---------------------------------------------------------------------------
  // Validity

  /** Game.is_valid_action for a piece: all four cells inside and empty. */
  predicate Fits(g: seq<seq<int>>, b: Block)
    requires IsMatrix(g) && WellFormed(b)
    ensures Fits(g, b) ==> -3 <= b.rowOffset < NumRows && -3 <= b.columnOffset < NumCols
  {
    var cs := CellPositions(b);
    // Naming the first cell lets the verifier instantiate the quantifier below
    // at it: that cell is inside and lies within 0..3 of both offsets, which
    // gives the offset bounds of the ensures.
    assert cs[0] == cs[0];
    forall i :: 0 <= i < 4 ==> Inside(cs[i].row, cs[i].column) && g[cs[i].row][cs[i].column] == 0
  }

  /** The game-over test of place_block: some cell of the piece is occupied.
      The source indexes the grid without a bounds check; spawn cells are
      always inside (SpawnInside), which is what makes that safe. */
  predicate SpawnBlocked(g: seq<seq<int>>, k: Kind)
    requires IsMatrix(g)
  {
    SpawnInside(k);
    var cs := CellPositions(Spawn(k));
    exists i :: 0 <= i < 4 && g[cs[i].row][cs[i].column] != 0
  }

  /** A lock that pops the queue needs a piece in it (deque.popleft). */
  predicate QueueReady(s: State, b: Block)
    requires IsMatrix(s.grid) && WellFormed(b)
  {
    Fits(s.grid, b) ==> |s.nextBlocks| > 0
  }

  // ---------------------------------------------------------------------------
  // Scoring

  /** 100 per line, 200 per line for a four-line clear. */
  function LinePoints(lines: int): int {
    if lines == 4 then lines * 200 else lines * 100
  }

  /** Game.update_score: only the score, previous_lines_cleared and the combo
      count change. With a non-negative combo count the score gains at least the
      hard-drop points and the line points: the back-to-back and combo bonuses
      are never negative. */
  function UpdateScore(s: State, linesCleared: int, rowsDroppedFrom: int): (r: State)
    ensures r == s.(score := r.score, previousLinesCleared := r.previousLinesCleared, comboCount := r.comboCount)
    ensures s.comboCount >= 0 ==> r.score >= s.score + 2 * rowsDroppedFrom + LinePoints(linesCleared)
  {
    var hardDropPoints := rowsDroppedFrom * 2;
    var linePoints := LinePoints(linesCleared);
    var backToBack := if linesCleared == 4 && s.previousLinesCleared == 4 then linePoints else 0;
    var continues := linesCleared > 0 && s.previousLinesCleared > 0;
    var combo := if continues then s.comboCount + 1 else s.comboCount;
    var comboPoints := if continues then combo * 50 else 0;
    s.(score := s.score + hardDropPoints + linePoints + backToBack + comboPoints,
       previousLinesCleared := if linesCleared > 0 then linesCleared else 0,
       comboCount := if linesCleared == 0 then 0 else combo)
  }

  // ---------------------------------------------------------------------------
  // The intents

  /** The first half of place_block for a valid piece: write its id into the
      grid, clear full rows, score them if there are any, and record the
      number cleared as previous_lines_cleared. */
  function Lock(s: State): State
    requires Invariant(s) && Fits(s.grid, s.current)
  {
    var stamped := Stamp(s.grid, CellPositions(s.current), Id(s.current.kind));
    CatalogShape(s.current.kind);
    StampShape(s.grid, CellPositions(s.current), Id(s.current.kind));
    ClearedShape(stamped);
    var rowsCleared := CountFull(stamped[1..]);
    var cleared := s.(grid := Cleared(stamped));
    var scored := if rowsCleared > 0 then UpdateScore(cleared, rowsCleared, 0) else cleared;
    scored.(previousLinesCleared := rowsCleared)
  }

  /** The second half of place_block: the queue's front becomes the current
      piece, a drawn kind joins the back, the hold flag is cleared, and game
      over is set if the new piece's cells are not all empty. */
  function NextPiece(s: State, choice: nat): State
    requires IsMatrix(s.grid) && |s.nextBlocks| > 0 && choice < |Refilled(s.bag)|
  {
    var (drawn, bag) := Draw(s.bag, choice);
    s.(current := Spawn(s.nextBlocks[0]),
       nextBlocks := s.nextBlocks[1..] + [drawn],
       bag := bag,
       holdSwappedThisDrop := false,
       gameOver := s.gameOver || SpawnBlocked(s.grid, s.nextBlocks[0]))
  }

  /** Game.place_block: a valid piece is locked and the next one is taken; an
      invalid piece is only rotated. */
  function PlaceBlock(s: State, choice: nat): (r: State)
    requires Invariant(s) && QueueReady(s, s.current) && choice < |Refilled(s.bag)|
    ensures |r.nextBlocks| == |s.nextBlocks| && r.hold == s.hold
    ensures r.score >= s.score && (s.gameOver ==> r.gameOver)
  {
    if Fits(s.grid, s.current) then
      LockShape(s);
      NextPiece(Lock(s), choice)
    else
      s.(current := Rotate(s.current))
  }

  /** Locking keeps the grid's shape and changes neither the queue nor the bag. */
  lemma LockShape(s: State)
    requires Invariant(s) && Fits(s.grid, s.current)
    ensures IsMatrix(Lock(s).grid) && InRange(Lock(s).grid)
    ensures Lock(s).nextBlocks == s.nextBlocks && Lock(s).bag == s.bag
    ensures Lock(s).current == s.current && Lock(s).hold == s.hold
    ensures Lock(s).gameOver == s.gameOver && Lock(s).holdSwappedThisDrop == s.holdSwappedThisDrop
    ensures Lock(s).comboCount >= 0 && Lock(s).score >= s.score
    ensures Invariant(Lock(s))
  {
    CatalogShape(s.current.kind);
    StampShape(s.grid, CellPositions(s.current), Id(s.current.kind));
    ClearedShape(Stamp(s.grid, CellPositions(s.current), Id(s.current.kind)));
  }

  /** Game.move_left */
  function MoveLeft(s: State): State
    requires Invariant(s)
  {
    var moved := Move(s.current, 0, -1);
    s.(current := if Fits(s.grid, moved) then moved else Move(moved, 0, 1))
  }

  /** Game.move_right */
  function MoveRight(s: State): State
    requires Invariant(s)
  {
    var moved := Move(s.current, 0, 1);
    s.(current := if Fits(s.grid, moved) then moved else Move(moved, 0, -1))
  }

  /** Game.soft_drop: one row down, or back up and lock. */
  function SoftDrop(s: State, choice: nat): State
    requires Invariant(s) && choice < |Refilled(s.bag)|
    requires !Fits(s.grid, Move(s.current, 1, 0)) ==> QueueReady(s, s.current)
  {
    var moved := Move(s.current, 1, 0);
    if Fits(s.grid, moved) then s.(current := moved)
    else PlaceBlock(s.(current := Move(moved, -1, 0)), choice)
  }

  /** How many single-row descents from b stay valid. */
  function DropDistance(g: seq<seq<int>>, b: Block): (n: nat)
    requires IsMatrix(g) && WellFormed(b)
    ensures n > 0 ==> Fits(g, Move(b, n, 0)) && b.rowOffset + n < NumRows
    decreases NumRows - b.rowOffset
  {
    var down := Move(b, 1, 0);
    if Fits(g, down) then
      var rest := DropDistance(g, down);
      assert rest > 0 ==> Move(down, rest, 0) == Move(b, 1 + rest, 0);
      1 + rest
    else 0
  }

  /** Game.hard_drop: descend while valid, lock at the last valid row, and
      return the number of descents. */
  function HardDrop(s: State, choice: nat): (State, nat)
    requires Invariant(s) && choice < |Refilled(s.bag)|
    requires QueueReady(s, Move(s.current, DropDistance(s.grid, s.current), 0))
  {
    var n := DropDistance(s.grid, s.current);
    (PlaceBlock(s.(current := Move(s.current, n, 0)), choice), n)
  }

  /** The driver's hard-drop key: hard_drop, then update_score(0, rows). */
  function HardDropIntent(s: State, choice: nat): State
    requires Invariant(s) && choice < |Refilled(s.bag)|
    requires QueueReady(s, Move(s.current, DropDistance(s.grid, s.current), 0))
  {
    var (dropped, n) := HardDrop(s, choice);
    UpdateScore(dropped, 0, n)
  }

  /** Game.hold_block. A hold into the empty slot pops the queue without a
      refill; a swap moves the incoming piece by (0, 3) from wherever it is. */
  function HoldBlock(s: State): State
    requires s.hold.None? && !s.holdSwappedThisDrop ==> |s.nextBlocks| > 0
  {
    if s.hold.None? && !s.holdSwappedThisDrop then
      s.(hold := Some(s.current), current := Spawn(s.nextBlocks[0]),
         nextBlocks := s.nextBlocks[1..], holdSwappedThisDrop := true)
    else if !s.holdSwappedThisDrop then
      s.(hold := Some(s.current), current := Move(s.hold.value, 0, 3), holdSwappedThisDrop := true)
    else s
  }

  /** The hold slot's reset_hold_block, which the source runs whenever it draws
      the held piece. */
  function ResetHeld(s: State): State {
    if s.hold.Some? then s.(hold := Some(ResetHoldBlock(s.hold.value))) else s
  }

  /** Game.reset: empties the grid, draws into the queue and takes its front as
      the current piece, empties the hold slot and zeroes the score. */
  function Reset(s: State, choice: nat): State
    requires choice < |Refilled(s.bag)|
  {
    var (drawn, bag) := Draw(s.bag, choice);
    var queue := s.nextBlocks + [drawn];
    s.(grid := EmptyGrid(), bag := bag, current := Spawn(queue[0]), nextBlocks := queue[1..],
       hold := None, score := 0)
  }

  /** The kick of try_kicking: 2 columns for I, 1 for the others. */
  function KickShift(k: Kind): int {
    if k == I then 2 else 1
  }

  /** block_width in try_kicking: 4 for I, 3 for the others. */
  function BlockWidth(k: Kind): int {
    if k == I then 4 else 3
  }

  /** Game.try_kicking on an already rotated piece b: against the left wall
      shift right and rotate once more; against the right wall shift left and
      rotate once more; undo both if the result is not valid. */
  function TryKicking(g: seq<seq<int>>, b: Block): (r: Block)
    requires IsMatrix(g) && WellFormed(b)
    ensures WellFormed(r) && r.kind == b.kind && r.rowOffset == b.rowOffset
    ensures r == b || (Fits(g, r) && r.rotationState == Rotate(b).rotationState)
  {
    if b.columnOffset < 0 || b.columnOffset + BlockWidth(b.kind) >= NumCols then
      var shift := if b.columnOffset < 0 then KickShift(b.kind) else -KickShift(b.kind);
      var kicked := Rotate(Move(b, 0, shift));
      if Fits(g, kicked) then kicked else UndoRotation(Move(kicked, 0, -shift))
    else b
  }

  /** Game.rotate: rotate; if invalid, try a kick and then undo one rotation. */
  function RotateIntent(s: State): State
    requires Invariant(s)
  {
    var turned := Rotate(s.current);
    s.(current := if Fits(s.grid, turned) then turned else UndoRotation(TryKicking(s.grid, turned)))
  }

  /** Game.__init__: an empty grid, a full bag, then six draws in a row: the
      first kind drawn becomes the current piece, the next five the queue. */
  function Initial(choices: seq<nat>): State
    requires |choices| == 6 && ValidChoices(AllKinds, choices)
  {
    DrawManyLength(AllKinds, choices);
    var (drawn, bag) := DrawMany(AllKinds, choices);
    State(EmptyGrid(), bag, Spawn(drawn[0]), drawn[1..], None, false, false, 0, 0, 0)
  }

  // ---------------------------------------------------------------------------
  // Catalog against the grid

  /** Every kind's spawn cells lie inside the 20 x 10 grid. */
  lemma SpawnInside(k: Kind)
    ensures forall i :: 0 <= i < 4 ==> Inside(CellPositions(Spawn(k))[i].row, CellPositions(Spawn(k))[i].column)
  {
  }

  /** A sequence of draws yields one kind per pick. */
  lemma {:induction false} DrawManyLength(bag: seq<Kind>, choices: seq<nat>)
    requires ValidChoices(bag, choices)
    ensures |DrawMany(bag, choices).0| == |choices|
    decreases |choices|
  {
    if choices != [] {
      DrawManyLength(Draw(bag, choices[0]).1, choices[1..]);
    }
  }
}
