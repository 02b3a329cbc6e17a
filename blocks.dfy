/** The piece model of utilities.py: the seven kinds, their rotation tables and
    spawn offsets, and a piece instance as a value (kind, offsets, rotation). */
module Blocks {

  datatype Coordinate = Coordinate(row: int, column: int)

  /** The seven piece kinds; the source has one subclass of Block per kind. */
  datatype Kind = L | J | I | O | S | T | Z

  /** The id a kind writes into the grid when it locks. */
  function Id(k: Kind): int {
    match k
    case L => 1
    case J => 2
    case I => 3
    case O => 4
    case S => 5
    case T => 6
    case Z => 7
  }

  /** The rotation states of a kind, in order; each is a list of cells relative
      to the piece's offsets. */
  function Cells(k: Kind): (table: seq<seq<Coordinate>>)
    ensures |table| == NumStates(k)
  {
    match k
    case L => [[Coordinate(0, 2), Coordinate(1, 0), Coordinate(1, 1), Coordinate(1, 2)],
               [Coordinate(0, 1), Coordinate(1, 1), Coordinate(2, 1), Coordinate(2, 2)],
               [Coordinate(1, 0), Coordinate(1, 1), Coordinate(1, 2), Coordinate(2, 0)],
               [Coordinate(0, 0), Coordinate(0, 1), Coordinate(1, 1), Coordinate(2, 1)]]
    case J => [[Coordinate(0, 0), Coordinate(1, 0), Coordinate(1, 1), Coordinate(1, 2)],
               [Coordinate(0, 1), Coordinate(0, 2), Coordinate(1, 1), Coordinate(2, 1)],
               [Coordinate(1, 0), Coordinate(1, 1), Coordinate(1, 2), Coordinate(2, 2)],
               [Coordinate(0, 1), Coordinate(1, 1), Coordinate(2, 0), Coordinate(2, 1)]]
    case I => [[Coordinate(1, 0), Coordinate(1, 1), Coordinate(1, 2), Coordinate(1, 3)],
               [Coordinate(0, 2), Coordinate(1, 2), Coordinate(2, 2), Coordinate(3, 2)],
               [Coordinate(2, 0), Coordinate(2, 1), Coordinate(2, 2), Coordinate(2, 3)],
               [Coordinate(0, 1), Coordinate(1, 1), Coordinate(2, 1), Coordinate(3, 1)]]
    case O => [[Coordinate(0, 0), Coordinate(0, 1), Coordinate(1, 0), Coordinate(1, 1)]]
    case S => [[Coordinate(0, 1), Coordinate(0, 2), Coordinate(1, 0), Coordinate(1, 1)],
               [Coordinate(0, 1), Coordinate(1, 1), Coordinate(1, 2), Coordinate(2, 2)],
               [Coordinate(1, 1), Coordinate(1, 2), Coordinate(2, 0), Coordinate(2, 1)],
               [Coordinate(0, 0), Coordinate(1, 0), Coordinate(1, 1), Coordinate(2, 1)]]
    case T => [[Coordinate(0, 1), Coordinate(1, 0), Coordinate(1, 1), Coordinate(1, 2)],
               [Coordinate(0, 1), Coordinate(1, 1), Coordinate(1, 2), Coordinate(2, 1)],
               [Coordinate(1, 0), Coordinate(1, 1), Coordinate(1, 2), Coordinate(2, 1)],
               [Coordinate(0, 1), Coordinate(1, 0), Coordinate(1, 1), Coordinate(2, 1)]]
    case Z => [[Coordinate(0, 0), Coordinate(0, 1), Coordinate(1, 1), Coordinate(1, 2)],
               [Coordinate(0, 2), Coordinate(1, 1), Coordinate(1, 2), Coordinate(2, 1)],
               [Coordinate(1, 0), Coordinate(1, 1), Coordinate(2, 1), Coordinate(2, 2)],
               [Coordinate(0, 1), Coordinate(1, 0), Coordinate(1, 1), Coordinate(2, 0)]]
  }

  /** len(self.cells): the number of rotation states of a kind (the length
      of its table, as Cells states). */
  function NumStates(k: Kind): nat {
    if k == O then 1 else 4
  }

  /** The move each subclass constructor applies once, at spawn. */
  function SpawnOffset(k: Kind): Coordinate {
    match k
    case I => Coordinate(-1, 3)
    case O => Coordinate(0, 4)
    case _ => Coordinate(0, 3)
  }

  /** A piece instance. */
  datatype Block = Block(kind: Kind, rowOffset: int, columnOffset: int, rotationState: int)

  /** The rotation state indexes the kind's table. */
  predicate WellFormed(b: Block) {
    0 <= b.rotationState < NumStates(b.kind)
  }

  /** Block.move: shift the piece by rows and columns; kind and rotation are
      kept, so a well-formed piece stays well formed. */
  function Move(b: Block, rows: int, columns: int): (r: Block)
    ensures r.kind == b.kind && r.rotationState == b.rotationState
    ensures r.rowOffset - b.rowOffset == rows && r.columnOffset - b.columnOffset == columns
    ensures WellFormed(r) <==> WellFormed(b)
  {
    b.(rowOffset := b.rowOffset + rows, columnOffset := b.columnOffset + columns)
  }

  /** A freshly constructed piece: the constructor starts at rotation 0 and
      offsets 0 and then moves by the kind's spawn offset, so the offsets end up
      equal to that spawn offset. */
  function Spawn(k: Kind): (b: Block)
    ensures WellFormed(b) && b.kind == k && b.rotationState == 0
    ensures b.rowOffset == SpawnOffset(k).row && b.columnOffset == SpawnOffset(k).column
  {
    var offset := SpawnOffset(k);
    Block(k, offset.row, offset.column, 0)
  }

  /** Block.get_cell_positions: the current state's relative cells shifted by the
      offsets. Every piece fits in the 4 x 4 box at its offsets. */
  function CellPositions(b: Block): (cs: seq<Coordinate>)
    requires WellFormed(b)
    ensures |cs| == 4
    ensures forall i :: 0 <= i < 4 ==>
      b.rowOffset <= cs[i].row < b.rowOffset + 4 &&
      b.columnOffset <= cs[i].column < b.columnOffset + 4
  {
    var rel := Cells(b.kind)[b.rotationState];
    seq(|rel|, i requires 0 <= i < |rel| =>
      Coordinate(rel[i].row + b.rowOffset, rel[i].column + b.columnOffset))
  }

  /** Block.rotate: advance the state, wrapping to 0 after the last one. */
  function Rotate(b: Block): (r: Block)
    requires WellFormed(b)
    ensures WellFormed(r)
    ensures r.rotationState == (b.rotationState + 1) % NumStates(b.kind)
    ensures r.kind == b.kind && r.rowOffset == b.rowOffset && r.columnOffset == b.columnOffset
  {
    var next := b.rotationState + 1;
    b.(rotationState := if next == NumStates(b.kind) then 0 else next)
  }

  /** Block.undo_rotation: retreat the state, wrapping from 0 to the last one. */
  function UndoRotation(b: Block): (r: Block)
    requires WellFormed(b)
    ensures WellFormed(r)
    ensures r.rotationState == (b.rotationState - 1) % NumStates(b.kind)
    ensures r.kind == b.kind && r.rowOffset == b.rowOffset && r.columnOffset == b.columnOffset
  {
    var previous := b.rotationState - 1;
    b.(rotationState := if previous == -1 then NumStates(b.kind) - 1 else previous)
  }

  /** Block.reset_hold_block: both offsets back to 0, rotation kept. */
  function ResetHoldBlock(b: Block): (r: Block)
    ensures r.rowOffset == 0 && r.columnOffset == 0
    ensures r.kind == b.kind && r.rotationState == b.rotationState
  {
    b.(rowOffset := 0, columnOffset := 0)
  }

  /** Rotate applied n times. */
  function RotateN(b: Block, n: nat): (r: Block)
    requires WellFormed(b)
    ensures WellFormed(r)
  {
    if n == 0 then b else Rotate(RotateN(b, n - 1))
  }

  // ---------------------------------------------------------------------------
  // Catalog facts

  /** Every kind has an id in 1..7, distinct kinds have distinct ids, O has one
      rotation state and the others four, and every state lists four distinct
      cells inside the 4 x 4 box. */
  lemma CatalogShape(k: Kind)
    ensures 1 <= Id(k) <= 7
    ensures forall k' :: Id(k') == Id(k) ==> k' == k
    ensures NumStates(k) == if k == O then 1 else 4
    ensures forall s :: 0 <= s < NumStates(k) ==> |Cells(k)[s]| == 4
    ensures forall s, i :: 0 <= s < NumStates(k) && 0 <= i < |Cells(k)[s]| ==>
      0 <= Cells(k)[s][i].row < 4 && 0 <= Cells(k)[s][i].column < 4
    ensures forall s, i, j :: 0 <= s < NumStates(k) && 0 <= i < j < |Cells(k)[s]| ==>
      Cells(k)[s][i] != Cells(k)[s][j]
  {
    match k
    case L =>
    case J =>
    case I =>
    case O =>
    case S =>
    case T =>
    case Z =>
  }

  // ---------------------------------------------------------------------------
  // Movement and rotation

  /** move(a, b) shifts every absolute cell by (a, b) and changes nothing else;
      moving back by (-a, -b) restores the piece exactly. */
  lemma MoveShiftsCells(b: Block, rows: int, columns: int)
    requires WellFormed(b)
    ensures WellFormed(Move(b, rows, columns))
    ensures forall i :: 0 <= i < 4 ==>
      CellPositions(Move(b, rows, columns))[i] ==
        Coordinate(CellPositions(b)[i].row + rows, CellPositions(b)[i].column + columns)
    ensures Move(Move(b, rows, columns), -rows, -columns) == b
  {
  }

  /** rotate and undo_rotation undo each other exactly. */
  lemma RotateUndoInverse(b: Block)
    requires WellFormed(b)
    ensures UndoRotation(Rotate(b)) == b
    ensures Rotate(UndoRotation(b)) == b
  {
  }

  /** Rotating n times advances the state by n modulo the number of states and
      leaves the kind and offsets alone. */
  lemma {:induction false} RotateNState(b: Block, n: nat)
    requires WellFormed(b)
    ensures RotateN(b, n) == b.(rotationState := (b.rotationState + n) % NumStates(b.kind))
  {
    if n > 0 {
      RotateNState(b, n - 1);
    }
  }

  /** Rotating a piece as many times as its kind has states returns it to where
      it started, cells included; for O a single rotate changes nothing. */
  lemma RotateClosure(b: Block)
    requires WellFormed(b)
    ensures RotateN(b, NumStates(b.kind)) == b
    ensures CellPositions(RotateN(b, NumStates(b.kind))) == CellPositions(b)
    ensures b.kind == O ==> Rotate(b) == b
  {
    RotateNState(b, NumStates(b.kind));
  }
}
