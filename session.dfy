/**
 * The session wrapper around the engine: a ring of ten game-state slots for
 * bounded undo, the move entry point that validates its arguments and
 * writes the next slot, and the queries a renderer asks about cells (their
 * colour, where they may connect, their coordinates, and towards which
 * neighbours they are drawn connected).
 *
 * A pointer to a cell of the current board is modelled by its flat index
 * into that board.
 */
module Session {
  import opened Board
  import opened Explorer
  import opened Gravity
  import opened Engine

  /** MAX_UNDO: the number of slots in the ring. */
  const MaxUndo: int := 10

  // ---------------------------------------------------------------------
  // Slot arithmetic

  /** C's `%` by MaxUndo on a signed dividend: the remainder takes the
      dividend's sign. */
  function CRem(a: int): (r: int)
    ensures -MaxUndo < r < MaxUndo
    ensures a >= 0 ==> r >= 0
    ensures a < 0 ==> r <= 0
    ensures (a - r) % MaxUndo == 0
  {
    if a >= 0 then a % MaxUndo else -((-a) % MaxUndo)
  }

  /** The slot after c, as advance_state and get_next_state compute it. */
  function AdvanceSlot(c: int): (r: int)
    requires 0 <= c < MaxUndo
    ensures 0 <= r < MaxUndo
    ensures r == c + 1 || (c == MaxUndo - 1 && r == 0)
  {
    (c + 1) % MaxUndo
  }

  /** The slot before c as GAME_undo writes it, with C's truncating `%`. */
  function UndoSlotAsWritten(c: int): int
  {
    CRem(c - 1)
  }

  /** The slot before c in the ring: slot 0 is preceded by slot 9. */
  function UndoSlot(c: int): (r: int)
    requires 0 <= c < MaxUndo
    ensures 0 <= r < MaxUndo
  {
    (c + MaxUndo - 1) % MaxUndo
  }

  /** Undoing from slot 0 as written leaves the ring: the new current slot
      is -1. */
  lemma UndoFromFirstSlot()
    ensures UndoSlotAsWritten(0) == -1
    ensures !(0 <= UndoSlotAsWritten(0) < MaxUndo)
  {
  }

  /** The undo slot as written stays in the ring exactly when it does not
      start at slot 0, and then agrees with UndoSlot. */
  lemma UndoAsWrittenAgrees(c: int)
    requires 0 <= c < MaxUndo
    ensures 0 <= UndoSlotAsWritten(c) < MaxUndo <==> c != 0
    ensures c != 0 ==> UndoSlotAsWritten(c) == UndoSlot(c)
  {
  }

  /** Stepping back undoes stepping forward, and the other way round. */
  lemma SlotsInverse(c: int)
    requires 0 <= c < MaxUndo
    ensures UndoSlot(AdvanceSlot(c)) == c
    ensures AdvanceSlot(UndoSlot(c)) == c
  {
  }

  /** The undo budget after a move: one more, up to MaxUndo. */
  function AvailAfterMove(a: int): (r: int)
    requires 0 <= a <= MaxUndo
    ensures 0 <= r <= MaxUndo && a <= r <= a + 1
    ensures r == MaxUndo <==> a >= MaxUndo - 1
  {
    a + (if a < MaxUndo then 1 else 0)
  }

  // ---------------------------------------------------------------------
  // Cell queries

  /** INT8: the value of a byte read as a signed 8-bit integer. */
  function Signed8(v: bv8): (r: int)
    ensures -128 <= r < 128
    ensures r >= 0 <==> v < 0x80
    ensures r % 256 == v as int
  {
    if v < 0x80 then v as int else v as int - 256
  }

  /** GAME_get_color: the colour of a piece or spawn cell as a signed byte,
      -1 for any other cell. */
  function GetColor(c: Cell): (r: int)
    ensures -128 <= r < 128
    ensures c.Piece? || c.Emerge? ==> r % 256 == c.color as int
    ensures !(c.Piece? || c.Emerge?) ==> r == -1
  {
    match c
    case Piece(color, _, _) => Signed8(color)
    case Emerge(color, _, _) => Signed8(color)
    case _ => -1
  }

  /** The mask GAME_piece_where_can_connect computes for a piece: its
      no_connect bits flipped in the low four bits. */
  function WhereMask(c: Cell): bv8
    requires c.Piece?
  {
    0x0f ^ c.noConnect
  }

  /** A piece may connect in direction d exactly when it does not refuse d,
      and a mask that uses only the four direction bits stays in 0..15. */
  lemma WhereMaskBits(c: Cell, d: Dir)
    requires c.Piece? && d != NoDir
    ensures (WhereMask(c) & ConnectBit(d) != 0) <==> (c.noConnect & ConnectBit(d) == 0)
    ensures c.noConnect & 0xf0 == 0 ==> WhereMask(c) < 0x10
  {
    XorBit(c.noConnect, ConnectBit(d));
    if c.noConnect & 0xf0 == 0 {
      LowNibble(c.noConnect);
    }
  }

  lemma XorBit(n: bv8, bit: bv8)
    requires bit == 1 || bit == 2 || bit == 4 || bit == 8
    ensures ((0x0f ^ n) & bit != 0) <==> (n & bit == 0)
  {
  }

  lemma LowNibble(n: bv8)
    requires n & 0xf0 == 0
    ensures 0x0f ^ n < 0x10
  {
  }

  /** GAME_piece_where_can_connect: the mask of a piece as a signed byte,
      -1 for a cell that is not a piece. A piece's result is never -1
      when its no_connect mask uses only the four direction bits. */
  function PieceWhereCanConnect(c: Cell): (r: int)
    ensures -128 <= r < 128
    ensures !c.Piece? ==> r == -1
    ensures c.Piece? ==> r % 256 == WhereMask(c) as int
    ensures c.Piece? && c.noConnect & 0xf0 == 0 ==> 0 <= r < 16
  {
    if c.Piece? then
      LowNibbleMask(c);
      Signed8(WhereMask(c))
    else -1
  }

  lemma LowNibbleMask(c: Cell)
    requires c.Piece?
    ensures c.noConnect & 0xf0 == 0 ==> WhereMask(c) < 0x10
  {
    if c.noConnect & 0xf0 == 0 {
      LowNibble(c.noConnect);
    }
  }

  /** wall_emerge_adj: one cell is a wall and the other a spawn cell. */
  function WallEmergeAdj(c1: Cell, c2: Cell): bool
  {
    (c1.Emerge? && c2.Wall?) || (c1.Wall? && c2.Emerge?)
  }

  /** should_connect: whether the renderer draws two neighbouring cells as
      joined. */
  function ShouldConnect(c1: Cell, c2: Cell): bool
  {
    if c1.Piece? && c2.Piece? then c1.block == c2.block
    else if TypeCode(c1) == TypeCode(c2) then true
    else WallEmergeAdj(c1, c2)
  }

  /** The order of the two cells does not matter. */
  lemma ShouldConnectSymmetric(c1: Cell, c2: Cell)
    ensures ShouldConnect(c1, c2) == ShouldConnect(c2, c1)
  {
  }

  /** What should_connect means cell kind by cell kind: pieces join exactly
      the pieces of their own block, empty cells join empty cells, and walls
      and spawn cells join each other and themselves. */
  lemma ShouldConnectByKind(c1: Cell, c2: Cell)
    ensures c1.Piece? ==> (ShouldConnect(c1, c2) <==> c2.Piece? && c2.block == c1.block)
    ensures c1.Empty? ==> (ShouldConnect(c1, c2) <==> c2.Empty?)
    ensures c1.Wall? || c1.Emerge? ==> (ShouldConnect(c1, c2) <==> c2.Wall? || c2.Emerge?)
  {
  }

  /** Every cell is drawn joined to a copy of itself. */
  lemma ShouldConnectReflexive(c: Cell)
    ensures ShouldConnect(c, c)
  {
  }

  // ---------------------------------------------------------------------
  // Coordinates

  /** `(x << 16) | y` on a 32-bit integer, for a column below 2^15 and a
      row below 2^16: the column times 2^16 plus the row. */
  function PackCoords(x: int, y: int): int
    requires 0 <= x < 0x8000 && 0 <= y < 0x1_0000
  {
    x * 0x1_0000 + y
  }

  /** `pos >> 16` and `pos & 0xffff` of a non-negative 32-bit integer: the
      quotient and the remainder by 2^16. */
  function CoordX(pos: int): int
    requires 0 <= pos
  {
    pos / 0x1_0000
  }

  function CoordY(pos: int): int
    requires 0 <= pos
  {
    pos % 0x1_0000
  }

  /** Unpacking returns the packed column and row. */
  lemma CoordsRoundTrip(x: int, y: int)
    requires 0 <= x < 0x8000 && 0 <= y < 0x1_0000
    ensures 0 <= PackCoords(x, y) < 0x8000_0000
    ensures CoordX(PackCoords(x, y)) == x && CoordY(PackCoords(x, y)) == y
  {
    var p := PackCoords(x, y);
    assert p == x * 0x1_0000 + y;
  }

  /** GAME_get_cell_coords on the cell at flat index cell of the current
      board: -1 for a pointer below the board, otherwise the column in the
      high half and the row in the low half. */
  function GetCellCoords(cell: int): (r: int)
    requires cell < CellCount
    ensures cell < 0 ==> r == -1
    ensures 0 <= cell ==> 0 <= r < 0x8000_0000
  {
    if cell < 0 then -1 else PackCoords(cell % Width, cell / Width)
  }

  /** The coordinates of a cell decode to its column and row. */
  lemma CellCoordsDecode(cell: nat)
    requires cell < CellCount
    ensures 0 <= GetCellCoords(cell) < 0x8000_0000
    ensures Pos(CoordX(GetCellCoords(cell)), CoordY(GetCellCoords(cell))) == PosOf(cell)
  {
    CoordsRoundTrip(cell % Width, cell / Width);
  }

  /** get_cell_internal: the cell at column x and row y of the current
      board, None off the board in any direction. */
  function GetCellInternal(x: int, y: int): (r: Option<nat>)
    ensures r.Some? <==> 0 <= x < Width && 0 <= y < Height
    ensures r.Some? ==> r.value < CellCount && PosOf(r.value) == Pos(x, y)
  {
    if x >= Width || y >= Height || x < 0 || y < 0 then None else Some(Idx(Pos(x, y)))
  }

  /** Looking a cell up by its own coordinates finds the cell again. */
  lemma CellLookupRoundTrip(cell: nat)
    requires cell < CellCount
    ensures var pos := GetCellCoords(cell);
            GetCellInternal(CoordX(pos), CoordY(pos)) == Some(cell)
  {
    CellCoordsDecode(cell);
    var pos := GetCellCoords(cell);
    var r := GetCellInternal(CoordX(pos), CoordY(pos));
    assert PosOf(r.value) == PosOf(cell);
    assert r.value == Idx(PosOf(r.value)) == Idx(PosOf(cell)) == cell;
  }

  /** Neighbour i (in the order of DIR_DELTAS: left, right, up, down) of
      cell t is on the board and drawn joined to t. */
  ghost predicate Connects(b: seq<Cell>, t: nat, i: nat)
    requires |b| == CellCount && t < CellCount && i < 4
  {
    var q := AddDir(PosOf(t), DirOf(i));
    InBounds(q) && ShouldConnect(b[t], b[Idx(q)])
  }

  /** Connections are seen from both sides: when t is joined to its
      neighbour in direction i, that neighbour is joined back to t. */
  lemma ConnectsSymmetric(b: seq<Cell>, t: nat, i: nat)
    requires |b| == CellCount && t < CellCount && i < 4 && Connects(b, t, i)
    ensures var q := AddDir(PosOf(t), DirOf(i));
            Connects(b, Idx(q), Code(Opposite(DirOf(i))))
  {
    var d := DirOf(i);
    var q := AddDir(PosOf(t), d);
    var e := Opposite(d);
    OppositeStep(PosOf(t), d);
    assert DirOf(Code(e)) == e;
    assert PosOf(Idx(q)) == q;
    ShouldConnectSymmetric(b[t], b[Idx(q)]);
  }

  lemma OppositeStep(p: Pos, d: Dir)
    requires d != NoDir
    ensures AddDir(AddDir(p, d), Opposite(d)) == p
  {
  }

  /** The bit of the result of GAME_cell_where_connected for neighbour i. */
  function Bit(i: nat): (r: bv8)
    requires i < 4
  {
    if i == 0 then 1 else if i == 1 then 2 else if i == 2 then 4 else 8
  }

  lemma BitsApart(r: bv8, i: nat, k: nat)
    requires i < 4 && k < 4
    ensures (r | Bit(i)) & Bit(i) != 0
    ensures k != i ==> (r | Bit(i)) & Bit(k) == r & Bit(k)
    ensures r & 0xf0 == 0 ==> (r | Bit(i)) & 0xf0 == 0
  {
  }

  lemma NoBits(k: nat)
    requires k < 4
    ensures (0 as bv8) & Bit(k) == 0
  {
  }

  /** The engine step of GAME_move_piece: game_do_move from the current
      slot into the next one, stated by what the session needs of it. */
  method MoveInto(current: GameState, block: nat, dir: Dir, next: GameState, front0: GameState, back0: GameState)
    returns (ok: bool, ghost noted: seq<nat>, ghost run: Run)
    requires IsHorizontal(dir)
    requires current.board.Length == CellCount && next.board.Length == CellCount
    requires front0.board.Length == CellCount && back0.board.Length == CellCount
    requires ValidState(current.board[..], current.blocks) && block < |current.blocks|
    requires current != next && current != front0 && current != back0
    requires next != front0 && next != back0 && front0 != back0
    requires current.board != next.board && current.board != front0.board && current.board != back0.board
    requires next.board != front0.board && next.board != back0.board && front0.board != back0.board
    modifies next, next.board, front0, front0.board, back0, back0.board
    ensures ok <==> MoveOk(current.board[..], current.blocks, block, dir)
    ensures !ok ==> next.board[..] == old(next.board[..]) && next.blocks == old(next.blocks)
    ensures ok ==> DoneMove(Snap(current.board[..], current.blocks), block, dir, noted, run,
                            Snap(next.board[..], next.blocks))
    ensures ok ==> ValidState(next.board[..], next.blocks)
                   && Potential(next.board[..]) <= Potential(current.board[..])
  {
    ok, noted, run := GameDoMove(current, block, dir, next, front0, back0);
  }

  /** The bits GAME_cell_where_connected has gathered after looking at the
      first n neighbours of cell t. */
  ghost function MaskUpTo(b: seq<Cell>, t: nat, n: nat): bv8
    requires |b| == CellCount && t < CellCount && n <= 4
  {
    if n == 0 then 0
    else MaskUpTo(b, t, n - 1) | (if Connects(b, t, n - 1) then Bit(n - 1) else 0)
  }

  /** Bit k of the gathered mask is set exactly when k was looked at and
      neighbour k is joined to the cell; the high nibble stays clear. */
  lemma {:induction false} MaskUpToBits(b: seq<Cell>, t: nat, n: nat)
    requires |b| == CellCount && t < CellCount && n <= 4
    ensures forall k :: 0 <= k < 4 ==> (MaskUpTo(b, t, n) & Bit(k) != 0 <==> k < n && Connects(b, t, k))
    ensures MaskUpTo(b, t, n) & 0xf0 == 0
  {
    if n == 0 {
      forall k | 0 <= k < 4
        ensures MaskUpTo(b, t, n) & Bit(k) == 0
      {
        NoBits(k);
      }
    } else {
      MaskUpToBits(b, t, n - 1);
      var m := MaskUpTo(b, t, n - 1);
      forall k | 0 <= k < 4
        ensures MaskUpTo(b, t, n) & Bit(k) != 0 <==> k < n && Connects(b, t, k)
      {
        BitsApart(m, n - 1, k);
      }
      BitsApart(m, n - 1, n - 1);
    }
  }

  /** The neighbour GAME_cell_where_connected looks up in direction i from
      the packed coordinates of cell t is the cell one step that way. */
  lemma NeighbourLookup(t: nat, pos: int, i: nat, adj: Option<nat>)
    requires t < CellCount && i < 4
    requires pos == GetCellCoords(t) && 0 <= pos
    requires adj == GetCellInternal(CoordX(pos) + Dx(DirOf(i)), CoordY(pos) + Dy(DirOf(i)))
    ensures adj.Some? <==> InBounds(AddDir(PosOf(t), DirOf(i)))
    ensures adj.Some? ==> adj.value == Idx(AddDir(PosOf(t), DirOf(i)))
  {
    CellCoordsDecode(t);
    var q := AddDir(PosOf(t), DirOf(i));
    if adj.Some? {
      assert PosOf(adj.value) == q;
      assert adj.value == Idx(PosOf(adj.value));
    }
  }

  /** The loop of GAME_cell_where_connected over the board b. */
  method WhereConnected(b: array<Cell>, cell: nat) returns (r: bv8)
    requires b.Length == CellCount && cell < CellCount
    ensures r == MaskUpTo(b[..], cell, 4)
  {
    var pos := GetCellCoords(cell);
    r := 0;
    for i := 0 to 4
      invariant r == MaskUpTo(b[..], cell, i)
    {
      r := GatherBit(b, cell, pos, i, r);
    }
  }

  /** One round of that loop: look up neighbour i through the packed
      coordinates and set bit i when it is joined to the cell. */
  method GatherBit(b: array<Cell>, cell: nat, pos: int, i: nat, r: bv8) returns (r': bv8)
    requires b.Length == CellCount && cell < CellCount && i < 4
    requires pos == GetCellCoords(cell) && r == MaskUpTo(b[..], cell, i)
    ensures r' == MaskUpTo(b[..], cell, i + 1)
  {
    var d := DirOf(i);
    var adj := GetCellInternal(CoordX(pos) + Dx(d), CoordY(pos) + Dy(d));
    NeighbourLookup(cell, pos, i, adj);
    r' := r;
    if adj.Some? && ShouldConnect(b[cell], b[adj.value]) {
      r' := r | Bit(i);
    }
  }

  // ---------------------------------------------------------------------
  // The session

  /** struct Game: the ring of state slots (which slot buffer is which never
      changes; their contents do), the current slot, the move and action
      counters and the number of undos still available. */
  class Game {
    const slots: seq<GameState>
    var currentState: int
    var moveCount: int
    var undoAvail: int
    var actionCount: int

    /** The ring holds MaxUndo distinct well-formed states, the current slot
        is one of them and the undo budget is within 0..MaxUndo. */
    ghost predicate Valid()
      reads this, set i | 0 <= i < |slots| :: slots[i], set i | 0 <= i < |slots| :: slots[i].board
    {
      |slots| == MaxUndo
      && 0 <= currentState < MaxUndo && 0 <= undoAvail <= MaxUndo
      && (forall i, j :: 0 <= i < MaxUndo && 0 <= j < MaxUndo && i != j ==>
              slots[i] != slots[j] && slots[i].board != slots[j].board)
      && (forall i :: 0 <= i < MaxUndo ==>
            slots[i].board.Length == CellCount && ValidState(slots[i].board[..], slots[i].blocks))
    }

    /** advance_state: move to the next slot, count the move down and grow
        the undo budget up to MaxUndo. */
    method AdvanceState()
      requires Valid()
      modifies this
      ensures Valid()
      ensures currentState == AdvanceSlot(old(currentState))
      ensures moveCount == old(moveCount) - 1
      ensures undoAvail == AvailAfterMove(old(undoAvail))
      ensures actionCount == old(actionCount)
    {
      currentState := (currentState + 1) % MaxUndo;
      moveCount := moveCount - 1;
      undoAvail := undoAvail + (if undoAvail < MaxUndo then 1 else 0);
    }

    /** The bookkeeping of a successful GAME_move_piece: advance_state, then
        one more action. */
    method CommitMove()
      requires Valid()
      modifies this
      ensures Valid()
      ensures currentState == AdvanceSlot(old(currentState)) && moveCount == old(moveCount) - 1
      ensures undoAvail == AvailAfterMove(old(undoAvail)) && actionCount == old(actionCount) + 1
    {
      AdvanceState();
      actionCount := actionCount + 1;
    }

    /** GAME_undo: with undo budget left, step back one slot and spend one
        undo; the move counter goes down and the action counter up either
        way. The slot before slot 0 is taken as slot 9 (see UndoSlot and
        UndoSlotAsWritten). */
    method Undo() returns (ok: bool)
      requires Valid()
      modifies this
      ensures Valid()
      ensures ok <==> old(undoAvail) > 0
      ensures ok ==> currentState == UndoSlot(old(currentState)) && undoAvail == old(undoAvail) - 1
      ensures !ok ==> currentState == old(currentState) && undoAvail == old(undoAvail)
      ensures moveCount == old(moveCount) - 1 && actionCount == old(actionCount) + 1
    {
      ok := false;
      if undoAvail > 0 {
        currentState := (currentState + MaxUndo - 1) % MaxUndo;
        undoAvail := undoAvail - 1;
        ok := true;
      }
      moveCount := moveCount - 1;
      actionCount := actionCount + 1;
    }

    /** The block GAME_move_piece picks at cell k: a piece's own block; for a
        spawn cell the union read yields its fixed flag; for an empty or wall
        cell it yields the byte the cell's storage holds, given as stray. */
    static function PickedBlock(c: Cell, stray: nat): nat
    {
      match c
      case Piece(_, _, block) => block
      case Emerge(_, _, fixed) => if fixed then 1 else 0
      case _ => stray
    }

    /** The engine step of GAME_move_piece: game_do_move of block from the
        current slot into the next slot of the ring; no other slot changes. */
    method MoveSlot(block: nat, dir: Dir, front0: GameState, back0: GameState)
      returns (ok: bool, ghost noted: seq<nat>, ghost run: Run, ghost before: Snap, ghost after: Snap)
      requires Valid() && IsHorizontal(dir) && block < |slots[currentState].blocks|
      requires front0.board.Length == CellCount && back0.board.Length == CellCount
      requires front0 != back0 && front0.board != back0.board
      requires forall i :: 0 <= i < MaxUndo ==>
                 slots[i] != front0 && slots[i] != back0
                 && slots[i].board != front0.board && slots[i].board != back0.board
      modifies slots[AdvanceSlot(currentState)], slots[AdvanceSlot(currentState)].board
      modifies front0, front0.board, back0, back0.board
      ensures Valid()
      ensures ok <==> MoveOk(old(slots[currentState].board[..]), old(slots[currentState].blocks), block, dir)
      ensures var n := AdvanceSlot(currentState);
              !ok ==> slots[n].board[..] == old(slots[n].board[..]) && slots[n].blocks == old(slots[n].blocks)
      ensures before == old(Snap(slots[currentState].board[..], slots[currentState].blocks))
      ensures var n := AdvanceSlot(currentState); after == Snap(slots[n].board[..], slots[n].blocks)
      ensures ok ==> DoneMove(before, block, dir, noted, run, after) && Potential(after.board) <= Potential(before.board)
    {
      var cur := currentState;
      var nxt := AdvanceSlot(cur);
      var current := slots[cur];
      var next := slots[nxt];
      assert current != next && current.board != next.board;
      before := Snap(current.board[..], current.blocks);
      ok, noted, run := MoveInto(current, block, dir, next, front0, back0);
      assert before == Snap(current.board[..], current.blocks);
      after := Snap(next.board[..], next.blocks);
      forall i | 0 <= i < MaxUndo && i != nxt
        ensures slots[i].board[..] == old(slots[i].board[..]) && slots[i].blocks == old(slots[i].blocks)
      {
        assert slots[i] != next && slots[i].board != next.board;
      }
    }

    /** GAME_move_piece: reject a direction that is not LEFT or RIGHT and a
        column or row past the board, without changing anything; otherwise
        move the block at (x, y) of the current slot into the next slot and,
        when that succeeds, advance the ring and count the action. front0
        and back0 are the engine's scratch states. */
    method MovePiece(x: int, y: int, dir: Dir, stray: nat, front0: GameState, back0: GameState)
      returns (ok: bool, ghost noted: seq<nat>, ghost run: Run, ghost before: Snap, ghost after: Snap)
      requires Valid()
      requires x < Width && y < Height ==> 0 <= y * Width + x
      requires x < Width && y < Height && IsHorizontal(dir) ==>
                 PickedBlock(slots[currentState].board[y * Width + x], stray) < |slots[currentState].blocks|
      requires front0.board.Length == CellCount && back0.board.Length == CellCount
      requires front0 != back0 && front0.board != back0.board
      requires forall i :: 0 <= i < MaxUndo ==>
                 slots[i] != front0 && slots[i] != back0
                 && slots[i].board != front0.board && slots[i].board != back0.board
      modifies this, slots[AdvanceSlot(currentState)], slots[AdvanceSlot(currentState)].board
      modifies front0, front0.board, back0, back0.board
      ensures Valid()
      ensures ok <==>
                IsHorizontal(dir) && x < Width && y < Height
                && MoveOk(old(slots[currentState].board[..]), old(slots[currentState].blocks),
                          PickedBlock(old(slots[currentState].board[y * Width + x]), stray), dir)
      ensures !ok ==> currentState == old(currentState) && moveCount == old(moveCount)
                      && undoAvail == old(undoAvail) && actionCount == old(actionCount)
      ensures !ok ==> var n := AdvanceSlot(old(currentState));
                      slots[n].board[..] == old(slots[n].board[..]) && slots[n].blocks == old(slots[n].blocks)
      ensures ok ==> currentState == AdvanceSlot(old(currentState)) && moveCount == old(moveCount) - 1
                     && undoAvail == AvailAfterMove(old(undoAvail)) && actionCount == old(actionCount) + 1
      ensures before == old(Snap(slots[currentState].board[..], slots[currentState].blocks))
      ensures ok ==> after == Snap(slots[currentState].board[..], slots[currentState].blocks)
      ensures ok ==> DoneMove(before, PickedBlock(old(slots[currentState].board[y * Width + x]), stray), dir,
                              noted, run, after)
                     && Potential(after.board) <= Potential(before.board)
    {
      noted, run := [], Run([], [], [], [], []);
      before := Snap(slots[currentState].board[..], slots[currentState].blocks);
      after := before;
      if !IsHorizontal(dir) || Code(dir) >= Code(NoDir) {
        return false, noted, run, before, after;
      }
      if x >= Width || y >= Height {
        return false, noted, run, before, after;
      }
      var block := PickedBlock(slots[currentState].board[y * Width + x], stray);
      ok, noted, run, before, after := MoveSlot(block, dir, front0, back0);
      if ok {
        CommitMove();
      }
    }

    /** GAME_cell_where_connected for the cell at flat index cell of the
        current board: bit i is set exactly when neighbour i is on the board
        and drawn joined to the cell; no other bit is set. */
    method CellWhereConnected(cell: int) returns (r: bv8)
      requires Valid() && 0 <= cell < CellCount
      ensures forall i :: 0 <= i < 4 ==> (r & Bit(i) != 0 <==> Connects(slots[currentState].board[..], cell, i))
      ensures r & 0xf0 == 0
    {
      r := WhereConnected(slots[currentState].board, cell);
      MaskUpToBits(slots[currentState].board[..], cell, 4);
    }
  }
}
