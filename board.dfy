/**
 * The board model of the puzzle engine: a fixed 14 x 10 grid of cells, the
 * direction enumeration and its helpers, the per-edge connection bits, the
 * block table and the well-formedness predicate every move relies on.
 *
 * The grid is stored flat in row-major order: the cell at column x, row y
 * lives at index y * Width + x.
 */
module Board {

  const Width: int := 14
  const Height: int := 10
  const CellCount: int := 140

  /** Byte layout of a game state: a 140-cell board of 4-byte cells, then the
      4-byte block count; one block record (two coordinates, one flag) is 3
      bytes. */
  const CellBytes: int := 4
  const HeaderBytes: int := 564
  const BlockBytes: int := 3
  const MaxStateBytes: int := 984

  datatype Option<T> = None | Some(value: T)

  /** Move direction; the order fixes the numeric codes 0..4. */
  datatype Dir = Left | Right | Up | Down | NoDir

  function Code(d: Dir): nat
  {
    match d
    case Left => 0
    case Right => 1
    case Up => 2
    case Down => 3
    case NoDir => 4
  }

  /** The four real directions, by code 0..3. */
  function DirOf(c: nat): (d: Dir)
    requires c < 4
    ensures Code(d) == c && d != NoDir
  {
    if c == 0 then Left else if c == 1 then Right else if c == 2 then Up else Down
  }

  /** DIR_OPPOSITE: the code of the opposite direction is the code with its
      lowest bit flipped. */
  function Opposite(d: Dir): (r: Dir)
    requires d != NoDir
    ensures r != NoDir && r != d
  {
    match d
    case Left => Right
    case Right => Left
    case Up => Down
    case Down => Up
  }

  /** DIR_IS_HORIZONTAL: a code below that of Up. */
  function IsHorizontal(d: Dir): (r: bool)
    ensures r <==> Code(d) < Code(Up)
  {
    d == Left || d == Right
  }

  /** The no_connect bit that belongs to a direction. */
  function ConnectBit(d: Dir): bv8
    requires d != NoDir
  {
    match d
    case Left => 1
    case Right => 2
    case Up => 4
    case Down => 8
  }

  datatype Pos = Pos(x: int, y: int)

  /** DIR_DELTAS: the column and row offsets of a direction. */
  function Dx(d: Dir): int
  {
    match d
    case Left => -1
    case Right => 1
    case _ => 0
  }

  function Dy(d: Dir): int
  {
    match d
    case Up => -1
    case Down => 1
    case _ => 0
  }

  function AddDir(p: Pos, d: Dir): Pos
  {
    Pos(p.x + Dx(d), p.y + Dy(d))
  }

  predicate InBounds(p: Pos)
  {
    0 <= p.x < Width && 0 <= p.y < Height
  }

  function Idx(p: Pos): (i: nat)
    requires InBounds(p)
    ensures i < CellCount
  {
    p.y * Width + p.x
  }

  function PosOf(i: nat): (p: Pos)
    requires i < CellCount
    ensures InBounds(p) && Idx(p) == i
  {
    Pos(i % Width, i / Width)
  }

  /** Row-major order: compare rows, then columns. */
  predicate RowMajorLe(a: Pos, b: Pos)
  {
    a.y < b.y || (a.y == b.y && a.x <= b.x)
  }

  predicate Adjacent(p: Pos, q: Pos)
  {
    (p.y == q.y && (p.x - q.x == 1 || q.x - p.x == 1)) ||
    (p.x == q.x && (p.y - q.y == 1 || q.y - p.y == 1))
  }

  datatype Cell =
    | Empty
    | Wall
    | Piece(color: bv8, noConnect: bv8, block: nat)
    | Emerge(color: bv8, dir: Dir, fixed: bool)

  /** The CellType tag. */
  function TypeCode(c: Cell): nat
  {
    match c
    case Empty => 0
    case Wall => 1
    case Piece(_, _, _) => 2
    case Emerge(_, _, _) => 3
  }

  datatype Block = Block(pos: Pos, fixed: bool)

  /** piece_make_color: the colour in the low seven bits, the load-time fixed
      marker in bit 7. */
  function PieceMakeColor(color: bv8, fixed: bool): (r: bv8)
    ensures r & 0x7f == color & 0x7f
    ensures (r & 0x80 != 0) == fixed
  {
    (color & 0x7f) | (if fixed then 0x80 else 0)
  }

  /** game_get_size: header plus one record per block. */
  function GameGetSize(blockCount: nat): (r: nat)
    ensures r >= HeaderBytes
    ensures blockCount <= CellCount ==> r <= MaxStateBytes
  {
    HeaderBytes + blockCount * BlockBytes
  }

  /** game_get_pos_safe: the cell at p, or None off the board. */
  function GetPosSafe(board: seq<Cell>, p: Pos): (r: Option<Cell>)
    requires |board| == CellCount
    ensures r.None? <==> (p.x < 0 || p.x >= Width || p.y < 0 || p.y >= Height)
    ensures r.Some? ==> r.value == board[p.y * Width + p.x]
  {
    if InBounds(p) then Some(board[Idx(p)]) else None
  }

  function IsFixedInitial(color: bv8): bool
  {
    color & 0x80 != 0
  }

  function ColorsEqualInitial(a: bv8, b: bv8): bool
  {
    (a ^ b) & 0x7f == 0
  }

  /** pieces_can_connect: same colour ignoring bit 7, the source does not refuse
      the edge in direction d and the target does not refuse it from the
      opposite side. */
  predicate PiecesCanConnect(from: Cell, to: Cell, d: Dir)
    requires from.Piece? && to.Piece? && d != NoDir
  {
    ColorsEqualInitial(from.color, to.color)
    && from.noConnect & ConnectBit(d) == 0
    && to.noConnect & ConnectBit(Opposite(d)) == 0
  }

  // ---------------------------------------------------------------------
  // Well-formed states

  /** The cells at i and j are pieces of the same block. */
  predicate SameBlock(board: seq<Cell>, i: int, j: int)
  {
    0 <= i < |board| && 0 <= j < |board| && board[i].Piece? && board[j].Piece?
    && board[i].block == board[j].block
  }

  /** The direction from p to an adjacent cell q. */
  function Toward(p: Pos, q: Pos): (d: Dir)
    ensures d != NoDir
    ensures Adjacent(p, q) ==> q == AddDir(p, d)
  {
    if q.x == p.x - 1 && q.y == p.y then Left
    else if q.x == p.x + 1 && q.y == p.y then Right
    else if q.y == p.y - 1 then Up
    else Down
  }

  /** An edge inside a block: adjacent pieces with the same label that may
      join across the edge between them. */
  predicate Link(board: seq<Cell>, p: Pos, q: Pos)
    requires |board| == CellCount
  {
    InBounds(p) && InBounds(q) && Adjacent(p, q)
    && board[Idx(p)].Piece? && board[Idx(q)].Piece?
    && board[Idx(p)].block == board[Idx(q)].block
    && PiecesCanConnect(board[Idx(p)], board[Idx(q)], Toward(p, q))
  }

  /** A walk along edges inside one block. */
  ghost predicate LabelPath(board: seq<Cell>, path: seq<Pos>)
    requires |board| == CellCount
  {
    (forall k :: 0 <= k < |path| ==> InBounds(path[k]) && board[Idx(path[k])].Piece?) &&
    (forall k :: 0 <= k < |path| - 1 ==> Link(board, path[k], path[k + 1]))
  }

  ghost predicate Reaches(board: seq<Cell>, a: Pos, b: Pos)
    requires |board| == CellCount
  {
    exists path :: LabelPath(board, path) && |path| > 0 && path[0] == a && path[|path| - 1] == b
  }

  /** Every two cells of one block are joined by a walk inside the block. */
  ghost predicate LabelConnected(board: seq<Cell>)
    requires |board| == CellCount
  {
    forall i, j :: SameBlock(board, i, j) ==> Reaches(board, PosOf(i), PosOf(j))
  }

  /** The state a move can be made on: every piece names an existing block,
      every anchor is a cell of its own block, and blocks are connected. */
  ghost predicate ValidState(board: seq<Cell>, blocks: seq<Block>)
  {
    |board| == CellCount
    && (forall i :: 0 <= i < CellCount && board[i].Piece? ==> board[i].block < |blocks|)
    && (forall k :: 0 <= k < |blocks| ==> AnchorOk(board, blocks, k))
    && LabelConnected(board)
  }

  predicate AnchorOk(board: seq<Cell>, blocks: seq<Block>, k: int)
    requires |board| == CellCount && 0 <= k < |blocks|
  {
    InBounds(blocks[k].pos) && board[Idx(blocks[k].pos)].Piece? && board[Idx(blocks[k].pos)].block == k
  }

  // ---------------------------------------------------------------------
  // Lemmas about the helpers

  /** DIR_OPPOSITE flips the lowest bit of the code; the connection bit of a
      direction is 1 shifted left by its code. */
  lemma DirCodes(d: Dir)
    requires d != NoDir
    ensures Code(Opposite(d)) as bv8 == (Code(d) as bv8) ^ 1
    ensures ConnectBit(d) == (1 as bv8) << Code(d)
    ensures ConnectBit(d) & 0xf == ConnectBit(d) && ConnectBit(d) != 0
  {
  }

  lemma OppositeInvolution(d: Dir)
    requires d != NoDir
    ensures Opposite(Opposite(d)) == d
    ensures AddDir(AddDir(Pos(0, 0), d), Opposite(d)) == Pos(0, 0)
  {
  }

  /** Each direction owns its own bit of the 4-bit connection mask. */
  lemma ConnectBitsDistinct(d: Dir, e: Dir)
    requires d != NoDir && e != NoDir
    ensures (ConnectBit(d) & ConnectBit(e) == 0) <==> d != e
    ensures ConnectBit(Left) | ConnectBit(Right) | ConnectBit(Up) | ConnectBit(Down) == 0xf
  {
  }

  lemma AddDirInverse(p: Pos, d: Dir)
    requires d != NoDir
    ensures AddDir(AddDir(p, d), Opposite(d)) == p
    ensures Adjacent(p, AddDir(p, d))
  {
  }

  lemma IdxInjective(p: Pos, q: Pos)
    requires InBounds(p) && InBounds(q) && Idx(p) == Idx(q)
    ensures p == q
  {
  }

  lemma PosOfIdx(p: Pos)
    requires InBounds(p)
    ensures PosOf(Idx(p)) == p
  {
    IdxInjective(PosOf(Idx(p)), p);
  }

  /** Adjacent cells are one step apart in one of the four directions. */
  lemma AdjacentDir(p: Pos, q: Pos) returns (e: Dir)
    requires Adjacent(p, q)
    ensures e != NoDir && q == AddDir(p, e)
  {
    if q.x == p.x - 1 && q.y == p.y { e := Left; }
    else if q.x == p.x + 1 && q.y == p.y { e := Right; }
    else if q.y == p.y - 1 { e := Up; }
    else { e := Down; }
  }

  /** The flat index order is the row-major order. */
  lemma RowMajorIdx(a: Pos, b: Pos)
    requires InBounds(a) && InBounds(b)
    ensures RowMajorLe(a, b) <==> Idx(a) <= Idx(b)
  {
  }

  /** pieces_can_connect: the colours agree in their low seven bits and neither
      side's mask refuses the edge. */
  lemma PiecesCanConnectMeaning(from: Cell, to: Cell, d: Dir)
    requires from.Piece? && to.Piece? && d != NoDir
    ensures PiecesCanConnect(from, to, d) <==>
              (from.color & 0x7f == to.color & 0x7f
               && from.noConnect & ConnectBit(d) == 0
               && to.noConnect & ConnectBit(Opposite(d)) == 0)
  {
    ColorsEqualInitialMeaning(from.color, to.color);
  }

  /** colors_equal_initial: equal low seven bits. */
  lemma ColorsEqualInitialMeaning(a: bv8, b: bv8)
    ensures ColorsEqualInitial(a, b) <==> a & 0x7f == b & 0x7f
  {
  }

  /** pieces_can_connect looks at an edge from both of its sides. */
  lemma PiecesCanConnectSymmetric(a: Cell, b: Cell, d: Dir)
    requires a.Piece? && b.Piece? && d != NoDir
    ensures PiecesCanConnect(a, b, d) == PiecesCanConnect(b, a, Opposite(d))
  {
    var e := Opposite(d);
    assert Opposite(e) == d by { OppositeInvolution(d); }
    assert ColorsEqualInitial(a.color, b.color) == ColorsEqualInitial(b.color, a.color) by {
      assert a.color ^ b.color == b.color ^ a.color;
    }
  }

  // ---------------------------------------------------------------------
  // Walks inside one block

  function Reverse(s: seq<Pos>): (r: seq<Pos>)
    ensures |r| == |s|
    ensures forall k :: 0 <= k < |s| ==> r[k] == s[|s| - 1 - k]
  {
    if s == [] then [] else Reverse(s[1..]) + [s[0]]
  }

  /** An edge inside a block can be walked either way. */
  lemma LinkBack(board: seq<Cell>, p: Pos, q: Pos)
    requires |board| == CellCount && Link(board, p, q)
    ensures Link(board, q, p)
  {
    var d := Toward(p, q);
    assert Toward(q, p) == Opposite(d);
    PiecesCanConnectSymmetric(board[Idx(p)], board[Idx(q)], d);
  }

  lemma ReachesSymmetric(board: seq<Cell>, a: Pos, b: Pos)
    requires |board| == CellCount && Reaches(board, a, b)
    ensures Reaches(board, b, a)
  {
    var path :| LabelPath(board, path) && |path| > 0 && path[0] == a && path[|path| - 1] == b;
    var r := Reverse(path);
    forall k | 0 <= k < |r| - 1
      ensures Link(board, r[k], r[k + 1])
    {
      var m := |path| - 2 - k;
      assert r[k] == path[m + 1] && r[k + 1] == path[m];
      LinkBack(board, path[m], path[m + 1]);
    }
    assert LabelPath(board, r);
    assert r[0] == b && r[|r| - 1] == a;
  }

  lemma ReachesTransitive(board: seq<Cell>, a: Pos, b: Pos, c: Pos)
    requires |board| == CellCount && Reaches(board, a, b) && Reaches(board, b, c)
    ensures Reaches(board, a, c)
  {
    var p1 :| LabelPath(board, p1) && |p1| > 0 && p1[0] == a && p1[|p1| - 1] == b;
    var p2 :| LabelPath(board, p2) && |p2| > 0 && p2[0] == b && p2[|p2| - 1] == c;
    var p := p1 + p2[1..];
    forall k | 0 <= k < |p| - 1
      ensures Link(board, p[k], p[k + 1])
    {
      if k < |p1| - 1 {
        assert p[k] == p1[k] && p[k + 1] == p1[k + 1];
      } else {
        var m := k - |p1| + 1;
        assert p[k] == p2[m] && p[k + 1] == p2[m + 1];
      }
    }
    assert LabelPath(board, p);
    assert p[|p| - 1] == c;
  }

  // ---------------------------------------------------------------------
  // The game state

  /** A game state: the board, and the block table whose length is the block
      count. */
  class GameState {
    const board: array<Cell>
    var blocks: seq<Block>

    /** A zero-initialised state: every cell empty, no blocks. */
    constructor ()
      ensures board.Length == CellCount && fresh(board)
      ensures forall i :: 0 <= i < CellCount ==> board[i] == Empty
      ensures blocks == []
    {
      board := new Cell[CellCount](_ => Empty);
      blocks := [];
    }

    /** The memset that clears a state before a move is written into it:
        every cell empty, no blocks. */
    method Clear()
      requires board.Length == CellCount
      modifies this, board
      ensures forall i :: 0 <= i < CellCount ==> board[i] == Empty
      ensures blocks == []
    {
      for i := 0 to CellCount
        invariant forall k :: 0 <= k < i ==> board[k] == Empty
      {
        board[i] := Empty;
      }
      blocks := [];
    }

    /** game_copy_block_data: the block count and table of src; the board is
        not touched. */
    method CopyBlockData(src: GameState)
      requires src != this
      modifies this
      ensures blocks == src.blocks
    {
      blocks := src.blocks;
    }
  }
}
