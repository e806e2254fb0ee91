/**
 * The second half of move_block: once the cascade is known and the move can
 * be made, the destination state is cleared, given the block table, and
 * filled cell by cell in row-major order: a visited cell is written one step
 * over in the move direction, any other cell in place unless something was
 * already moved there. A block whose anchor is the cell just written has its
 * anchor moved along.
 */
module Translator {
  import opened Board
  import opened Explorer

  /** The cell that a cell at q came from: one step against the move. */
  function Back(q: Pos, dir: Dir): Pos
  {
    Pos(q.x - Dx(dir), q.y - Dy(dir))
  }

  /** What a move that can be made guarantees about its mask v: blocks are
      moved as a whole, only pieces move, and each moved cell lands on the
      board, on an empty cell or on a cell that moves too. */
  ghost predicate MoveMask(b: seq<Cell>, v: seq<bool>, dir: Dir)
    requires |b| == CellCount && |v| == CellCount
  {
    AllOrNone(b, v)
    && forall t :: 0 <= t < CellCount && v[t] ==>
         b[t].Piece? && InBounds(AddDir(PosOf(t), dir))
         && (b[Idx(AddDir(PosOf(t), dir))].Empty? || v[Idx(AddDir(PosOf(t), dir))])
  }

  /** The cells of the cascade of block x. */
  ghost function CascadeMask(b: seq<Cell>, dir: Dir, x: nat): (v: seq<bool>)
    requires |b| == CellCount
    ensures |v| == CellCount
    ensures forall t :: 0 <= t < CellCount ==> (v[t] <==> b[t].Piece? && InCascade(b, dir, x, b[t].block))
  {
    seq(CellCount, t requires 0 <= t < CellCount => b[t].Piece? && InCascade(b, dir, x, b[t].block))
  }

  /** The cascade of a move that can be made is a valid move mask. */
  lemma CascadeIsMask(b: seq<Cell>, blocks: seq<Block>, x: nat, dir: Dir)
    requires |b| == CellCount && LabelsOk(b, blocks) && x < |blocks| && MoveOk(b, blocks, x, dir)
    ensures MoveMask(b, CascadeMask(b, dir, x), dir)
  {
    var v := CascadeMask(b, dir, x);
    forall t | 0 <= t < CellCount && v[t]
      ensures InBounds(AddDir(PosOf(t), dir))
      ensures b[Idx(AddDir(PosOf(t), dir))].Empty? || v[Idx(AddDir(PosOf(t), dir))]
    {
      var n := AddDir(PosOf(t), dir);
      assert !Obstacle(b, blocks, n);
      if b[Idx(n)].Piece? && b[Idx(n)].block != b[t].block {
        assert PushStep(b, dir, b[t].block, b[Idx(n)].block);
        CascadeExtend(b, dir, x, b[t].block, b[Idx(n)].block);
      }
    }
  }

  /** The board after the move: a cell whose source one step back moves
      receives that source; a moving cell nothing moves onto becomes empty;
      every other cell keeps its content. */
  function ShiftedAt(src: seq<Cell>, v: seq<bool>, dir: Dir, q: nat): Cell
    requires |src| == CellCount && |v| == CellCount && q < CellCount
  {
    var p := Back(PosOf(q), dir);
    if InBounds(p) && v[Idx(p)] then src[Idx(p)] else if v[q] then Empty else src[q]
  }

  function Shifted(src: seq<Cell>, v: seq<bool>, dir: Dir): (r: seq<Cell>)
    requires |src| == CellCount && |v| == CellCount
    ensures |r| == CellCount && forall q :: 0 <= q < CellCount ==> r[q] == ShiftedAt(src, v, dir, q)
  {
    ShiftedUpTo(src, v, dir, CellCount)
  }

  /** The first n cells of Shifted. */
  function ShiftedUpTo(src: seq<Cell>, v: seq<bool>, dir: Dir, n: nat): (r: seq<Cell>)
    requires |src| == CellCount && |v| == CellCount && n <= CellCount
    ensures |r| == n && forall q :: 0 <= q < n ==> r[q] == ShiftedAt(src, v, dir, q)
  {
    if n == 0 then [] else ShiftedUpTo(src, v, dir, n - 1) + [ShiftedAt(src, v, dir, n - 1)]
  }

  /** A cell that neither moves nor is empty keeps its content: no moving
      cell lands on it. */
  lemma ShiftedKeeps(src: seq<Cell>, v: seq<bool>, dir: Dir, q: nat)
    requires |src| == CellCount && |v| == CellCount && dir != NoDir && q < CellCount
    requires MoveMask(src, v, dir) && !v[q] && !src[q].Empty?
    ensures Shifted(src, v, dir)[q] == src[q]
  {
    var p := Back(PosOf(q), dir);
    if InBounds(p) && v[Idx(p)] {
      BackTarget(src, v, dir, Idx(p), q);
      assert false;
    }
  }

  /** The new anchor pos of block k lies one step past a moved cell of k
      that was written before step t. */
  ghost predicate MovedTo(src: seq<Cell>, v: seq<bool>, dir: Dir, k: nat, pos: Pos, t: int)
    requires |src| == CellCount && |v| == CellCount
  {
    var c := Back(pos, dir);
    InBounds(c) && v[Idx(c)] && CellOf(src, Idx(c), k) && Idx(c) < t
  }

  // ---------------------------------------------------------------------
  // The row-major writing loop

  /** The destination board once the source cells before t are written. */
  ghost function PartialAt(src: seq<Cell>, v: seq<bool>, dir: Dir, t: int, q: nat): Cell
    requires |src| == CellCount && |v| == CellCount && q < CellCount
  {
    var p := Back(PosOf(q), dir);
    if InBounds(p) && v[Idx(p)] && Idx(p) < t then src[Idx(p)]
    else if !v[q] && q < t then src[q]
    else Empty
  }

  /** Block k before step t: the fixed flag is kept and an unmoved block keeps
      its anchor; a moved block has its old anchor, not yet written, or one
      past a moved cell of its own. */
  ghost predicate AnchorAt(src: seq<Cell>, v: seq<bool>, dir: Dir, t: int, k: nat, b0: Block, blk: Block)
    requires |src| == CellCount && |v| == CellCount
  {
    InBounds(b0.pos) && blk.fixed == b0.fixed
    && (!v[Idx(b0.pos)] ==> blk.pos == b0.pos)
    && (v[Idx(b0.pos)] ==> (blk.pos == b0.pos && Idx(b0.pos) >= t) || MovedTo(src, v, dir, k, blk.pos, t))
    && (v[Idx(b0.pos)] && (dir == Left || dir == Up) ==>
          (blk.pos == b0.pos && Idx(b0.pos) >= t) || (blk.pos == AddDir(b0.pos, dir) && Idx(b0.pos) < t))
  }

  /** The cell where source cell t is written. */
  function Target(v: seq<bool>, dir: Dir, t: nat): Pos
    requires |v| == CellCount && t < CellCount
  {
    if v[t] then AddDir(PosOf(t), dir) else PosOf(t)
  }

  lemma BackTarget(src: seq<Cell>, v: seq<bool>, dir: Dir, t: nat, q: nat)
    requires |src| == CellCount && |v| == CellCount && dir != NoDir && t < CellCount && q < CellCount
    requires InBounds(Back(PosOf(q), dir)) && Idx(Back(PosOf(q), dir)) == t
    ensures PosOf(q) == AddDir(PosOf(t), dir)
  {
    PosOfIdx(Back(PosOf(q), dir));
  }

  /** Writing source cell t changes the partial board at its target only: a
      moving cell always finds it empty, a cell in place finds it empty unless
      a cell was moved there before. */
  lemma PartialNext(src: seq<Cell>, v: seq<bool>, dir: Dir, t: nat)
    requires |src| == CellCount && |v| == CellCount && dir != NoDir && t < CellCount
    requires MoveMask(src, v, dir)
    ensures InBounds(Target(v, dir, t))
    ensures var g := Idx(Target(v, dir, t));
            (forall q :: 0 <= q < CellCount && q != g ==> PartialAt(src, v, dir, t + 1, q) == PartialAt(src, v, dir, t, q))
            && (v[t] ==> PartialAt(src, v, dir, t, g).Empty? && PartialAt(src, v, dir, t + 1, g) == src[t])
            && (!v[t] ==>
                  g == t
                  && (PartialAt(src, v, dir, t, t).Empty? ==> PartialAt(src, v, dir, t + 1, t) == src[t])
                  && (!PartialAt(src, v, dir, t, t).Empty? ==> PartialAt(src, v, dir, t + 1, t) == PartialAt(src, v, dir, t, t)))
  {
    var g := Idx(Target(v, dir, t));
    forall q | 0 <= q < CellCount && q != g
      ensures PartialAt(src, v, dir, t + 1, q) == PartialAt(src, v, dir, t, q)
    {
      var p := Back(PosOf(q), dir);
      if InBounds(p) && Idx(p) == t {
        BackTarget(src, v, dir, t, q);
        PosOfIdx(AddDir(PosOf(t), dir));
      }
    }
    if v[t] {
      var n := AddDir(PosOf(t), dir);
      PosOfIdx(n);
      PosOfIdx(PosOf(t));
      assert Back(PosOf(g), dir) == PosOf(t);
    } else {
      PosOfIdx(PosOf(t));
    }
  }

  /** The anchor bookkeeping of one step. */
  lemma AnchorNext(src: seq<Cell>, v: seq<bool>, dir: Dir, t: nat, k: nat, b0: Block, blk: Block, written: bool)
    requires |src| == CellCount && |v| == CellCount && dir != NoDir && t < CellCount
    requires MoveMask(src, v, dir) && InBounds(b0.pos) && CellOf(src, Idx(b0.pos), k)
    requires AnchorAt(src, v, dir, t, k, b0, blk)
    requires v[t] ==> written
    ensures var patch := written && CellOf(src, t, k) && blk.pos == PosOf(t);
            AnchorAt(src, v, dir, t + 1, k, b0, if patch then blk.(pos := Target(v, dir, t)) else blk)
  {
    var a := b0.pos;
    PosOfIdx(a);
    PosOfIdx(PosOf(t));
    if CellOf(src, t, k) {
      assert SameBlock(src, t, Idx(a));
    }
    if v[Idx(a)] && blk.pos == PosOf(t) && CellOf(src, t, k) {
      PosOfIdx(AddDir(PosOf(t), dir));
      assert Back(AddDir(PosOf(t), dir), dir) == PosOf(t);
    }
  }

  /** The destination after the writing loop has handled source cells below
      t: its cells and its block table. */
  ghost predicate Written(src: seq<Cell>, v: seq<bool>, dir: Dir, t: int, out: seq<Cell>,
                          blocks: seq<Block>, blocks0: seq<Block>)
    requires |src| == CellCount && |v| == CellCount
  {
    |out| == CellCount && |blocks| == |blocks0|
    && (forall q :: 0 <= q < CellCount ==> out[q] == PartialAt(src, v, dir, t, q))
    && (forall k :: 0 <= k < |blocks0| ==> AnchorAt(src, v, dir, t, k, blocks0[k], blocks[k]))
  }

  /** The cells after step t: the target of t receives it when it was empty. */
  lemma CellsNext(src: seq<Cell>, v: seq<bool>, dir: Dir, t: nat, out: seq<Cell>, out1: seq<Cell>, g: nat, written: bool)
    requires |src| == CellCount && |v| == CellCount && dir != NoDir && t < CellCount
    requires MoveMask(src, v, dir) && g == Idx(Target(v, dir, t)) && InBounds(Target(v, dir, t))
    requires |out| == CellCount && forall q :: 0 <= q < CellCount ==> out[q] == PartialAt(src, v, dir, t, q)
    requires written == out[g].Empty? && out1 == if written then out[g := src[t]] else out
    ensures forall q :: 0 <= q < CellCount ==> out1[q] == PartialAt(src, v, dir, t + 1, q)
  {
    PartialNext(src, v, dir, t);
  }

  /** One step of the loop: source cell t is written at its target unless the
      target already holds something, and the anchor of its block follows it. */
  method WriteCell(src: GameState, v: array<bool>, dir: Dir, dest: GameState, t: nat,
                   ghost blocks0: seq<Block>, ghost s: seq<Cell>, ghost vs: seq<bool>)
    requires src.board.Length == CellCount && dest.board.Length == CellCount && v.Length == CellCount
    requires src != dest && src.board != dest.board && dir != NoDir && t < CellCount
    requires s == src.board[..] && vs == v[..]
    requires MoveMask(s, vs, dir) && LabelsOk(s, blocks0) && AnchorsOk(s, blocks0)
    requires Written(s, vs, dir, t, dest.board[..], dest.blocks, blocks0)
    modifies dest, dest.board
    ensures Written(s, vs, dir, t + 1, dest.board[..], dest.blocks, blocks0)
  {
    ghost var out, bl := dest.board[..], dest.blocks;
    TargetFree(s, vs, dir, t, out);
    var target := if v[t] then AddDir(PosOf(t), dir) else PosOf(t);
    assert target == Target(vs, dir, t);
    var g := Idx(target);
    var written := false;
    if dest.board[g].Empty? {
      written := true;
      var cell := src.board[t];
      dest.board[g] := cell;
      if cell.Piece? && dest.blocks[cell.block].pos == PosOf(t) {
        dest.blocks := dest.blocks[cell.block := dest.blocks[cell.block].(pos := target)];
      }
    }
    CellsNext(s, vs, dir, t, out, dest.board[..], g, written);
    AnchorsNext(s, vs, dir, t, bl, dest.blocks, blocks0, written);
  }

  /** The target of cell t is on the board, and free while unwritten when t
      moves. */
  lemma TargetFree(src: seq<Cell>, v: seq<bool>, dir: Dir, t: nat, out: seq<Cell>)
    requires |src| == CellCount && |v| == CellCount && dir != NoDir && t < CellCount
    requires MoveMask(src, v, dir)
    requires |out| == CellCount && forall q :: 0 <= q < CellCount ==> out[q] == PartialAt(src, v, dir, t, q)
    ensures InBounds(Target(v, dir, t)) && (v[t] ==> out[Idx(Target(v, dir, t))].Empty?)
  {
    PartialNext(src, v, dir, t);
  }

  /** The block table after step t: the block of cell t has its anchor moved
      to the target when the anchor was at t and t was written. */
  lemma AnchorsNext(src: seq<Cell>, v: seq<bool>, dir: Dir, t: nat, bl: seq<Block>, bl1: seq<Block>,
                    blocks0: seq<Block>, written: bool)
    requires |src| == CellCount && |v| == CellCount && dir != NoDir && t < CellCount
    requires MoveMask(src, v, dir) && LabelsOk(src, blocks0) && AnchorsOk(src, blocks0)
    requires |bl| == |blocks0| && forall k :: 0 <= k < |blocks0| ==> AnchorAt(src, v, dir, t, k, blocks0[k], bl[k])
    requires v[t] ==> written
    requires bl1 == if written && src[t].Piece? && src[t].block < |bl| && bl[src[t].block].pos == PosOf(t)
                    then bl[src[t].block := bl[src[t].block].(pos := Target(v, dir, t))] else bl
    ensures |bl1| == |blocks0| && forall k :: 0 <= k < |blocks0| ==> AnchorAt(src, v, dir, t + 1, k, blocks0[k], bl1[k])
  {
    forall k | 0 <= k < |blocks0|
      ensures AnchorAt(src, v, dir, t + 1, k, blocks0[k], bl1[k])
    {
      assert AnchorOk(src, blocks0, k);
      AnchorNext(src, v, dir, t, k, blocks0[k], bl[k], written);
    }
  }

  /** The writing loop of move_block, into a cleared destination holding
      the source's block table. */
  method WriteShifted(src: GameState, v: array<bool>, dir: Dir, dest: GameState)
    requires src.board.Length == CellCount && dest.board.Length == CellCount && v.Length == CellCount
    requires src != dest && src.board != dest.board && dir != NoDir
    requires MoveMask(src.board[..], v[..], dir) && LabelsOk(src.board[..], src.blocks) && AnchorsOk(src.board[..], src.blocks)
    requires dest.blocks == src.blocks && forall q :: 0 <= q < CellCount ==> dest.board[q] == Empty
    modifies dest, dest.board
    ensures dest.board[..] == Shifted(src.board[..], v[..], dir)
    ensures |dest.blocks| == |src.blocks|
    ensures forall k :: 0 <= k < |src.blocks| ==> AnchorAt(src.board[..], v[..], dir, CellCount, k, src.blocks[k], dest.blocks[k])
  {
    ghost var blocks0, s, vs := src.blocks, src.board[..], v[..];
    WrittenStart(s, vs, dir, dest.board[..], blocks0);
    var t := 0;
    for i := 0 to Height
      invariant src.blocks == blocks0 && src.board[..] == s && v[..] == vs
      invariant t == i * Width && Written(s, vs, dir, t, dest.board[..], dest.blocks, blocks0)
    {
      for j := 0 to Width
        invariant src.blocks == blocks0 && src.board[..] == s && v[..] == vs
        invariant t == i * Width + j && Written(s, vs, dir, t, dest.board[..], dest.blocks, blocks0)
      {
        WriteCell(src, v, dir, dest, t, blocks0, s, vs);
        t := t + 1;
      }
    }
    WrittenEnd(s, vs, dir, t, dest.board[..], dest.blocks, blocks0);
  }

  /** Before the loop nothing is written and the table is the source's. */
  lemma WrittenStart(src: seq<Cell>, v: seq<bool>, dir: Dir, out: seq<Cell>, blocks0: seq<Block>)
    requires |src| == CellCount && |v| == CellCount && AnchorsOk(src, blocks0)
    requires |out| == CellCount && forall q :: 0 <= q < CellCount ==> out[q] == Empty
    ensures Written(src, v, dir, 0, out, blocks0, blocks0)
  {
    forall k | 0 <= k < |blocks0|
      ensures AnchorAt(src, v, dir, 0, k, blocks0[k], blocks0[k])
    {
      assert AnchorOk(src, blocks0, k);
    }
  }

  /** After the last cell the destination is the shifted board. */
  lemma WrittenEnd(src: seq<Cell>, v: seq<bool>, dir: Dir, t: int, out: seq<Cell>, blocks: seq<Block>, blocks0: seq<Block>)
    requires |src| == CellCount && |v| == CellCount && t == CellCount
    requires Written(src, v, dir, t, out, blocks, blocks0)
    ensures out == Shifted(src, v, dir)
  {
    var r := Shifted(src, v, dir);
    forall q | 0 <= q < CellCount
      ensures out[q] == r[q]
    {
    }
  }

  // ---------------------------------------------------------------------
  // The moved state is well formed

  /** A walk inside one block carries the label of its first cell. */
  lemma {:induction false} PathLabels(b: seq<Cell>, path: seq<Pos>)
    requires |b| == CellCount && LabelPath(b, path) && |path| > 0
    ensures forall k :: 0 <= k < |path| ==> b[Idx(path[k])].block == b[Idx(path[0])].block
  {
    if |path| > 1 {
      var init := path[..|path| - 1];
      assert LabelPath(b, init) by {
        forall k | 0 <= k < |init| - 1
          ensures Link(b, init[k], init[k + 1])
        {
          assert init[k] == path[k] && init[k + 1] == path[k + 1];
        }
      }
      PathLabels(b, init);
      forall k | 0 <= k < |path|
        ensures b[Idx(path[k])].block == b[Idx(path[0])].block
      {
        if k < |path| - 1 {
          assert path[k] == init[k];
        } else {
          assert path[k - 1] == init[k - 1];
        }
      }
    }
  }

  /** Where a piece of the moved board came from: one step back, from a
      moving cell, or from the same cell, which does not move. */
  lemma ShiftedSource(src: seq<Cell>, v: seq<bool>, dir: Dir, q: nat) returns (p: nat)
    requires |src| == CellCount && |v| == CellCount && dir != NoDir && MoveMask(src, v, dir)
    requires q < CellCount && ShiftedAt(src, v, dir, q).Piece?
    ensures p < CellCount && ShiftedAt(src, v, dir, q) == src[p]
    ensures (v[p] && PosOf(q) == AddDir(PosOf(p), dir)) || (p == q && !v[q])
  {
    var c := Back(PosOf(q), dir);
    if InBounds(c) && v[Idx(c)] {
      p := Idx(c);
      PosOfIdx(c);
    } else {
      p := q;
    }
  }

  /** A cell that moves lands where its content is found afterwards. */
  lemma MovedLands(src: seq<Cell>, v: seq<bool>, dir: Dir, p: Pos)
    requires |src| == CellCount && |v| == CellCount && dir != NoDir && MoveMask(src, v, dir)
    requires InBounds(p) && v[Idx(p)]
    ensures InBounds(AddDir(p, dir)) && ShiftedAt(src, v, dir, Idx(AddDir(p, dir))) == src[Idx(p)]
  {
    PosOfIdx(p);
    PosOfIdx(AddDir(p, dir));
    assert Back(PosOf(Idx(AddDir(p, dir))), dir) == p;
  }

  /** A piece that does not move stays where it is. */
  lemma StillStays(src: seq<Cell>, v: seq<bool>, dir: Dir, p: Pos)
    requires |src| == CellCount && |v| == CellCount && dir != NoDir && MoveMask(src, v, dir)
    requires InBounds(p) && !v[Idx(p)] && src[Idx(p)].Piece?
    ensures ShiftedAt(src, v, dir, Idx(p)) == src[Idx(p)]
  {
    var c := Back(PosOf(Idx(p)), dir);
    if InBounds(c) && v[Idx(c)] {
      PosOfIdx(p);
      PosOfIdx(c);
      assert false;
    }
  }

  /** A walk inside a moving block, moved along, is a walk on the moved
      board. */
  lemma MovedPath(src: seq<Cell>, v: seq<bool>, dir: Dir, path: seq<Pos>) returns (moved: seq<Pos>)
    requires |src| == CellCount && |v| == CellCount && dir != NoDir && MoveMask(src, v, dir)
    requires LabelPath(src, path) && forall k :: 0 <= k < |path| ==> v[Idx(path[k])]
    ensures |moved| == |path| && LabelPath(Shifted(src, v, dir), moved)
    ensures forall k :: 0 <= k < |path| ==> moved[k] == AddDir(path[k], dir)
  {
    var d := Shifted(src, v, dir);
    moved := Stepped(path, dir);
    forall k | 0 <= k < |path|
      ensures InBounds(moved[k]) && d[Idx(moved[k])] == src[Idx(path[k])]
    {
      MovedCell(src, v, dir, path[k]);
    }
    forall k | 0 <= k < |path| - 1
      ensures Link(d, moved[k], moved[k + 1])
    {
      MovedLink(src, v, dir, path[k], path[k + 1]);
    }
  }

  /** Every position of a path one step over. */
  function Stepped(path: seq<Pos>, dir: Dir): (r: seq<Pos>)
    ensures |r| == |path| && forall k :: 0 <= k < |path| ==> r[k] == AddDir(path[k], dir)
  {
    if path == [] then [] else Stepped(path[..|path| - 1], dir) + [AddDir(path[|path| - 1], dir)]
  }

  lemma MovedCell(src: seq<Cell>, v: seq<bool>, dir: Dir, p: Pos)
    requires |src| == CellCount && |v| == CellCount && dir != NoDir && MoveMask(src, v, dir)
    requires InBounds(p) && v[Idx(p)]
    ensures InBounds(AddDir(p, dir)) && Shifted(src, v, dir)[Idx(AddDir(p, dir))] == src[Idx(p)]
  {
    MovedLands(src, v, dir, p);
  }

  /** A link between two moved cells is a link between their images. */
  lemma MovedLink(src: seq<Cell>, v: seq<bool>, dir: Dir, p: Pos, q: Pos)
    requires |src| == CellCount && |v| == CellCount && dir != NoDir && MoveMask(src, v, dir)
    requires Link(src, p, q) && v[Idx(p)] && v[Idx(q)]
    ensures Link(Shifted(src, v, dir), AddDir(p, dir), AddDir(q, dir))
  {
    MovedLands(src, v, dir, p);
    MovedLands(src, v, dir, q);
    assert Toward(AddDir(p, dir), AddDir(q, dir)) == Toward(p, q);
  }

  /** A walk inside a block that does not move is a walk on the moved board. */
  lemma StillPath(src: seq<Cell>, v: seq<bool>, dir: Dir, path: seq<Pos>)
    requires |src| == CellCount && |v| == CellCount && dir != NoDir && MoveMask(src, v, dir)
    requires LabelPath(src, path) && forall k :: 0 <= k < |path| ==> !v[Idx(path[k])]
    ensures LabelPath(Shifted(src, v, dir), path)
  {
    var d := Shifted(src, v, dir);
    forall k | 0 <= k < |path|
      ensures d[Idx(path[k])] == src[Idx(path[k])]
    {
      StillStays(src, v, dir, path[k]);
    }
  }

  /** Two cells of one block on the moved board are still joined by a walk
      inside the block: the old walk, moved along when the block moved. */
  lemma ShiftedConnected(src: seq<Cell>, v: seq<bool>, dir: Dir, i: int, j: int)
    requires |src| == CellCount && |v| == CellCount && dir != NoDir && MoveMask(src, v, dir)
    requires LabelConnected(src) && SameBlock(Shifted(src, v, dir), i, j)
    ensures Reaches(Shifted(src, v, dir), PosOf(i), PosOf(j))
  {
    var d := Shifted(src, v, dir);
    var pi := ShiftedSource(src, v, dir, i);
    var pj := ShiftedSource(src, v, dir, j);
    assert SameBlock(src, pi, pj);
    assert Reaches(src, PosOf(pi), PosOf(pj));
    var path :| LabelPath(src, path) && |path| > 0 && path[0] == PosOf(pi) && path[|path| - 1] == PosOf(pj);
    PathLabels(src, path);
    PosOfIdx(PosOf(pi));
    forall k | 0 <= k < |path|
      ensures v[Idx(path[k])] == v[pi]
    {
      assert SameBlock(src, Idx(path[k]), pi);
    }
    if v[pi] {
      var moved := MovedPath(src, v, dir, path);
      assert moved[0] == PosOf(i) && moved[|moved| - 1] == PosOf(j);
    } else {
      StillPath(src, v, dir, path);
      assert path[0] == PosOf(i) && path[|path| - 1] == PosOf(j);
    }
  }

  /** A move keeps the state well formed: labels name blocks, every anchor is
      a cell of its block, and blocks stay connected. */
  lemma ShiftedValid(src: seq<Cell>, blocks: seq<Block>, v: seq<bool>, dir: Dir, blocks1: seq<Block>)
    requires ValidState(src, blocks) && |v| == CellCount && dir != NoDir && MoveMask(src, v, dir)
    requires |blocks1| == |blocks|
    requires forall k :: 0 <= k < |blocks| ==> AnchorAt(src, v, dir, CellCount, k, blocks[k], blocks1[k])
    ensures ValidState(Shifted(src, v, dir), blocks1)
  {
    var d := Shifted(src, v, dir);
    forall q | 0 <= q < CellCount && d[q].Piece?
      ensures d[q].block < |blocks1|
    {
      var p := ShiftedSource(src, v, dir, q);
    }
    forall k | 0 <= k < |blocks1|
      ensures AnchorOk(d, blocks1, k)
    {
      assert AnchorOk(src, blocks, k);
      var a := blocks[k].pos;
      if v[Idx(a)] {
        var c := Back(blocks1[k].pos, dir);
        assert MovedTo(src, v, dir, k, blocks1[k].pos, CellCount);
        MovedLands(src, v, dir, c);
        assert AddDir(c, dir) == blocks1[k].pos;
      } else {
        StillStays(src, v, dir, a);
      }
    }
    forall i, j | SameBlock(d, i, j)
      ensures Reaches(d, PosOf(i), PosOf(j))
    {
      ShiftedConnected(src, v, dir, i, j);
    }
  }

  // ---------------------------------------------------------------------
  // move_block

  /** move_block: moves block x one step in direction dir together with every
      block it pushes. The move is made exactly when it can be (MoveOk). With
      no destination only the verdict is computed. Otherwise the destination
      holds the shifted board and the block table with the moved anchors, is
      again well formed, and the moved blocks and those resting on them are
      noted for gravity. A refused move leaves the gravity stack and the
      destination as they were. */
  method MoveBlock(game: GameState, x: nat, dir: Dir, dest: GameState?, visited: array<bool>, grav: seq<nat>)
    returns (ok: bool, grav1: seq<nat>)
    requires game.board.Length == CellCount && visited.Length == CellCount && dir != NoDir
    requires ValidState(game.board[..], game.blocks) && x < |game.blocks| && ValidIndices(game.blocks, grav)
    requires dest != null ==> dest != game && dest.board != game.board && dest.board.Length == CellCount
    modifies visited, dest, if dest == null then {} else {dest.board}
    ensures ok <==> MoveOk(game.board[..], game.blocks, x, dir)
    ensures !ok || dest == null ==> grav1 == grav
    ensures !ok && dest != null ==> dest.board[..] == old(dest.board[..]) && dest.blocks == old(dest.blocks)
    ensures ok && dest != null ==>
              dest.board[..] == Shifted(game.board[..], CascadeMask(game.board[..], dir, x), dir)
              && |dest.blocks| == |game.blocks|
              && (forall k :: 0 <= k < |game.blocks| ==>
                    AnchorAt(game.board[..], CascadeMask(game.board[..], dir, x), dir, CellCount, k, game.blocks[k], dest.blocks[k]))
              && ValidState(dest.board[..], dest.blocks)
    ensures ok && dest != null ==>
              grav <= grav1 && ValidIndices(game.blocks, grav1)
              && forall t :: 0 <= t < CellCount && CascadeMask(game.board[..], dir, x)[t] ==>
                   GravityNoted(game.board[..], dir, grav1, t)
  {
    ok, grav1 := MoveExplore(game.board, game.blocks, x, dir, visited, grav);
    if !ok {
      return;
    }
    if dest == null {
      grav1 := grav;
      return;
    }
    ghost var mask := CascadeMask(game.board[..], dir, x);
    assert visited[..] == mask;
    CascadeIsMask(game.board[..], game.blocks, x, dir);
    dest.Clear();
    dest.CopyBlockData(game);
    assert LabelsOk(game.board[..], game.blocks) && AnchorsOk(game.board[..], game.blocks);
    WriteShifted(game, visited, dir, dest);
    ShiftedValid(game.board[..], game.blocks, mask, dir, dest.blocks);
  }
}
