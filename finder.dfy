/**
 * The block finder run once on a freshly loaded board: every maximal group of
 * pieces that may connect becomes one block, labelled in the order the
 * row-major scan first meets it; the load-time fixed marker (bit 7 of the
 * colour) is moved from the cells into the block table.
 *
 * The methods follow the source's loops over the board array and the visited
 * array; each is proved equal to a recursive function (FillRun, ScanRun) that
 * performs the same steps on values, and what the finder promises is proved
 * about those functions.
 */
module Finder {
  import opened Board
  import opened Flood

  /** The cell a loaded piece becomes once it is labelled: bit 7 of the colour
      cleared, the connection mask kept, the block label set. */
  function Labelled(o: Cell, blockIdx: nat): (c: Cell)
    requires o.Piece?
    ensures c.Piece? && c.block == blockIdx && c.noConnect == o.noConnect
  {
    Piece(o.color & 0x7f, o.noConnect, blockIdx)
  }

  // ---------------------------------------------------------------------
  // The connection graph of a board

  /** The piece at p may join its neighbour in direction e. */
  predicate CanStep(orig: seq<Cell>, p: Pos, e: Dir)
    requires |orig| == CellCount
  {
    e != NoDir && InBounds(p) && InBounds(AddDir(p, e))
    && orig[Idx(p)].Piece? && orig[Idx(AddDir(p, e))].Piece?
    && PiecesCanConnect(orig[Idx(p)], orig[Idx(AddDir(p, e))], e)
  }

  predicate StepIn(orig: seq<Cell>, p: Pos, q: Pos, e: Dir)
    requires |orig| == CellCount
  {
    q == AddDir(p, e) && CanStep(orig, p, e)
  }

  /** One edge of the connection graph. */
  predicate Step(orig: seq<Cell>, p: Pos, q: Pos)
    requires |orig| == CellCount
  {
    StepIn(orig, p, q, Left) || StepIn(orig, p, q, Right) || StepIn(orig, p, q, Up) || StepIn(orig, p, q, Down)
  }

  ghost predicate ConnPath(orig: seq<Cell>, path: seq<Pos>)
    requires |orig| == CellCount
  {
    (forall k :: 0 <= k < |path| ==> InBounds(path[k]) && orig[Idx(path[k])].Piece?) &&
    (forall k :: 0 <= k < |path| - 1 ==> Step(orig, path[k], path[k + 1]))
  }

  ghost predicate WitnessOk(orig: seq<Cell>, a: Pos, b: Pos, path: seq<Pos>)
    requires |orig| == CellCount
  {
    ConnPath(orig, path) && |path| > 0 && path[0] == a && path[|path| - 1] == b
  }

  /** a and b lie in the same connected group of the loaded board. */
  ghost predicate Connected(orig: seq<Cell>, a: Pos, b: Pos)
    requires |orig| == CellCount
  {
    exists path :: WitnessOk(orig, a, b, path)
  }

  /** An edge of the connection graph can be walked the other way. */
  lemma StepBack(orig: seq<Cell>, p: Pos, e: Dir)
    requires |orig| == CellCount && CanStep(orig, p, e)
    ensures CanStep(orig, AddDir(p, e), Opposite(e))
    ensures AddDir(AddDir(p, e), Opposite(e)) == p
    ensures PosOf(Idx(AddDir(p, e))) == AddDir(p, e)
  {
    IdxInjective(PosOf(Idx(AddDir(p, e))), AddDir(p, e));
    AddDirInverse(p, e);
    PiecesCanConnectSymmetric(orig[Idx(p)], orig[Idx(AddDir(p, e))], e);
  }

  /** The direction of an edge of the connection graph. */
  lemma StepDir(orig: seq<Cell>, p: Pos, q: Pos) returns (e: Dir)
    requires |orig| == CellCount && Step(orig, p, q)
    ensures e != NoDir && q == AddDir(p, e) && CanStep(orig, p, e)
  {
    if StepIn(orig, p, q, Left) { e := Left; }
    else if StepIn(orig, p, q, Right) { e := Right; }
    else if StepIn(orig, p, q, Up) { e := Up; }
    else { e := Down; }
  }

  lemma StepSymmetric(orig: seq<Cell>, p: Pos, q: Pos)
    requires |orig| == CellCount && Step(orig, p, q)
    ensures Step(orig, q, p)
  {
    var e := StepDir(orig, p, q);
    StepBack(orig, p, e);
    assert StepIn(orig, q, p, Opposite(e));
  }

  lemma ConnPathExtend(orig: seq<Cell>, path: seq<Pos>, e: Dir)
    requires |orig| == CellCount && ConnPath(orig, path) && |path| > 0
    requires CanStep(orig, path[|path| - 1], e)
    ensures ConnPath(orig, path + [AddDir(path[|path| - 1], e)])
  {
    var p := path[|path| - 1];
    var q := AddDir(p, e);
    assert StepIn(orig, p, q, e);
    var r := path + [q];
    forall k | 0 <= k < |r| - 1
      ensures Step(orig, r[k], r[k + 1])
    {
      if k < |path| - 1 {
        assert r[k] == path[k] && r[k + 1] == path[k + 1];
      }
    }
  }

  lemma ConnectedStep(orig: seq<Cell>, a: Pos, p: Pos, q: Pos)
    requires |orig| == CellCount && Connected(orig, a, p) && Step(orig, p, q)
    ensures Connected(orig, a, q)
  {
    var path :| WitnessOk(orig, a, p, path);
    var e := StepDir(orig, p, q);
    ConnPathExtend(orig, path, e);
    assert WitnessOk(orig, a, q, path + [q]);
  }

  lemma ConnectedSymmetric(orig: seq<Cell>, a: Pos, b: Pos)
    requires |orig| == CellCount && Connected(orig, a, b)
    ensures Connected(orig, b, a)
  {
    var path :| WitnessOk(orig, a, b, path);
    var r := Reverse(path);
    forall k | 0 <= k < |r| - 1
      ensures Step(orig, r[k], r[k + 1])
    {
      var m := |path| - 2 - k;
      assert r[k] == path[m + 1] && r[k + 1] == path[m];
      StepSymmetric(orig, path[m], path[m + 1]);
    }
    assert WitnessOk(orig, b, a, r);
  }

  lemma ConnectedTransitive(orig: seq<Cell>, a: Pos, b: Pos, c: Pos)
    requires |orig| == CellCount && Connected(orig, a, b) && Connected(orig, b, c)
    ensures Connected(orig, a, c)
  {
    var p1 :| WitnessOk(orig, a, b, p1);
    var p2 :| WitnessOk(orig, b, c, p2);
    var p := p1 + p2[1..];
    forall k | 0 <= k < |p| - 1
      ensures Step(orig, p[k], p[k + 1])
    {
      if k < |p1| - 1 {
        assert p[k] == p1[k] && p[k + 1] == p1[k + 1];
      } else {
        var m := k - |p1| + 1;
        assert p[k] == p2[m] && p[k + 1] == p2[m + 1];
      }
    }
    assert WitnessOk(orig, a, c, p);
  }

  /** Clearing the fixed marker and relabelling do not change what a piece may
      connect to. */
  lemma LabelledCanConnect(o: Cell, blockIdx: nat, t: Cell, e: Dir)
    requires o.Piece? && t.Piece? && e != NoDir
    ensures PiecesCanConnect(Labelled(o, blockIdx), t, e) == PiecesCanConnect(o, t, e)
  {
    assert ((o.color & 0x7f) ^ t.color) & 0x7f == (o.color ^ t.color) & 0x7f;
  }

  lemma LabelledBothCanConnect(o: Cell, i: nat, t: Cell, j: nat, e: Dir)
    requires o.Piece? && t.Piece? && e != NoDir
    ensures PiecesCanConnect(Labelled(o, i), Labelled(t, j), e) == PiecesCanConnect(o, t, e)
  {
    assert ((o.color & 0x7f) ^ (t.color & 0x7f)) & 0x7f == (o.color ^ t.color) & 0x7f;
  }

  /** An edge out of a relabelled cell into a cell still as loaded is an edge
      of the loaded board. */
  lemma CanStepTransfer(orig: seq<Cell>, b: seq<Cell>, p: Pos, e: Dir, blockIdx: nat)
    requires |orig| == CellCount && |b| == CellCount && e != NoDir
    requires InBounds(p) && orig[Idx(p)].Piece? && b[Idx(p)] == Labelled(orig[Idx(p)], blockIdx)
    requires InBounds(AddDir(p, e)) && b[Idx(AddDir(p, e))] == orig[Idx(AddDir(p, e))]
    ensures CanStep(b, p, e) == CanStep(orig, p, e)
  {
    if orig[Idx(AddDir(p, e))].Piece? {
      LabelledCanConnect(orig[Idx(p)], blockIdx, orig[Idx(AddDir(p, e))], e);
    }
  }

  /** The relabelling of fill_block_initial, as the source writes it, is
      Labelled; relabelling twice changes nothing. */
  lemma RelabelCell(c: Cell, blockIdx: nat)
    requires c.Piece?
    ensures (if IsFixedInitial(c.color) then Piece(c.color & 0x7f, c.noConnect, blockIdx)
             else Piece(c.color, c.noConnect, blockIdx)) == Labelled(c, blockIdx)
    ensures !IsFixedInitial(Labelled(c, blockIdx).color)
    ensures Labelled(Labelled(c, blockIdx), blockIdx) == Labelled(c, blockIdx)
  {
    assert !IsFixedInitial(c.color) ==> c.color & 0x7f == c.color;
    assert (c.color & 0x7f) & 0x80 == 0;
    assert (c.color & 0x7f) & 0x7f == c.color & 0x7f;
  }

  // ---------------------------------------------------------------------
  // The neighbour scan of one popped cell

  /** The push (or not) of the neighbour in direction e. */
  function PushIf(b: seq<Cell>, v: seq<bool>, p: Pos, e: Dir): seq<Pos>
    requires |b| == CellCount && |v| == CellCount && InBounds(p) && b[Idx(p)].Piece? && e != NoDir
  {
    var q := AddDir(p, e);
    if InBounds(q) && b[Idx(q)].Piece? && !v[Idx(q)] && PiecesCanConnect(b[Idx(p)], b[Idx(q)], e)
    then [q] else []
  }

  /** The pushes of the directions with a code below c, in direction order. */
  function PushesUpTo(b: seq<Cell>, v: seq<bool>, p: Pos, c: nat): seq<Pos>
    requires |b| == CellCount && |v| == CellCount && InBounds(p) && b[Idx(p)].Piece? && c <= 4
  {
    if c == 0 then [] else PushesUpTo(b, v, p, c - 1) + PushIf(b, v, p, DirOf(c - 1))
  }

  function Pushes(b: seq<Cell>, v: seq<bool>, p: Pos): seq<Pos>
    requires |b| == CellCount && |v| == CellCount && InBounds(p) && b[Idx(p)].Piece?
  {
    PushesUpTo(b, v, p, 4)
  }

  /** Every pushed cell is an unvisited piece joined to p by an edge. */
  lemma {:induction false} PushesSound(b: seq<Cell>, v: seq<bool>, p: Pos, c: nat)
    requires |b| == CellCount && |v| == CellCount && InBounds(p) && b[Idx(p)].Piece? && c <= 4
    ensures forall k :: 0 <= k < |PushesUpTo(b, v, p, c)| ==>
              InBounds(PushesUpTo(b, v, p, c)[k]) && b[Idx(PushesUpTo(b, v, p, c)[k])].Piece?
              && !v[Idx(PushesUpTo(b, v, p, c)[k])] && Step(b, p, PushesUpTo(b, v, p, c)[k])
  {
    if c > 0 {
      PushesSound(b, v, p, c - 1);
      var e := DirOf(c - 1);
      var s := PushesUpTo(b, v, p, c - 1);
      var t := PushIf(b, v, p, e);
      assert PushesUpTo(b, v, p, c) == s + t;
      if t != [] {
        assert StepIn(b, p, t[0], e);
      }
    }
  }

  /** Every unvisited neighbour the cell may connect to is pushed. */
  lemma {:induction false} PushesComplete(b: seq<Cell>, v: seq<bool>, p: Pos, c: nat)
    requires |b| == CellCount && |v| == CellCount && InBounds(p) && b[Idx(p)].Piece? && c <= 4
    ensures forall e :: Code(e) < c && CanStep(b, p, e) && !v[Idx(AddDir(p, e))] ==>
              AddDir(p, e) in PushesUpTo(b, v, p, c)
  {
    if c > 0 {
      PushesComplete(b, v, p, c - 1);
      assert PushesUpTo(b, v, p, c) == PushesUpTo(b, v, p, c - 1) + PushIf(b, v, p, DirOf(c - 1));
    }
  }

  /** The direction loop of fill_block_initial. */
  method PushConnectable(board: array<Cell>, visited: array<bool>, p: Pos, stack: seq<Pos>)
    returns (grown: seq<Pos>)
    requires board.Length == CellCount && visited.Length == CellCount && InBounds(p) && board[Idx(p)].Piece?
    ensures grown == stack + Pushes(board[..], visited[..], p)
  {
    grown := stack;
    for c := 0 to 4
      invariant grown == stack + PushesUpTo(board[..], visited[..], p, c)
    {
      var e := DirOf(c);
      var q := AddDir(p, e);
      if InBounds(q) && board[Idx(q)].Piece? && !visited[Idx(q)]
         && PiecesCanConnect(board[Idx(p)], board[Idx(q)], e) {
        grown := grown + [q];
      }
    }
  }

  // ---------------------------------------------------------------------
  // One fill

  datatype FillResult = FillResult(board: seq<Cell>, visited: seq<bool>, fixed: bool)

  predicate StackOk(b: seq<Cell>, stack: seq<Pos>)
    requires |b| == CellCount
  {
    forall k :: 0 <= k < |stack| ==> InBounds(stack[k]) && b[Idx(stack[k])].Piece?
  }

  datatype FillState = FillState(board: seq<Cell>, visited: seq<bool>, stack: seq<Pos>, fixed: bool)

  /** One pop of fill_block_initial on values: mark and relabel the top cell,
      note its fixed marker, push its unvisited connectable neighbours. */
  function FillPop(b: seq<Cell>, v: seq<bool>, stack: seq<Pos>, blockIdx: nat, fixed: bool): FillState
    requires |b| == CellCount && |v| == CellCount && StackOk(b, stack) && stack != []
  {
    var p := stack[|stack| - 1];
    var i := Idx(p);
    var b1 := b[i := Labelled(b[i], blockIdx)];
    var v1 := v[i := true];
    FillState(b1, v1, stack[..|stack| - 1] + Pushes(b1, v1, p), fixed || IsFixedInitial(b[i].color))
  }

  /** A pop keeps a well-formed stack and lowers the flood measure. */
  lemma FillPopOk(b: seq<Cell>, v: seq<bool>, stack: seq<Pos>, blockIdx: nat, fixed: bool)
    requires |b| == CellCount && |v| == CellCount && StackOk(b, stack) && stack != []
    ensures var n := FillPop(b, v, stack, blockIdx, fixed);
            |n.board| == CellCount && |n.visited| == CellCount && StackOk(n.board, n.stack)
            && (CountFalse(n.visited) < CountFalse(v)
                || (CountFalse(n.visited) == CountFalse(v) && VisitedEntries(n.visited, n.stack) < VisitedEntries(v, stack)))
  {
    var p := stack[|stack| - 1];
    var i := Idx(p);
    var b1 := b[i := Labelled(b[i], blockIdx)];
    var v1 := v[i := true];
    var pushed := Pushes(b1, v1, p);
    PushesSound(b1, v1, p, 4);
    PopMeasure(v, stack, pushed);
    var n := FillPop(b, v, stack, blockIdx, fixed);
    assert n.stack == stack[..|stack| - 1] + pushed;
    forall k | 0 <= k < |n.stack|
      ensures InBounds(n.stack[k]) && b1[Idx(n.stack[k])].Piece?
    {
      if k < |stack| - 1 {
        assert n.stack[k] == stack[k];
      } else {
        assert n.stack[k] == pushed[k - (|stack| - 1)];
      }
    }
  }

  /** The whole of fill_block_initial from a given stack, on values. */
  function FillRun(b: seq<Cell>, v: seq<bool>, stack: seq<Pos>, blockIdx: nat, fixed: bool): (r: FillResult)
    requires |b| == CellCount && |v| == CellCount && StackOk(b, stack)
    ensures |r.board| == CellCount && |r.visited| == CellCount
    decreases CountFalse(v), VisitedEntries(v, stack)
  {
    if stack == [] then FillResult(b, v, fixed)
    else
      var n := FillPop(b, v, stack, blockIdx, fixed);
      FillPopOk(b, v, stack, blockIdx, fixed);
      FillRun(n.board, n.visited, n.stack, blockIdx, n.fixed)
  }

  /** FillPop from its parts. */
  lemma FillPopParts(b: seq<Cell>, v: seq<bool>, stack: seq<Pos>, blockIdx: nat, fixed: bool,
                     b1: seq<Cell>, v1: seq<bool>, stack1: seq<Pos>, fixed1: bool)
    requires |b| == CellCount && |v| == CellCount && StackOk(b, stack) && stack != []
    requires var i := Idx(stack[|stack| - 1]);
             b1 == b[i := Labelled(b[i], blockIdx)] && v1 == v[i := true]
             && fixed1 == (fixed || IsFixedInitial(b[i].color))
    requires stack1 == stack[..|stack| - 1] + Pushes(b1, v1, stack[|stack| - 1])
    ensures FillPop(b, v, stack, blockIdx, fixed) == FillState(b1, v1, stack1, fixed1)
  {
  }

  /** The relabelling of the popped cell: the block label is set and a
      load-time fixed marker is moved out of the colour into the result. */
  method RelabelAt(board: array<Cell>, i: nat, blockIdx: nat) returns (wasFixed: bool)
    requires board.Length == CellCount && i < CellCount && board[i].Piece?
    modifies board
    ensures wasFixed == IsFixedInitial(old(board[i]).color)
    ensures board[..] == old(board[..])[i := Labelled(old(board[i]), blockIdx)]
  {
    var cell := board[i];
    RelabelCell(cell, blockIdx);
    cell := cell.(block := blockIdx);
    wasFixed := IsFixedInitial(cell.color);
    if wasFixed {
      cell := Piece(cell.color & 0x7f, cell.noConnect, cell.block);
    }
    board[i] := cell;
  }

  /** The body of the loop of fill_block_initial. */
  method FillPopCell(board: array<Cell>, visited: array<bool>, stack: seq<Pos>, blockIdx: nat, blk: Block)
    returns (stack1: seq<Pos>, blk1: Block)
    requires board.Length == CellCount && visited.Length == CellCount
    requires StackOk(board[..], stack) && stack != []
    modifies board, visited
    ensures blk1.pos == blk.pos
    ensures FillPop(old(board[..]), old(visited[..]), stack, blockIdx, blk.fixed)
            == FillState(board[..], visited[..], stack1, blk1.fixed)
  {
    ghost var b := board[..];
    ghost var v := visited[..];
    var p := stack[|stack| - 1];
    var i := Idx(p);
    stack1 := stack[..|stack| - 1];
    visited[i] := true;
    assert board[i].Piece?;
    var wasFixed := RelabelAt(board, i, blockIdx);
    blk1 := if wasFixed then blk.(fixed := true) else blk;
    stack1 := PushConnectable(board, visited, p, stack1);
    FillPopParts(b, v, stack, blockIdx, blk.fixed, board[..], visited[..], stack1, blk1.fixed);
  }

  /** fill_block_initial: labels the whole group of `start` with `blockIdx`,
      clears the fixed marker of its cells and returns its table entry. */
  method FillBlockInitial(board: array<Cell>, visited: array<bool>, start: Pos, blockIdx: nat)
    returns (blk: Block)
    requires board.Length == CellCount && visited.Length == CellCount
    requires InBounds(start) && board[Idx(start)].Piece?
    modifies board, visited
    ensures blk.pos == start
    ensures FillRun(old(board[..]), old(visited[..]), [start], blockIdx, false)
            == FillResult(board[..], visited[..], blk.fixed)
  {
    blk := Block(start, false);
    var stack := [start];
    while |stack| > 0
      invariant StackOk(board[..], stack)
      invariant FillRun(board[..], visited[..], stack, blockIdx, blk.fixed)
                == FillRun(old(board[..]), old(visited[..]), [start], blockIdx, false)
      invariant blk.pos == start
      decreases CountFalse(visited[..]), VisitedEntries(visited[..], stack)
    {
      ghost var b := board[..];
      ghost var v := visited[..];
      ghost var stack0 := stack;
      ghost var fixed0 := blk.fixed;
      stack, blk := FillPopCell(board, visited, stack, blockIdx, blk);
      FillPopOk(b, v, stack0, blockIdx, fixed0);
    }
  }

  // ---------------------------------------------------------------------
  // What one fill achieves

  /** Every connectable neighbour of cell i is visited and in i's block. */
  ghost predicate ClosedAt(orig: seq<Cell>, v: seq<bool>, b: seq<Cell>, i: nat)
    requires |orig| == CellCount && |v| == CellCount && |b| == CellCount && i < CellCount
  {
    forall e :: CanStep(orig, PosOf(i), e) ==>
      v[Idx(AddDir(PosOf(i), e))] && SameBlock(b, Idx(AddDir(PosOf(i), e)), i)
  }

  /** Every connectable neighbour of cell i is visited or waiting on the stack. */
  ghost predicate PendingAt(orig: seq<Cell>, v: seq<bool>, stack: seq<Pos>, i: nat)
    requires |orig| == CellCount && |v| == CellCount && i < CellCount
  {
    forall e :: CanStep(orig, PosOf(i), e) ==>
      v[Idx(AddDir(PosOf(i), e))] || AddDir(PosOf(i), e) in stack
  }

  /** The finder's state between two fills: visited cells are labelled pieces
      with a label below `count` and their groups are complete; unvisited
      cells are as loaded. */
  ghost predicate Scanned(orig: seq<Cell>, v: seq<bool>, b: seq<Cell>, count: nat)
  {
    |orig| == CellCount && |v| == CellCount && |b| == CellCount
    && (forall t :: 0 <= t < CellCount && v[t] ==>
          orig[t].Piece? && b[t].Piece? && b[t] == Labelled(orig[t], b[t].block) && b[t].block < count)
    && (forall t :: 0 <= t < CellCount && !v[t] ==> b[t] == orig[t])
    && (forall t :: 0 <= t < CellCount && v[t] ==> ClosedAt(orig, v, b, t))
  }

  /** The loop invariant of fill_block_initial, over the visited flags and the
      board before the fill (v0, b0) and now (v, b). */
  ghost predicate FillInv(orig: seq<Cell>, v0: seq<bool>, b0: seq<Cell>, v: seq<bool>, b: seq<Cell>,
                          stack: seq<Pos>, start: Pos, blockIdx: nat, fixed: bool)
  {
    |orig| == CellCount && |v0| == CellCount && |b0| == CellCount && |v| == CellCount && |b| == CellCount
    && InBounds(start)
    && (forall t :: 0 <= t < Idx(start) && orig[t].Piece? ==> v0[t])
    && (forall t :: 0 <= t < CellCount && v0[t] ==> v[t] && b[t] == b0[t])
    && (forall t :: 0 <= t < CellCount && !v[t] ==> b[t] == orig[t])
    && (forall t :: 0 <= t < CellCount && v[t] && !v0[t] ==>
          orig[t].Piece? && b[t] == Labelled(orig[t], blockIdx) && Idx(start) <= t
          && Connected(orig, start, PosOf(t)) && PendingAt(orig, v, stack, t))
    && (forall k :: 0 <= k < |stack| ==>
          InBounds(stack[k]) && orig[Idx(stack[k])].Piece? && !v0[Idx(stack[k])]
          && Connected(orig, start, stack[k]))
    && (v[Idx(start)] || start in stack)
    && (fixed <==> exists t :: 0 <= t < CellCount && v[t] && !v0[t] && orig[t].Piece? && IsFixedInitial(orig[t].color))
  }

  /** What one fill from `start` achieves. */
  ghost predicate FillPost(orig: seq<Cell>, v0: seq<bool>, b0: seq<Cell>, v: seq<bool>, b: seq<Cell>,
                           start: Pos, blockIdx: nat, blk: Block)
  {
    |orig| == CellCount && |v0| == CellCount && |b0| == CellCount && |v| == CellCount && |b| == CellCount
    && InBounds(start)
    && Scanned(orig, v, b, blockIdx + 1)
    && v[Idx(start)]
    && (forall t :: 0 <= t < CellCount && v0[t] ==> v[t] && b[t] == b0[t])
    && (forall t :: 0 <= t < CellCount && v[t] && !v0[t] ==>
          b[t].Piece? && b[t].block == blockIdx && Idx(start) <= t && Connected(orig, start, PosOf(t)))
    && blk.pos == start
    && (blk.fixed <==> exists t :: 0 <= t < CellCount && v[t] && !v0[t] && orig[t].Piece? && IsFixedInitial(orig[t].color))
  }

  /** A pending neighbour stays pending while the visited set grows and the
      stack keeps every entry it does not mark. */
  lemma PendingMono(orig: seq<Cell>, v: seq<bool>, s: seq<Pos>, v1: seq<bool>, s1: seq<Pos>, t: nat)
    requires |orig| == CellCount && |v| == CellCount && |v1| == CellCount && t < CellCount
    requires PendingAt(orig, v, s, t)
    requires forall j :: 0 <= j < CellCount && v[j] ==> v1[j]
    requires forall k :: 0 <= k < |s| ==> s[k] in s1 || (InBounds(s[k]) && v1[Idx(s[k])])
    ensures PendingAt(orig, v1, s1, t)
  {
    forall e | CanStep(orig, PosOf(t), e)
      ensures v1[Idx(AddDir(PosOf(t), e))] || AddDir(PosOf(t), e) in s1
    {
      var q := AddDir(PosOf(t), e);
      if !v[Idx(q)] {
        var k :| 0 <= k < |s| && s[k] == q;
      }
    }
  }

  /** The cells one pop pushes are unvisited pieces of the loaded board,
      reachable from the start. */
  lemma PushedFromStart(orig: seq<Cell>, b1: seq<Cell>, v1: seq<bool>, p: Pos, start: Pos, blockIdx: nat)
    requires |orig| == CellCount && |b1| == CellCount && |v1| == CellCount
    requires InBounds(p) && orig[Idx(p)].Piece? && b1[Idx(p)] == Labelled(orig[Idx(p)], blockIdx)
    requires forall t :: 0 <= t < CellCount && !v1[t] ==> b1[t] == orig[t]
    requires Connected(orig, start, p)
    ensures forall k :: 0 <= k < |Pushes(b1, v1, p)| ==>
              InBounds(Pushes(b1, v1, p)[k]) && orig[Idx(Pushes(b1, v1, p)[k])].Piece?
              && !v1[Idx(Pushes(b1, v1, p)[k])] && Connected(orig, start, Pushes(b1, v1, p)[k])
  {
    var pushed := Pushes(b1, v1, p);
    PushesSound(b1, v1, p, 4);
    forall k | 0 <= k < |pushed|
      ensures orig[Idx(pushed[k])].Piece? && Connected(orig, start, pushed[k])
    {
      var q := pushed[k];
      var e := StepDir(b1, p, q);
      CanStepTransfer(orig, b1, p, e, blockIdx);
      assert StepIn(orig, p, q, e);
      ConnectedStep(orig, start, p, q);
    }
  }

  /** One pop of fill_block_initial keeps the invariant. */
  lemma FillStep(orig: seq<Cell>, v0: seq<bool>, b0: seq<Cell>, v: seq<bool>, b: seq<Cell>,
                 stack: seq<Pos>, p: Pos, start: Pos, blockIdx: nat, fixed: bool)
    requires FillInv(orig, v0, b0, v, b, stack, start, blockIdx, fixed)
    requires |stack| > 0 && p == stack[|stack| - 1] && InBounds(p) && b[Idx(p)].Piece?
    ensures var i := Idx(p);
            var b1 := b[i := Labelled(b[i], blockIdx)];
            var v1 := v[i := true];
            FillInv(orig, v0, b0, v1, b1, stack[..|stack| - 1] + Pushes(b1, v1, p), start, blockIdx,
                    fixed || IsFixedInitial(b[i].color))
  {
    var i := Idx(p);
    var b1 := b[i := Labelled(b[i], blockIdx)];
    var v1 := v[i := true];
    var fixed1 := fixed || IsFixedInitial(b[i].color);
    var pushed := Pushes(b1, v1, p);
    assert PosOf(i) == p by { IdxInjective(PosOf(i), p); }
    assert !v0[i];
    RelabelCell(orig[i], blockIdx);
    assert b1[i] == Labelled(orig[i], blockIdx);
    assert fixed1 == (fixed || (!v[i] && IsFixedInitial(orig[i].color)));
    PushedFromStart(orig, b1, v1, p, start, blockIdx);
    PushesComplete(b1, v1, p, 4);
    forall e | CanStep(orig, p, e) && !v1[Idx(AddDir(p, e))]
      ensures AddDir(p, e) in pushed
    {
      CanStepTransfer(orig, b1, p, e, blockIdx);
    }
    FillAfterPop(orig, v0, b0, v, b, stack, p, start, blockIdx, fixed, i, v1, b1, pushed, fixed1);
  }

  /** FillInv carried over the pop of p (cell i), which labels and visits i
      and pushes every connectable unvisited neighbour. */
  lemma FillAfterPop(orig: seq<Cell>, v0: seq<bool>, b0: seq<Cell>, v: seq<bool>, b: seq<Cell>,
                     stack: seq<Pos>, p: Pos, start: Pos, blockIdx: nat, fixed: bool,
                     i: nat, v1: seq<bool>, b1: seq<Cell>, pushed: seq<Pos>, fixed1: bool)
    requires FillInv(orig, v0, b0, v, b, stack, start, blockIdx, fixed)
    requires |stack| > 0 && p == stack[|stack| - 1] && InBounds(p) && i == Idx(p) && PosOf(i) == p
    requires !v0[i] && orig[i].Piece?
    requires v1 == v[i := true] && b1 == b[i := Labelled(orig[i], blockIdx)]
    requires fixed1 == (fixed || (!v[i] && IsFixedInitial(orig[i].color)))
    requires forall k :: 0 <= k < |pushed| ==>
               InBounds(pushed[k]) && orig[Idx(pushed[k])].Piece?
               && !v1[Idx(pushed[k])] && Connected(orig, start, pushed[k])
    requires forall e :: CanStep(orig, p, e) && !v1[Idx(AddDir(p, e))] ==> AddDir(p, e) in pushed
    requires Connected(orig, start, p)
    ensures FillInv(orig, v0, b0, v1, b1, stack[..|stack| - 1] + pushed, start, blockIdx, fixed1)
  {
    var popped := stack[..|stack| - 1];
    var stack1 := popped + pushed;
    assert stack == popped + [p];
    forall k | 0 <= k < |stack|
      ensures stack[k] in stack1 || (InBounds(stack[k]) && v1[Idx(stack[k])])
    {
      if k < |popped| {
        assert stack[k] == stack1[k];
      }
    }
    forall t | 0 <= t < CellCount && v1[t] && !v0[t]
      ensures orig[t].Piece? && b1[t] == Labelled(orig[t], blockIdx) && Idx(start) <= t
              && Connected(orig, start, PosOf(t)) && PendingAt(orig, v1, stack1, t)
    {
      if t != i {
        PendingMono(orig, v, stack, v1, stack1, t);
      }
    }
    assert v1[Idx(start)] || start in stack1 by {
      if !v1[Idx(start)] {
        assert start in popped;
        assert stack1[..|popped|] == popped;
      }
    }
    if fixed1 && !fixed {
      assert v1[i] && !v0[i] && orig[i].Piece? && IsFixedInitial(orig[i].color);
    }
  }

  /** FillRun keeps the invariant until the stack is empty. */
  lemma {:induction false} FillRunInv(orig: seq<Cell>, v0: seq<bool>, b0: seq<Cell>, v: seq<bool>, b: seq<Cell>,
                                      stack: seq<Pos>, start: Pos, blockIdx: nat, fixed: bool)
    requires FillInv(orig, v0, b0, v, b, stack, start, blockIdx, fixed) && StackOk(b, stack)
    ensures var r := FillRun(b, v, stack, blockIdx, fixed);
            FillInv(orig, v0, b0, r.visited, r.board, [], start, blockIdx, r.fixed)
    decreases CountFalse(v), VisitedEntries(v, stack)
  {
    if stack != [] {
      var p := stack[|stack| - 1];
      var n := FillPop(b, v, stack, blockIdx, fixed);
      FillStep(orig, v0, b0, v, b, stack, p, start, blockIdx, fixed);
      FillPopOk(b, v, stack, blockIdx, fixed);
      FillRunInv(orig, v0, b0, n.visited, n.board, n.stack, start, blockIdx, n.fixed);
    }
  }

  /** Once the stack is empty, the new group is closed; the groups found
      before stay closed. */
  lemma FillClosed(orig: seq<Cell>, v0: seq<bool>, b0: seq<Cell>, v: seq<bool>, b: seq<Cell>, blockIdx: nat)
    requires Scanned(orig, v0, b0, blockIdx) && |v| == CellCount && |b| == CellCount
    requires forall t :: 0 <= t < CellCount && v0[t] ==> v[t] && b[t] == b0[t]
    requires forall t :: 0 <= t < CellCount && v[t] && !v0[t] ==>
               orig[t].Piece? && b[t] == Labelled(orig[t], blockIdx) && PendingAt(orig, v, [], t)
    requires forall t :: 0 <= t < CellCount && !v[t] ==> b[t] == orig[t]
    ensures Scanned(orig, v, b, blockIdx + 1)
  {
    forall i | 0 <= i < CellCount && v[i]
      ensures ClosedAt(orig, v, b, i)
    {
      forall e | CanStep(orig, PosOf(i), e)
        ensures v[Idx(AddDir(PosOf(i), e))] && SameBlock(b, Idx(AddDir(PosOf(i), e)), i)
      {
        var q := Idx(AddDir(PosOf(i), e));
        if v0[i] {
          assert ClosedAt(orig, v0, b0, i);
        } else {
          assert PendingAt(orig, v, [], i);
          if v0[q] {
            StepBack(orig, PosOf(i), e);
            assert false;
          }
        }
      }
    }
  }

  /** A fill started at an unvisited piece that the scan has reached labels
      exactly the start's connected group, all with the new label. */
  lemma FillCorrect(orig: seq<Cell>, v0: seq<bool>, b0: seq<Cell>, start: Pos, blockIdx: nat)
    requires Scanned(orig, v0, b0, blockIdx)
    requires InBounds(start) && orig[Idx(start)].Piece? && !v0[Idx(start)]
    requires forall t :: 0 <= t < Idx(start) && orig[t].Piece? ==> v0[t]
    ensures StackOk(b0, [start])
    ensures var r := FillRun(b0, v0, [start], blockIdx, false);
            FillPost(orig, v0, b0, r.visited, r.board, start, blockIdx, Block(start, r.fixed))
  {
    assert WitnessOk(orig, start, start, [start]);
    assert FillInv(orig, v0, b0, v0, b0, [start], start, blockIdx, false);
    FillRunInv(orig, v0, b0, v0, b0, [start], start, blockIdx, false);
    var r := FillRun(b0, v0, [start], blockIdx, false);
    FillClosed(orig, v0, b0, r.visited, r.board, blockIdx);
  }

  // ---------------------------------------------------------------------
  // The row-major scan of find_blocks

  /** Block j of the table found so far: its anchor is a visited cell before
      the scan position that carries label j, it is the first cell of its
      block in row-major order, every cell of the block is joined to it, and
      the block is fixed exactly when one of its cells was loaded fixed. */
  ghost predicate BlockFound(orig: seq<Cell>, v: seq<bool>, b: seq<Cell>, found: seq<Block>, j: nat, n: nat)
    requires |orig| == CellCount && |v| == CellCount && |b| == CellCount && j < |found|
  {
    var a := found[j].pos;
    InBounds(a) && Idx(a) < n && v[Idx(a)] && b[Idx(a)].Piece? && b[Idx(a)].block == j
    && (forall t :: 0 <= t < CellCount && v[t] && b[t].Piece? && b[t].block == j ==>
          Idx(a) <= t && Connected(orig, a, PosOf(t)))
    && (found[j].fixed <==>
          exists t :: 0 <= t < CellCount && v[t] && b[t].Piece? && b[t].block == j && IsFixedInitial(orig[t].color))
  }

  /** The invariant of the scan loop at row-major index n. */
  ghost predicate ScanInv(orig: seq<Cell>, v: seq<bool>, b: seq<Cell>, n: nat, found: seq<Block>)
  {
    Scanned(orig, v, b, |found|) && n <= CellCount
    && (forall t :: 0 <= t < n && orig[t].Piece? ==> v[t])
    && (forall j :: 0 <= j < |found| ==> BlockFound(orig, v, b, found, j, n))
    && (forall j, k :: 0 <= j < k < |found| ==> Before(found[j].pos, found[k].pos))
  }

  /** a comes strictly before b in the row-major scan. */
  predicate Before(a: Pos, b: Pos)
  {
    InBounds(a) && InBounds(b) && Idx(a) < Idx(b)
  }

  /** What find_blocks promises about the relabelled board b and the block
      table, relative to the loaded board orig. */
  ghost predicate Found(orig: seq<Cell>, b: seq<Cell>, blocks: seq<Block>)
  {
    |orig| == CellCount && |b| == CellCount
    // cells that are not pieces are untouched
    && (forall t :: 0 <= t < CellCount && !orig[t].Piece? ==> b[t] == orig[t])
    // pieces keep colour (without the fixed marker) and mask, and get a label
    // below the block count
    && (forall t :: 0 <= t < CellCount && orig[t].Piece? ==>
          b[t].Piece? && b[t] == Labelled(orig[t], b[t].block) && b[t].block < |blocks|)
    // each anchor is a cell of its block, the first one in row-major order
    && (forall j :: 0 <= j < |blocks| ==>
          InBounds(blocks[j].pos) && b[Idx(blocks[j].pos)].Piece? && b[Idx(blocks[j].pos)].block == j
          && (forall t :: 0 <= t < CellCount && b[t].Piece? && b[t].block == j ==> Idx(blocks[j].pos) <= t))
    // blocks are numbered in the order the scan meets them
    && (forall j, k :: 0 <= j < k < |blocks| ==> Before(blocks[j].pos, blocks[k].pos))
    // a block is fixed exactly when one of its pieces was loaded fixed
    && (forall j :: 0 <= j < |blocks| ==>
          (blocks[j].fixed <==>
             exists t :: 0 <= t < CellCount && b[t].Piece? && b[t].block == j && IsFixedInitial(orig[t].color)))
    // two pieces share a label exactly when they are connected
    && (forall s, t :: 0 <= s < CellCount && 0 <= t < CellCount && b[s].Piece? && b[t].Piece? ==>
          (b[s].block == b[t].block <==> Connected(orig, PosOf(s), PosOf(t))))
  }

  /** The scan starts with nothing visited and an empty table. */
  lemma ScanStart(orig: seq<Cell>)
    requires |orig| == CellCount
    ensures ScanInv(orig, seq(CellCount, _ => false), orig, 0, [])
  {
  }

  /** The scan passes a cell that is visited or not a piece. */
  lemma ScanSkip(orig: seq<Cell>, v: seq<bool>, b: seq<Cell>, n: nat, found: seq<Block>)
    requires ScanInv(orig, v, b, n, found) && n < CellCount && (v[n] || !b[n].Piece?)
    ensures ScanInv(orig, v, b, n + 1, found)
  {
    var n1 := n + 1;
    forall j | 0 <= j < |found|
      ensures BlockFound(orig, v, b, found, j, n1)
    {
      assert BlockFound(orig, v, b, found, j, n);
    }
    assert !v[n] ==> b[n] == orig[n];
  }

  /** A fill keeps the blocks found before it. */
  lemma ScanFillKeeps(orig: seq<Cell>, v: seq<bool>, b: seq<Cell>, v1: seq<bool>, b1: seq<Cell>,
                      n: nat, found: seq<Block>, blk: Block, j: nat)
    requires ScanInv(orig, v, b, n, found) && n < CellCount && j < |found|
    requires FillPost(orig, v, b, v1, b1, PosOf(n), |found|, blk)
    ensures BlockFound(orig, v1, b1, found + [blk], j, n + 1)
  {
    assert BlockFound(orig, v, b, found, j, n);
    assert (found + [blk])[j] == found[j];
    forall t | 0 <= t < CellCount && v1[t] && b1[t].Piece? && b1[t].block == j
      ensures v[t] && b[t] == b1[t]
    {
    }
  }

  /** A fill adds the block of its start cell. */
  lemma ScanFillAdds(orig: seq<Cell>, v: seq<bool>, b: seq<Cell>, v1: seq<bool>, b1: seq<Cell>,
                     n: nat, found: seq<Block>, blk: Block)
    requires ScanInv(orig, v, b, n, found) && n < CellCount && !v[n]
    requires FillPost(orig, v, b, v1, b1, PosOf(n), |found|, blk)
    ensures BlockFound(orig, v1, b1, found + [blk], |found|, n + 1)
  {
    var j := |found|;
    assert (found + [blk])[j] == blk;
    forall t | 0 <= t < CellCount && v1[t] && b1[t].Piece? && b1[t].block == j
      ensures !v[t]
    {
    }
    if blk.fixed {
      var t :| 0 <= t < CellCount && v1[t] && !v[t] && orig[t].Piece? && IsFixedInitial(orig[t].color);
      assert v1[t] && b1[t].Piece? && b1[t].block == j;
    }
  }

  /** The scan fills at an unvisited piece and appends the new block. */
  lemma ScanFill(orig: seq<Cell>, v: seq<bool>, b: seq<Cell>, n: nat, found: seq<Block>)
    requires ScanInv(orig, v, b, n, found) && n < CellCount && !v[n] && b[n].Piece?
    ensures StackOk(b, [PosOf(n)])
    ensures var r := FillRun(b, v, [PosOf(n)], |found|, false);
            ScanInv(orig, r.visited, r.board, n + 1, found + [Block(PosOf(n), r.fixed)])
  {
    var start := PosOf(n);
    FillCorrect(orig, v, b, start, |found|);
    var r := FillRun(b, v, [start], |found|, false);
    ScanAfterFill(orig, v, b, n, found, r.visited, r.board, Block(start, r.fixed));
  }

  /** ScanInv after the fill from cell n produced (v1, b1) and block blk. */
  lemma ScanAfterFill(orig: seq<Cell>, v: seq<bool>, b: seq<Cell>, n: nat, found: seq<Block>,
                      v1: seq<bool>, b1: seq<Cell>, blk: Block)
    requires ScanInv(orig, v, b, n, found) && n < CellCount && !v[n] && b[n].Piece?
    requires FillPost(orig, v, b, v1, b1, PosOf(n), |found|, blk)
    ensures ScanInv(orig, v1, b1, n + 1, found + [blk])
  {
    var found1 := found + [blk];
    var n1 := n + 1;
    forall j | 0 <= j < |found1|
      ensures BlockFound(orig, v1, b1, found1, j, n1)
    {
      if j < |found| {
        ScanFillKeeps(orig, v, b, v1, b1, n, found, blk, j);
      } else {
        ScanFillAdds(orig, v, b, v1, b1, n, found, blk);
      }
    }
    forall j, k | 0 <= j < k < |found1|
      ensures Before(found1[j].pos, found1[k].pos)
    {
      if k < |found| {
        assert found1[j] == found[j] && found1[k] == found[k];
      } else {
        assert found1[j] == found[j];
        assert BlockFound(orig, v, b, found, j, n);
      }
    }
  }

  /** The table never outgrows the scan position. */
  lemma ScanCount(orig: seq<Cell>, v: seq<bool>, b: seq<Cell>, n: nat, found: seq<Block>)
    requires ScanInv(orig, v, b, n, found)
    ensures |found| <= n
  {
    forall j | 0 <= j < |found|
      ensures InBounds(found[j].pos) && Idx(found[j].pos) < n
    {
      assert BlockFound(orig, v, b, found, j, n);
    }
    AnchorsBound(found, n);
  }

  /** A strictly increasing table of positions below n has at most n
      entries. */
  lemma AnchorsBound(found: seq<Block>, n: nat)
    requires forall j :: 0 <= j < |found| ==> InBounds(found[j].pos) && Idx(found[j].pos) < n
    requires forall j, k :: 0 <= j < k < |found| ==> Before(found[j].pos, found[k].pos)
    ensures |found| <= n
    decreases n
  {
    if found != [] {
      var m := |found| - 1;
      forall j | 0 <= j < m
        ensures Before(found[..m][j].pos, found[m].pos)
      {
      }
      AnchorsBound(found[..m], Idx(found[m].pos));
    }
  }

  /** Along a walk of the connection graph a finished scan keeps one label. */
  lemma {:induction false} ClosedWalk(orig: seq<Cell>, v: seq<bool>, b: seq<Cell>, count: nat, path: seq<Pos>)
    requires Scanned(orig, v, b, count) && ConnPath(orig, path) && |path| > 0 && v[Idx(path[0])]
    ensures forall k :: 0 <= k < |path| ==>
              v[Idx(path[k])] && b[Idx(path[k])].Piece? && b[Idx(path[k])].block == b[Idx(path[0])].block
  {
    if |path| > 1 {
      var m := |path| - 1;
      var init := path[..m];
      assert ConnPath(orig, init) by {
        forall k | 0 <= k < |init| - 1
          ensures Step(orig, init[k], init[k + 1])
        {
          assert init[k] == path[k] && init[k + 1] == path[k + 1];
        }
      }
      ClosedWalk(orig, v, b, count, init);
      var p := path[m - 1];
      assert v[Idx(p)] by { assert init[m - 1] == p; }
      assert Step(orig, p, path[m]);
      var e := StepDir(orig, p, path[m]);
      StepBack(orig, p, e);
      IdxInjective(PosOf(Idx(p)), p);
      assert ClosedAt(orig, v, b, Idx(p));
      forall k | 0 <= k < |path|
        ensures v[Idx(path[k])] && b[Idx(path[k])].Piece? && b[Idx(path[k])].block == b[Idx(path[0])].block
      {
        if k < m {
          assert path[k] == init[k];
        }
      }
    }
  }

  /** Once the scan has passed every cell, the board and table are as
      find_blocks promises. */
  lemma ScanDone(orig: seq<Cell>, v: seq<bool>, b: seq<Cell>, found: seq<Block>)
    requires ScanInv(orig, v, b, CellCount, found)
    ensures Found(orig, b, found)
  {
    forall t | 0 <= t < CellCount
      ensures v[t] <==> orig[t].Piece?
      ensures v[t] <==> b[t].Piece?
    {
    }
    forall j | 0 <= j < |found|
      ensures (found[j].fixed <==>
                 exists t :: 0 <= t < CellCount && b[t].Piece? && b[t].block == j && IsFixedInitial(orig[t].color))
      ensures InBounds(found[j].pos) && b[Idx(found[j].pos)].Piece? && b[Idx(found[j].pos)].block == j
      ensures forall t :: 0 <= t < CellCount && b[t].Piece? && b[t].block == j ==> Idx(found[j].pos) <= t
    {
      assert BlockFound(orig, v, b, found, j, CellCount);
    }
    forall s, t | 0 <= s < CellCount && 0 <= t < CellCount && b[s].Piece? && b[t].Piece?
      ensures b[s].block == b[t].block <==> Connected(orig, PosOf(s), PosOf(t))
    {
      if b[s].block == b[t].block {
        var j := b[s].block;
        assert BlockFound(orig, v, b, found, j, CellCount);
        var a := found[j].pos;
        IdxInjective(PosOf(Idx(a)), a);
        ConnectedSymmetric(orig, a, PosOf(s));
        ConnectedTransitive(orig, PosOf(s), a, PosOf(t));
      }
      if Connected(orig, PosOf(s), PosOf(t)) {
        var path :| WitnessOk(orig, PosOf(s), PosOf(t), path);
        ClosedWalk(orig, v, b, |found|, path);
      }
    }
  }

  /** The body of the scan loop of find_blocks at column j of row i: a fill
      at an unvisited piece, whose block goes to the next table slot. */
  method ScanCell(board: array<Cell>, visited: array<bool>, table: array<Block>, count: nat,
                  i: nat, j: nat, ghost orig: seq<Cell>)
    returns (count1: nat)
    requires board.Length == CellCount && visited.Length == CellCount && table.Length == CellCount
    requires i < Height && j < Width && count <= CellCount
    requires ScanInv(orig, visited[..], board[..], i * Width + j, table[..count])
    modifies board, visited, table
    ensures count1 <= CellCount
    ensures ScanInv(orig, visited[..], board[..], i * Width + j + 1, table[..count1])
  {
    var n := i * Width + j;
    assert PosOf(n) == Pos(j, i);
    count1 := count;
    if visited[n] || !board[n].Piece? {
      ScanSkip(orig, visited[..], board[..], n, table[..count]);
    } else {
      ghost var v, b, t := visited[..], board[..], table[..count];
      ScanCount(orig, v, b, n, t);
      ScanFill(orig, v, b, n, t);
      var blk := FillBlockInitial(board, visited, Pos(j, i), count);
      table[count] := blk;
      count1 := count + 1;
      assert table[..count1] == t + [Block(PosOf(n), blk.fixed)];
    }
  }

  /** find_blocks: a row-major scan that starts a fill at every piece not yet
      visited, appending one block per fill; `callocOk` and `reallocOk` stand
      for the two allocations of the block buffer succeeding. count is what
      the scan adds to the state's block counter: the number of blocks found,
      also when the final reallocation fails. */
  method FindBlocks(board: array<Cell>, callocOk: bool, reallocOk: bool)
    returns (found: Option<seq<Block>>, count: nat)
    requires board.Length == CellCount
    modifies board
    ensures count <= CellCount
    ensures !callocOk ==> found == None && count == 0 && board[..] == old(board[..])
    ensures callocOk && reallocOk ==> found.Some? && |found.value| == count
                                      && Found(old(board[..]), board[..], found.value)
    ensures callocOk && !reallocOk ==> found == None
                                       && exists blocks :: |blocks| == count && Found(old(board[..]), board[..], blocks)
  {
    count := 0;
    if !callocOk {
      return None, count;
    }
    ghost var orig := board[..];
    var visited := new bool[CellCount](_ => false);
    var table := new Block[CellCount](_ => Block(Pos(0, 0), false));
    ScanStart(orig);
    for i := 0 to Height
      invariant count <= CellCount
      invariant ScanInv(orig, visited[..], board[..], i * Width, table[..count])
    {
      for j := 0 to Width
        invariant count <= CellCount
        invariant ScanInv(orig, visited[..], board[..], i * Width + j, table[..count])
      {
        count := ScanCell(board, visited, table, count, i, j, orig);
      }
    }
    ScanDone(orig, visited[..], board[..], table[..count]);
    if !reallocOk {
      return None, count;
    }
    found := Some(table[..count]);
  }

  /** One edge is a connection. */
  lemma StepConnected(orig: seq<Cell>, p: Pos, q: Pos)
    requires |orig| == CellCount && Step(orig, p, q)
    ensures Connected(orig, p, q)
  {
    var e := StepDir(orig, p, q);
    assert WitnessOk(orig, p, q, [p, q]);
  }

  /** After find_blocks the state is one a move can be made on, and no piece
      keeps the load-time fixed marker. */
  lemma FoundValid(orig: seq<Cell>, b: seq<Cell>, blocks: seq<Block>)
    requires Found(orig, b, blocks)
    ensures ValidState(b, blocks)
    ensures forall t :: 0 <= t < CellCount && b[t].Piece? ==> !IsFixedInitial(b[t].color)
  {
    forall t | 0 <= t < CellCount && b[t].Piece?
      ensures b[t].block < |blocks| && !IsFixedInitial(b[t].color)
    {
      assert orig[t].Piece?;
      RelabelCell(orig[t], b[t].block);
    }
    forall i, j | SameBlock(b, i, j)
      ensures Reaches(b, PosOf(i), PosOf(j))
    {
      var path :| WitnessOk(orig, PosOf(i), PosOf(j), path);
      forall k | 0 <= k < |path| - 1
        ensures Link(b, path[k], path[k + 1])
      {
        var p, q := path[k], path[k + 1];
        var e := StepDir(orig, p, q);
        AddDirInverse(p, e);
        assert Toward(p, q) == e;
        LabelledBothCanConnect(orig[Idx(p)], b[Idx(p)].block, orig[Idx(q)], b[Idx(q)].block, e);
        StepConnected(orig, p, q);
        IdxInjective(PosOf(Idx(p)), p);
        IdxInjective(PosOf(Idx(q)), q);
        assert Connected(orig, PosOf(Idx(p)), PosOf(Idx(q)));
      }
      assert LabelPath(b, path);
    }
  }

  /** Copies the board of src into dest cell by cell. */
  method CopyBoard(dest: GameState, src: GameState)
    requires dest.board.Length == CellCount && src.board.Length == CellCount && dest.board != src.board
    modifies dest.board
    ensures dest.board[..] == src.board[..]
  {
    for k := 0 to CellCount
      invariant dest.board[..k] == src.board[..k]
    {
      dest.board[k] := src.board[k];
    }
  }

  /** game_preprocess_alloc on a freshly loaded state (no blocks yet): finds
      the blocks of `initial`, then writes board and table into `dest`, which
      is `initial` itself, another state, or (null) a newly allocated one.
      `callocOk` and `reallocOk` stand for the allocations of find_blocks.
      find_blocks counts the blocks it finds on `initial` itself and nothing
      resets that counter, while the table of `initial` is written only when
      it is the destination: its entries are then whatever `stale` (the
      memory behind that table) holds. */
  method PreprocessAlloc(initial: GameState, dest: GameState?, callocOk: bool, reallocOk: bool, stale: seq<Block>)
    returns (ok: bool, result: GameState?)
    requires initial.board.Length == CellCount && initial.blocks == [] && |stale| == CellCount
    requires dest != null ==> dest.board.Length == CellCount && (dest != initial ==> dest.board != initial.board)
    modifies initial, initial.board, dest, if dest == null then {} else {dest.board}
    ensures ok <==> callocOk && reallocOk
    ensures !ok ==> result == dest
    ensures !callocOk ==> initial.board[..] == old(initial.board[..]) && initial.blocks == []
    ensures ok ==> result != null && result.board.Length == CellCount
                   && (dest == null ==> fresh(result) && fresh(result.board)) && (dest != null ==> result == dest)
    ensures ok ==> Found(old(initial.board[..]), result.board[..], result.blocks)
                   && ValidState(result.board[..], result.blocks)
    ensures |initial.blocks| <= CellCount
    ensures ok ==> |initial.blocks| == |result.blocks|
    ensures callocOk && !(ok && result == initial) ==> initial.blocks == stale[..|initial.blocks|]
    ensures callocOk && !reallocOk ==>
              exists blocks :: |blocks| == |initial.blocks| && Found(old(initial.board[..]), initial.board[..], blocks)
  {
    var blocks, count := FindBlocks(initial.board, callocOk, reallocOk);
    if callocOk {
      initial.blocks := stale[..count];
    }
    if blocks == None {
      return false, dest;
    }
    result := dest;
    if result == null {
      result := new GameState();
    }
    if result != initial {
      CopyBoard(result, initial);
    }
    result.blocks := blocks.value;
    FoundValid(old(initial.board[..]), result.board[..], result.blocks);
    ok := true;
  }
}
