/**
 * update_block_connections: after the gravity loop the board is flooded once
 * more, block by block in table order. The flood of a block crosses onto a
 * neighbouring piece that still carries the block's own label or that the
 * current piece may connect to, so touching blocks merge; every flooded cell
 * is relabelled and the block's anchor becomes the row-major first cell of
 * the flood. A block whose anchor an earlier flood reached is dropped, and
 * the surviving table entries are packed in order.
 */
module Reconciler {
  import opened Board
  import opened Flood
  import opened Explorer

  /** min_pos: the earlier of two positions in row-major order. */
  function MinPos(a: Pos, b: Pos): (r: Pos)
    ensures r == a || r == b
    ensures RowMajorLe(r, a) && RowMajorLe(r, b)
  {
    if a.y == b.y then (if a.x < b.x then a else b)
    else if a.y < b.y then a else b
  }

  /** The piece c with a new label and its colour and mask kept. */
  function Relabel(c: Cell, tag: nat): (r: Cell)
    requires c.Piece?
    ensures r.Piece? && r.block == tag
  {
    Piece(c.color, c.noConnect, tag)
  }

  /** The edge from p in direction e joins two pieces that may connect. */
  predicate ConnEdge(b: seq<Cell>, p: Pos, e: Dir)
    requires |b| == CellCount
  {
    e != NoDir && InBounds(p) && InBounds(AddDir(p, e))
    && b[Idx(p)].Piece? && b[Idx(AddDir(p, e))].Piece?
    && PiecesCanConnect(b[Idx(p)], b[Idx(AddDir(p, e))], e)
  }

  /** The flood of block i may cross from p in direction e: onto a piece that
      carries label i or that p may connect to. */
  predicate Joins(b: seq<Cell>, i: nat, p: Pos, e: Dir)
    requires |b| == CellCount
  {
    e != NoDir && InBounds(p) && InBounds(AddDir(p, e))
    && b[Idx(p)].Piece? && b[Idx(AddDir(p, e))].Piece?
    && (b[Idx(AddDir(p, e))].block == i || PiecesCanConnect(b[Idx(p)], b[Idx(AddDir(p, e))], e))
  }

  /** A walk over pieces that were unvisited in v0, each step an edge whose
      pieces may connect. */
  ghost predicate GrownPath(b0: seq<Cell>, v0: seq<bool>, path: seq<Pos>)
    requires |b0| == CellCount && |v0| == CellCount
  {
    (forall k :: 0 <= k < |path| ==> InBounds(path[k]) && b0[Idx(path[k])].Piece? && !v0[Idx(path[k])])
    && (forall k :: 0 <= k < |path| - 1 ==>
          Adjacent(path[k], path[k + 1]) && ConnEdge(b0, path[k], Toward(path[k], path[k + 1])))
  }

  ghost predicate Grown(b0: seq<Cell>, v0: seq<bool>, a: Pos, c: Pos)
    requires |b0| == CellCount && |v0| == CellCount
  {
    exists path :: GrownPath(b0, v0, path) && |path| > 0 && path[0] == a && path[|path| - 1] == c
  }

  // ---------------------------------------------------------------------
  // The flood of one block (connect_adjacent_blocks)

  function PushIf(b: seq<Cell>, v: seq<bool>, i: nat, p: Pos, e: Dir): seq<Pos>
    requires |b| == CellCount && |v| == CellCount
  {
    if Joins(b, i, p, e) && !v[Idx(AddDir(p, e))] then [AddDir(p, e)] else []
  }

  function PushesUpTo(b: seq<Cell>, v: seq<bool>, i: nat, p: Pos, c: nat): seq<Pos>
    requires |b| == CellCount && |v| == CellCount && c <= 4
  {
    if c == 0 then [] else PushesUpTo(b, v, i, p, c - 1) + PushIf(b, v, i, p, DirOf(c - 1))
  }

  /** The neighbours of p the flood of block i pushes. */
  function Pushes(b: seq<Cell>, v: seq<bool>, i: nat, p: Pos): seq<Pos>
    requires |b| == CellCount && |v| == CellCount
  {
    PushesUpTo(b, v, i, p, 4)
  }

  /** q is an unvisited neighbour of p that the flood of block i crosses to. */
  predicate PushedFrom(b: seq<Cell>, v: seq<bool>, i: nat, p: Pos, q: Pos)
    requires |b| == CellCount && |v| == CellCount
  {
    exists e :: Joins(b, i, p, e) && q == AddDir(p, e) && !v[Idx(AddDir(p, e))]
  }

  lemma {:induction false} PushesSound(b: seq<Cell>, v: seq<bool>, i: nat, p: Pos, c: nat)
    requires |b| == CellCount && |v| == CellCount && c <= 4
    ensures forall k :: 0 <= k < |PushesUpTo(b, v, i, p, c)| ==> PushedFrom(b, v, i, p, PushesUpTo(b, v, i, p, c)[k])
  {
    if c > 0 {
      PushesSound(b, v, i, p, c - 1);
      var prev := PushesUpTo(b, v, i, p, c - 1);
      var e := DirOf(c - 1);
      var cur := PushesUpTo(b, v, i, p, c);
      assert cur == prev + PushIf(b, v, i, p, e);
      forall k | 0 <= k < |cur|
        ensures PushedFrom(b, v, i, p, cur[k])
      {
        if k < |prev| {
          assert cur[k] == prev[k];
        } else {
          assert Joins(b, i, p, e) && cur[k] == AddDir(p, e) && !v[Idx(AddDir(p, e))];
        }
      }
    }
  }

  lemma {:induction false} PushesComplete(b: seq<Cell>, v: seq<bool>, i: nat, p: Pos, c: nat)
    requires |b| == CellCount && |v| == CellCount && c <= 4
    ensures forall e :: Code(e) < c && Joins(b, i, p, e) && !v[Idx(AddDir(p, e))] ==>
              AddDir(p, e) in PushesUpTo(b, v, i, p, c)
  {
    if c > 0 {
      PushesComplete(b, v, i, p, c - 1);
      assert PushesUpTo(b, v, i, p, c) == PushesUpTo(b, v, i, p, c - 1) + PushIf(b, v, i, p, DirOf(c - 1));
    }
  }

  /** The crossing test on the live board is the one on b0 when the target
      is unvisited. */
  lemma LiveJoins(bd: seq<Cell>, b0: seq<Cell>, i: nat, p: Pos, e: Dir)
    requires |bd| == CellCount && |b0| == CellCount && e != NoDir
    requires InBounds(p) && b0[Idx(p)].Piece? && bd[Idx(p)].Piece?
    requires bd[Idx(p)].color == b0[Idx(p)].color && bd[Idx(p)].noConnect == b0[Idx(p)].noConnect
    requires InBounds(AddDir(p, e)) && bd[Idx(AddDir(p, e))] == b0[Idx(AddDir(p, e))] && bd[Idx(AddDir(p, e))].Piece?
    ensures (bd[Idx(AddDir(p, e))].block == i || PiecesCanConnect(bd[Idx(p)], bd[Idx(AddDir(p, e))], e))
            == Joins(b0, i, p, e)
  {
  }

  /** The loop over the four directions of connect_adjacent_blocks, on the
      live board: an unvisited cell still holds its piece from b0, and the
      cell at p keeps its colour and mask. */
  method PushNeighbours(board: array<Cell>, visited: array<bool>, i: nat, p: Pos, ghost b0: seq<Cell>)
    returns (pushed: seq<Pos>)
    requires board.Length == CellCount && visited.Length == CellCount && |b0| == CellCount
    requires InBounds(p) && b0[Idx(p)].Piece? && board[Idx(p)].Piece?
    requires board[Idx(p)].color == b0[Idx(p)].color && board[Idx(p)].noConnect == b0[Idx(p)].noConnect
    requires forall t :: 0 <= t < CellCount && !visited[t] ==> board[t] == b0[t]
    ensures pushed == Pushes(b0, visited[..], i, p)
  {
    pushed := [];
    for c := 0 to 4
      invariant pushed == PushesUpTo(b0, visited[..], i, p, c)
    {
      var e := DirOf(c);
      var q := AddDir(p, e);
      if InBounds(q) && board[Idx(q)].Piece? && !visited[Idx(q)] {
        var from := board[Idx(p)];
        var to := board[Idx(q)];
        LiveJoins(board[..], b0, i, p, e);
        if to.block == i || PiecesCanConnect(from, to, e) {
          pushed := pushed + [q];
        }
      }
    }
  }

  /** The cells the flood reached that were not visited before it. */
  predicate Fresh(v0: seq<bool>, v: seq<bool>, t: int)
  {
    0 <= t < |v| && t < |v0| && v[t] && !v0[t]
  }

  /** The board during the flood: reached cells relabelled, unvisited cells
      still as in b0, cells visited before the flood as on entry. */
  ghost predicate FloodCells(b0: seq<Cell>, v0: seq<bool>, bs: seq<Cell>, tag: nat, bd: seq<Cell>, v: seq<bool>)
    requires |b0| == CellCount && |v0| == CellCount && |bs| == CellCount && |bd| == CellCount && |v| == CellCount
  {
    (forall t :: 0 <= t < CellCount && v0[t] ==> v[t] && bd[t] == bs[t])
    && (forall t :: Fresh(v0, v, t) ==> b0[t].Piece? && bd[t] == Relabel(b0[t], tag))
    && (forall t :: 0 <= t < CellCount && !v[t] ==> bd[t] == b0[t])
  }

  /** Stack entries are pieces unvisited before the flood that it reaches
      from the anchor. */
  ghost predicate FloodStack(b0: seq<Cell>, v0: seq<bool>, a: Pos, stack: seq<Pos>)
    requires |b0| == CellCount && |v0| == CellCount
  {
    forall k :: 0 <= k < |stack| ==>
      InBounds(stack[k]) && b0[Idx(stack[k])].Piece? && !v0[Idx(stack[k])] && Grown(b0, v0, a, stack[k])
  }

  ghost predicate FloodGrown(b0: seq<Cell>, v0: seq<bool>, a: Pos, v: seq<bool>)
    requires |b0| == CellCount && |v0| == CellCount && |v| == CellCount
  {
    forall t :: Fresh(v0, v, t) ==> Grown(b0, v0, a, PosOf(t))
  }

  /** Every crossing out of a reached cell leads to a visited cell or to one
      waiting on the stack. */
  ghost predicate FloodPending(b0: seq<Cell>, v0: seq<bool>, i: nat, v: seq<bool>, stack: seq<Pos>)
    requires |b0| == CellCount && |v0| == CellCount && |v| == CellCount
  {
    forall t, e :: Fresh(v0, v, t) && Joins(b0, i, PosOf(t), e) ==>
      v[Idx(AddDir(PosOf(t), e))] || AddDir(PosOf(t), e) in stack
  }

  /** The block's position is the anchor or a reached cell, and comes first
      in row-major order among the anchor and the reached cells. */
  ghost predicate FloodAnchor(v0: seq<bool>, a: Pos, v: seq<bool>, stack: seq<Pos>, pos: Pos)
    requires InBounds(a) && |v0| == CellCount && |v| == CellCount
  {
    (v[Idx(a)] || stack == [a])
    && InBounds(pos) && (pos == a || Fresh(v0, v, Idx(pos)))
    && RowMajorLe(pos, a)
    && forall t :: Fresh(v0, v, t) ==> RowMajorLe(pos, PosOf(t))
  }

  ghost predicate FloodInv(b0: seq<Cell>, v0: seq<bool>, bs: seq<Cell>, i: nat, tag: nat, a: Pos,
                           bd: seq<Cell>, v: seq<bool>, stack: seq<Pos>, pos: Pos)
  {
    |b0| == CellCount && |v0| == CellCount && |bs| == CellCount && |bd| == CellCount && |v| == CellCount
    && InBounds(a)
    && FloodCells(b0, v0, bs, tag, bd, v)
    && FloodStack(b0, v0, a, stack)
    && FloodGrown(b0, v0, a, v)
    && FloodPending(b0, v0, i, v, stack)
    && FloodAnchor(v0, a, v, stack, pos)
  }

  /** A walk can be extended by one more edge onto an unvisited piece. */
  lemma GrownExtend(b0: seq<Cell>, v0: seq<bool>, a: Pos, p: Pos, e: Dir)
    requires |b0| == CellCount && |v0| == CellCount && Grown(b0, v0, a, p)
    requires ConnEdge(b0, p, e) && !v0[Idx(AddDir(p, e))]
    ensures Grown(b0, v0, a, AddDir(p, e))
  {
    var path :| GrownPath(b0, v0, path) && |path| > 0 && path[0] == a && path[|path| - 1] == p;
    var q := AddDir(p, e);
    var path2 := path + [q];
    AddDirInverse(p, e);
    assert Toward(p, q) == e;
    assert GrownPath(b0, v0, path2) by {
      forall k | 0 <= k < |path2| - 1
        ensures Adjacent(path2[k], path2[k + 1]) && ConnEdge(b0, path2[k], Toward(path2[k], path2[k + 1]))
      {
        if k < |path| - 1 {
          assert path2[k] == path[k] && path2[k + 1] == path[k + 1];
        }
      }
    }
    assert path2[0] == a && path2[|path2| - 1] == q;
  }

  /** A walk inside one block that nothing has visited yet is a walk of the
      flood. */
  lemma ReachesGrown(b0: seq<Cell>, v0: seq<bool>, a: Pos, c: Pos)
    requires |b0| == CellCount && |v0| == CellCount && AllOrNone(b0, v0)
    requires InBounds(a) && !v0[Idx(a)] && Reaches(b0, a, c)
    ensures Grown(b0, v0, a, c)
  {
    var path :| LabelPath(b0, path) && |path| > 0 && path[0] == a && path[|path| - 1] == c;
    forall k | 0 <= k < |path|
      ensures !v0[Idx(path[k])] && b0[Idx(path[k])].block == b0[Idx(a)].block
    {
      PathLabelsOf(b0, path, k);
      assert SameBlock(b0, Idx(a), Idx(path[k]));
    }
    forall k | 0 <= k < |path| - 1
      ensures Adjacent(path[k], path[k + 1]) && ConnEdge(b0, path[k], Toward(path[k], path[k + 1]))
    {
      assert Link(b0, path[k], path[k + 1]);
    }
    assert GrownPath(b0, v0, path);
  }

  /** Every cell of a walk inside a block carries the label of the first. */
  lemma {:induction false} PathLabelsOf(b: seq<Cell>, path: seq<Pos>, k: nat)
    requires |b| == CellCount && LabelPath(b, path) && k < |path|
    ensures b[Idx(path[k])].block == b[Idx(path[0])].block
  {
    if k > 0 {
      PathLabelsOf(b, path, k - 1);
      assert Link(b, path[k - 1], path[k]);
    }
  }

  /** What is pushed for the popped cell p is legal stack content. */
  lemma PushedOk(b0: seq<Cell>, v0: seq<bool>, i: nat, a: Pos, p: Pos, v1: seq<bool>)
    requires |b0| == CellCount && |v0| == CellCount && |v1| == CellCount
    requires InBounds(a) && LabelConnected(b0) && AllOrNone(b0, v0) && CellOf(b0, Idx(a), i)
    requires !v0[Idx(a)] && InBounds(p) && Grown(b0, v0, a, p)
    requires forall t :: 0 <= t < CellCount && v0[t] ==> v1[t]
    ensures FloodStack(b0, v0, a, Pushes(b0, v1, i, p))
  {
    var ps := Pushes(b0, v1, i, p);
    PushesSound(b0, v1, i, p, 4);
    forall k | 0 <= k < |ps|
      ensures InBounds(ps[k]) && b0[Idx(ps[k])].Piece? && !v0[Idx(ps[k])] && Grown(b0, v0, a, ps[k])
    {
      assert PushedFrom(b0, v1, i, p, ps[k]);
      var e :| Joins(b0, i, p, e) && ps[k] == AddDir(p, e) && !v1[Idx(AddDir(p, e))];
      var q := AddDir(p, e);
      if PiecesCanConnect(b0[Idx(p)], b0[Idx(q)], e) {
        GrownExtend(b0, v0, a, p, e);
      } else {
        assert SameBlock(b0, Idx(a), Idx(q));
        PosOfIdx(a);
        PosOfIdx(q);
        assert Reaches(b0, a, q);
        ReachesGrown(b0, v0, a, q);
      }
    }
  }

  lemma StackPop(b0: seq<Cell>, v0: seq<bool>, a: Pos, stack: seq<Pos>, pushed: seq<Pos>)
    requires |b0| == CellCount && |v0| == CellCount && stack != []
    requires FloodStack(b0, v0, a, stack) && FloodStack(b0, v0, a, pushed)
    ensures FloodStack(b0, v0, a, stack[..|stack| - 1] + pushed)
  {
    var s := stack[..|stack| - 1] + pushed;
    forall k | 0 <= k < |s|
      ensures InBounds(s[k]) && b0[Idx(s[k])].Piece? && !v0[Idx(s[k])] && Grown(b0, v0, a, s[k])
    {
      if k < |stack| - 1 {
        assert s[k] == stack[k];
      } else {
        assert s[k] == pushed[k - |stack| + 1];
      }
    }
  }

  lemma CellsStep(b0: seq<Cell>, v0: seq<bool>, bs: seq<Cell>, tag: nat, bd: seq<Cell>, v: seq<bool>, p: Pos)
    requires |b0| == CellCount && |v0| == CellCount && |bs| == CellCount && |bd| == CellCount && |v| == CellCount
    requires FloodCells(b0, v0, bs, tag, bd, v)
    requires InBounds(p) && b0[Idx(p)].Piece? && !v0[Idx(p)]
    ensures FloodCells(b0, v0, bs, tag, bd[Idx(p) := Relabel(b0[Idx(p)], tag)], v[Idx(p) := true])
  {
  }

  lemma GrownStep(b0: seq<Cell>, v0: seq<bool>, a: Pos, v: seq<bool>, p: Pos)
    requires |b0| == CellCount && |v0| == CellCount && |v| == CellCount
    requires FloodGrown(b0, v0, a, v) && InBounds(p) && Grown(b0, v0, a, p)
    ensures FloodGrown(b0, v0, a, v[Idx(p) := true])
  {
    var v1 := v[Idx(p) := true];
    forall t | Fresh(v0, v1, t)
      ensures Grown(b0, v0, a, PosOf(t))
    {
      if t == Idx(p) {
        PosOfIdx(p);
      } else {
        assert Fresh(v0, v, t);
      }
    }
  }

  lemma PendingStep(b0: seq<Cell>, v0: seq<bool>, i: nat, v: seq<bool>, stack: seq<Pos>)
    requires |b0| == CellCount && |v0| == CellCount && |v| == CellCount && stack != []
    requires FloodPending(b0, v0, i, v, stack) && InBounds(stack[|stack| - 1])
    ensures var p := stack[|stack| - 1];
            var v1 := v[Idx(p) := true];
            FloodPending(b0, v0, i, v1, stack[..|stack| - 1] + Pushes(b0, v1, i, p))
  {
    var p := stack[|stack| - 1];
    var v1 := v[Idx(p) := true];
    var s := stack[..|stack| - 1] + Pushes(b0, v1, i, p);
    PushesComplete(b0, v1, i, p, 4);
    forall t, e | Fresh(v0, v1, t) && Joins(b0, i, PosOf(t), e)
      ensures v1[Idx(AddDir(PosOf(t), e))] || AddDir(PosOf(t), e) in s
    {
      var n := AddDir(PosOf(t), e);
      if t == Idx(p) {
        PosOfIdx(p);
      } else {
        assert Fresh(v0, v, t);
        if !v[Idx(n)] {
          assert n in stack;
          if n != p {
            var k :| 0 <= k < |stack| && stack[k] == n;
            assert s[k] == n;
          }
        }
      }
    }
  }

  lemma AnchorStep(v0: seq<bool>, a: Pos, v: seq<bool>, stack: seq<Pos>, pos: Pos, pushed: seq<Pos>)
    requires InBounds(a) && |v0| == CellCount && |v| == CellCount && stack != []
    requires FloodAnchor(v0, a, v, stack, pos) && InBounds(stack[|stack| - 1]) && !v0[Idx(stack[|stack| - 1])]
    ensures var p := stack[|stack| - 1];
            FloodAnchor(v0, a, v[Idx(p) := true], stack[..|stack| - 1] + pushed, MinPos(pos, p))
  {
    var p := stack[|stack| - 1];
    var v1 := v[Idx(p) := true];
    var pos1 := MinPos(pos, p);
    assert v1[Idx(a)] by {
      if !v[Idx(a)] {
        assert stack == [a];
      }
    }
    PosOfIdx(p);
    forall t | Fresh(v0, v1, t)
      ensures RowMajorLe(pos1, PosOf(t))
    {
      if t != Idx(p) {
        assert Fresh(v0, v, t);
      }
    }
  }

  /** One pop of the flood keeps its invariant and lowers its measure. */
  lemma FloodStep(b0: seq<Cell>, v0: seq<bool>, bs: seq<Cell>, i: nat, tag: nat, a: Pos,
                  bd: seq<Cell>, v: seq<bool>, stack: seq<Pos>, pos: Pos)
    requires FloodInv(b0, v0, bs, i, tag, a, bd, v, stack, pos) && stack != []
    requires LabelConnected(b0) && AllOrNone(b0, v0) && CellOf(b0, Idx(a), i) && !v0[Idx(a)]
    ensures var p := stack[|stack| - 1];
            var v1 := v[Idx(p) := true];
            var s1 := stack[..|stack| - 1] + Pushes(b0, v1, i, p);
            InBounds(p) && b0[Idx(p)].Piece? && !v0[Idx(p)]
            && FloodInv(b0, v0, bs, i, tag, a, bd[Idx(p) := Relabel(b0[Idx(p)], tag)], v1, s1, MinPos(pos, p))
            && (CountFalse(v1) < CountFalse(v)
                || (CountFalse(v1) == CountFalse(v) && VisitedEntries(v1, s1) < VisitedEntries(v, stack)))
  {
    var p := stack[|stack| - 1];
    var v1 := v[Idx(p) := true];
    var pushed := Pushes(b0, v1, i, p);
    assert InBounds(p) && b0[Idx(p)].Piece? && !v0[Idx(p)] && Grown(b0, v0, a, p);
    CellsStep(b0, v0, bs, tag, bd, v, p);
    PushedOk(b0, v0, i, a, p, v1);
    StackPop(b0, v0, a, stack, pushed);
    GrownStep(b0, v0, a, v, p);
    PendingStep(b0, v0, i, v, stack);
    AnchorStep(v0, a, v, stack, pos, pushed);
    PushesSound(b0, v1, i, p, 4);
    forall k | 0 <= k < |pushed|
      ensures InBounds(pushed[k]) && !v1[Idx(pushed[k])]
    {
      assert PushedFrom(b0, v1, i, p, pushed[k]);
    }
    PopMeasure(v, stack, pushed);
  }

  /** One pop of the loop of connect_adjacent_blocks: mark the cell, move
      the anchor, relabel the cell and push its neighbours. */
  method FloodPop(game: GameState, i: nat, tag: nat, visited: array<bool>, stack: seq<Pos>,
                  ghost b0: seq<Cell>, ghost v0: seq<bool>, ghost bs: seq<Cell>, ghost a: Pos)
    returns (stack1: seq<Pos>)
    requires game.board.Length == CellCount && visited.Length == CellCount && i < |game.blocks| && stack != []
    requires FloodInv(b0, v0, bs, i, tag, a, game.board[..], visited[..], stack, game.blocks[i].pos)
    requires LabelConnected(b0) && AllOrNone(b0, v0) && CellOf(b0, Idx(a), i) && !v0[Idx(a)]
    modifies game, game.board, visited
    ensures |game.blocks| == |old(game.blocks)| && game.blocks[i].fixed == old(game.blocks[i].fixed)
    ensures FloodInv(b0, v0, bs, i, tag, a, game.board[..], visited[..], stack1, game.blocks[i].pos)
    ensures forall k :: 0 <= k < |game.blocks| && k != i ==> game.blocks[k] == old(game.blocks[k])
    ensures CountFalse(visited[..]) < CountFalse(old(visited[..]))
            || (CountFalse(visited[..]) == CountFalse(old(visited[..]))
                && VisitedEntries(visited[..], stack1) < VisitedEntries(old(visited[..]), stack))
  {
    FloodStep(b0, v0, bs, i, tag, a, game.board[..], visited[..], stack, game.blocks[i].pos);
    var p := stack[|stack| - 1];
    visited[Idx(p)] := true;
    stack1 := stack[..|stack| - 1];
    var cell := game.board[Idx(p)];
    game.blocks := game.blocks[i := game.blocks[i].(pos := MinPos(game.blocks[i].pos, p))];
    game.board[Idx(p)] := Piece(cell.color, cell.noConnect, tag);
    assert game.board[..] == old(game.board[..])[Idx(p) := Relabel(b0[Idx(p)], tag)];
    var pushed := PushNeighbours(game.board, visited, i, p, b0);
    stack1 := stack1 + pushed;
  }

  /** When the stack is empty the flood is closed under its crossings. */
  lemma FloodDone(b0: seq<Cell>, v0: seq<bool>, bs: seq<Cell>, i: nat, tag: nat, a: Pos,
                  bd: seq<Cell>, v: seq<bool>, pos: Pos)
    requires FloodInv(b0, v0, bs, i, tag, a, bd, v, [], pos) && !v0[Idx(a)]
    ensures Fresh(v0, v, Idx(a)) && InBounds(pos) && Fresh(v0, v, Idx(pos))
    ensures forall t, e :: Fresh(v0, v, t) && Joins(b0, i, PosOf(t), e) ==> v[Idx(AddDir(PosOf(t), e))]
  {
  }

  /** What a flood of block i from its anchor a achieves, from board bd and
      visited cells v to bd1 and v1, with new anchor pos: nothing visited
      before changes; the reached cells are pieces of b0, relabelled with
      tag, joined to a by edges whose pieces may connect; unvisited cells
      still hold b0; the reached cells are closed under the flood's
      crossings; a is reached; and pos is the row-major first reached cell. */
  ghost predicate FloodOutcome(b0: seq<Cell>, i: nat, tag: nat, a: Pos,
                               bd: seq<Cell>, v: seq<bool>, bd1: seq<Cell>, v1: seq<bool>, pos: Pos)
    requires |b0| == CellCount && |bd| == CellCount && |v| == CellCount && |bd1| == CellCount && |v1| == CellCount
  {
    (forall t :: 0 <= t < CellCount && v[t] ==> v1[t] && bd1[t] == bd[t])
    && (forall t :: Fresh(v, v1, t) ==> b0[t].Piece? && bd1[t] == Relabel(b0[t], tag) && Grown(b0, v, a, PosOf(t)))
    && (forall t :: 0 <= t < CellCount && !v1[t] ==> bd1[t] == b0[t])
    && (forall t, e :: Fresh(v, v1, t) && Joins(b0, i, PosOf(t), e) ==> v1[Idx(AddDir(PosOf(t), e))])
    && InBounds(a) && Fresh(v, v1, Idx(a))
    && InBounds(pos) && Fresh(v, v1, Idx(pos))
    && (forall t :: Fresh(v, v1, t) ==> RowMajorLe(pos, PosOf(t)))
  }

  /** connect_adjacent_blocks: floods block i from its anchor over the cells
      not yet visited, relabels every reached cell with `tag` (the source
      passes i itself) and moves the anchor to the row-major first reached
      cell. The other table entries and the fixed flag are kept. */
  method ConnectAdjacentBlocks(game: GameState, i: nat, tag: nat, visited: array<bool>, ghost b0: seq<Cell>)
    requires game.board.Length == CellCount && visited.Length == CellCount && |b0| == CellCount
    requires i < |game.blocks| && InBounds(game.blocks[i].pos)
    requires LabelConnected(b0) && AllOrNone(b0, visited[..])
    requires CellOf(b0, Idx(game.blocks[i].pos), i) && !visited[Idx(game.blocks[i].pos)]
    requires forall t :: 0 <= t < CellCount && !visited[t] ==> game.board[t] == b0[t]
    modifies game, game.board, visited
    ensures |game.blocks| == |old(game.blocks)|
    ensures FloodOutcome(b0, i, tag, old(game.blocks[i].pos), old(game.board[..]), old(visited[..]),
                         game.board[..], visited[..], game.blocks[i].pos)
    ensures forall k :: 0 <= k < |game.blocks| && k != i ==> game.blocks[k] == old(game.blocks[k])
    ensures game.blocks[i].fixed == old(game.blocks[i].fixed)
  {
    ghost var v0 := visited[..];
    ghost var bs := game.board[..];
    ghost var blocks0 := game.blocks;
    var a := game.blocks[i].pos;
    var stack := [a];
    assert GrownPath(b0, v0, [a]);
    assert Grown(b0, v0, a, a);
    while stack != []
      invariant |game.blocks| == |blocks0| && game.blocks[i].fixed == blocks0[i].fixed
      invariant forall k :: 0 <= k < |game.blocks| && k != i ==> game.blocks[k] == blocks0[k]
      invariant FloodInv(b0, v0, bs, i, tag, a, game.board[..], visited[..], stack, game.blocks[i].pos)
      decreases CountFalse(visited[..]), VisitedEntries(visited[..], stack)
    {
      stack := FloodPop(game, i, tag, visited, stack, b0, v0, bs, a);
    }
    FloodDone(b0, v0, bs, i, tag, a, game.board[..], visited[..], game.blocks[i].pos);
  }

  // ---------------------------------------------------------------------
  // The loop of update_block_connections

  /** A walk inside one block of bd over visited cells. */
  ghost predicate Tied(bd: seq<Cell>, v: seq<bool>, a: Pos, c: Pos)
    requires |bd| == CellCount && |v| == CellCount
  {
    exists path :: LabelPath(bd, path) && |path| > 0 && path[0] == a && path[|path| - 1] == c
                   && forall k :: 0 <= k < |path| ==> v[Idx(path[k])]
  }

  /** The board during the loop: unvisited cells as in b0, each visited cell
      a piece of b0 relabelled with the tag of its region. */
  ghost predicate RCells(b0: seq<Cell>, bd: seq<Cell>, v: seq<bool>, reg: seq<int>, labels: seq<nat>)
    requires |b0| == CellCount && |bd| == CellCount && |v| == CellCount && |reg| == CellCount
  {
    forall t :: 0 <= t < CellCount ==>
      (!v[t] ==> bd[t] == b0[t])
      && (v[t] ==> b0[t].Piece? && 0 <= reg[t] < |labels| && bd[t] == Relabel(b0[t], labels[reg[t]]))
  }

  /** The regions so far: region d was flooded from the anchor of block
      S[d]; its table entry keeps that block's fixed flag and the row-major
      first cell of the region. */
  ghost predicate RRegions(blocks0: seq<Block>, v: seq<bool>, reg: seq<int>, tmp: seq<Block>, S: seq<nat>)
    requires |v| == CellCount && |reg| == CellCount && |S| == |tmp|
  {
    forall d :: 0 <= d < |tmp| ==>
      S[d] < |blocks0| && InBounds(blocks0[S[d]].pos) && v[Idx(blocks0[S[d]].pos)] && reg[Idx(blocks0[S[d]].pos)] == d
      && tmp[d].fixed == blocks0[S[d]].fixed
      && InBounds(tmp[d].pos) && v[Idx(tmp[d].pos)] && reg[Idx(tmp[d].pos)] == d
      && (forall t :: 0 <= t < CellCount && v[t] && reg[t] == d ==> RowMajorLe(tmp[d].pos, PosOf(t)))
  }

  /** The anchors of the blocks handled so far are visited, each in a region
      started by it or by an earlier block. */
  ghost predicate RAnchors(blocks0: seq<Block>, v: seq<bool>, reg: seq<int>, S: seq<nat>, src: nat)
    requires |v| == CellCount && |reg| == CellCount
  {
    forall j :: 0 <= j < src && j < |blocks0| ==>
      InBounds(blocks0[j].pos) && v[Idx(blocks0[j].pos)]
      && 0 <= reg[Idx(blocks0[j].pos)] < |S| && S[reg[Idx(blocks0[j].pos)]] <= j
  }

  /** Pieces that may connect lie in the same region, and so do the cells of
      one block of b0. */
  ghost predicate RMerged(b0: seq<Cell>, v: seq<bool>, reg: seq<int>)
    requires |b0| == CellCount && |v| == CellCount && |reg| == CellCount
  {
    (forall t, e :: 0 <= t < CellCount && v[t] && ConnEdge(b0, PosOf(t), e) ==>
       v[Idx(AddDir(PosOf(t), e))] && reg[Idx(AddDir(PosOf(t), e))] == reg[t])
    && (forall s, t :: SameBlock(b0, s, t) && v[s] ==> v[t] && reg[s] == reg[t])
  }

  /** Each visited cell is joined inside its region to the cell its flood
      started from. */
  ghost predicate RTied(blocks0: seq<Block>, bd: seq<Cell>, v: seq<bool>, reg: seq<int>, S: seq<nat>)
    requires |bd| == CellCount && |v| == CellCount && |reg| == CellCount
  {
    forall t :: 0 <= t < CellCount && v[t] ==>
      0 <= reg[t] < |S| && S[reg[t]] < |blocks0| && Tied(bd, v, blocks0[S[reg[t]]].pos, PosOf(t))
  }

  /** The table so far: entries for blocks below src, made in increasing
      block order with distinct labels; the blocks from src on untouched. */
  ghost predicate ReconShape(blocks0: seq<Block>, blocks: seq<Block>, tmp: seq<Block>, S: seq<nat>,
                             labels: seq<nat>, src: nat)
  {
    |blocks| == |blocks0| && src <= |blocks0| && |tmp| == |S| == |labels| <= src
    && (forall j :: src <= j < |blocks0| ==> blocks[j] == blocks0[j])
    && (forall d :: 0 <= d < |S| ==> S[d] < src)
    && (forall d1, d2 :: 0 <= d1 < d2 < |S| ==> S[d1] < S[d2])
    && (forall d1, d2 :: 0 <= d1 < |labels| && 0 <= d2 < |labels| && labels[d1] == labels[d2] ==> d1 == d2)
  }

  lemma ShapeFlood(blocks0: seq<Block>, blocks: seq<Block>, tmp: seq<Block>, S: seq<nat>, labels: seq<nat>,
                   src: nat, tag: nat, b: Block, blocks1: seq<Block>)
    requires ReconShape(blocks0, blocks, tmp, S, labels, src) && src < |blocks0| && tag !in labels
    requires |blocks1| == |blocks0| && forall j :: src < j < |blocks0| ==> blocks1[j] == blocks0[j]
    ensures ReconShape(blocks0, blocks1, tmp + [b], S + [src], labels + [tag], src + 1)
  {
    var labels1 := labels + [tag];
    assert forall d :: 0 <= d < |labels| ==> labels1[d] == labels[d] != tag;
  }

  ghost predicate ReconInv(b0: seq<Cell>, blocks0: seq<Block>, bd: seq<Cell>, blocks: seq<Block>, v: seq<bool>,
                           reg: seq<int>, tmp: seq<Block>, S: seq<nat>, labels: seq<nat>, src: nat)
  {
    |b0| == CellCount && |bd| == CellCount && |v| == CellCount && |reg| == CellCount
    && ReconShape(blocks0, blocks, tmp, S, labels, src)
    && RCells(b0, bd, v, reg, labels)
    && RRegions(blocks0, v, reg, tmp, S)
    && RAnchors(blocks0, v, reg, S, src)
    && RMerged(b0, v, reg)
    && RTied(blocks0, bd, v, reg, S)
  }

  /** Nothing is visited and no table entry is written yet. */
  lemma ReconStart(b0: seq<Cell>, blocks0: seq<Block>)
    requires |b0| == CellCount
    ensures ReconInv(b0, blocks0, b0, blocks0, seq(CellCount, _ => false), seq(CellCount, _ => -1), [], [], [], 0)
  {
  }

  /** A block whose anchor is already visited is skipped. */
  lemma ReconSkip(b0: seq<Cell>, blocks0: seq<Block>, bd: seq<Cell>, blocks: seq<Block>, v: seq<bool>,
                  reg: seq<int>, tmp: seq<Block>, S: seq<nat>, labels: seq<nat>, src: nat)
    requires ReconInv(b0, blocks0, bd, blocks, v, reg, tmp, S, labels, src) && src < |blocks0|
    requires InBounds(blocks0[src].pos) && v[Idx(blocks0[src].pos)]
    ensures ReconInv(b0, blocks0, bd, blocks, v, reg, tmp, S, labels, src + 1)
  {
    var t := Idx(blocks0[src].pos);
    assert 0 <= reg[t] < |labels|;
    assert S[reg[t]] < src;
    AnchorsSkip(blocks0, v, reg, S, src);
  }

  lemma AnchorsSkip(blocks0: seq<Block>, v: seq<bool>, reg: seq<int>, S: seq<nat>, src: nat)
    requires |v| == CellCount && |reg| == CellCount && src < |blocks0|
    requires RAnchors(blocks0, v, reg, S, src)
    requires InBounds(blocks0[src].pos) && v[Idx(blocks0[src].pos)]
    requires 0 <= reg[Idx(blocks0[src].pos)] < |S| && S[reg[Idx(blocks0[src].pos)]] < src
    ensures RAnchors(blocks0, v, reg, S, src + 1)
  {
  }

  /** The region numbers after a flood: the cells it reached form region d. */
  ghost function NewReg(v: seq<bool>, v1: seq<bool>, reg: seq<int>, d: nat): (r: seq<int>)
    requires |v| == CellCount && |v1| == CellCount && |reg| == CellCount
    ensures |r| == CellCount
    ensures forall t :: 0 <= t < CellCount ==> r[t] == if Fresh(v, v1, t) then d else reg[t]
  {
    seq(CellCount, t requires 0 <= t < CellCount => if Fresh(v, v1, t) then d else reg[t])
  }

  lemma ConnEdgeBack(b: seq<Cell>, p: Pos, e: Dir)
    requires |b| == CellCount && ConnEdge(b, p, e)
    ensures ConnEdge(b, AddDir(p, e), Opposite(e)) && AddDir(AddDir(p, e), Opposite(e)) == p
  {
    AddDirInverse(p, e);
    PiecesCanConnectSymmetric(b[Idx(p)], b[Idx(AddDir(p, e))], e);
  }

  /** A walk of the flood that starts on a reached cell stays on reached
      cells. */
  lemma {:induction false} GrownFreshAt(b0: seq<Cell>, i: nat, tag: nat, a: Pos, bd: seq<Cell>, v: seq<bool>,
                                        bd1: seq<Cell>, v1: seq<bool>, pos: Pos, path: seq<Pos>, k: nat)
    requires |b0| == CellCount && |bd| == CellCount && |v| == CellCount && |bd1| == CellCount && |v1| == CellCount
    requires FloodOutcome(b0, i, tag, a, bd, v, bd1, v1, pos)
    requires GrownPath(b0, v, path) && k < |path| && Fresh(v, v1, Idx(path[0]))
    ensures Fresh(v, v1, Idx(path[k]))
  {
    if k > 0 {
      GrownFreshAt(b0, i, tag, a, bd, v, bd1, v1, pos, path, k - 1);
      var p, q := path[k - 1], path[k];
      var e := Toward(p, q);
      assert Adjacent(p, q) && ConnEdge(b0, p, e);
      PosOfIdx(p);
      assert Joins(b0, i, PosOf(Idx(p)), e);
    }
  }

  /** A cell the flood reached is joined to the anchor by a walk of reached
      cells inside the new block. */
  lemma TiedFresh(b0: seq<Cell>, i: nat, tag: nat, a: Pos, bd: seq<Cell>, v: seq<bool>,
                  bd1: seq<Cell>, v1: seq<bool>, pos: Pos, t: nat)
    requires |b0| == CellCount && |bd| == CellCount && |v| == CellCount && |bd1| == CellCount && |v1| == CellCount
    requires FloodOutcome(b0, i, tag, a, bd, v, bd1, v1, pos) && Fresh(v, v1, t)
    ensures Tied(bd1, v1, a, PosOf(t))
  {
    var path :| GrownPath(b0, v, path) && |path| > 0 && path[0] == a && path[|path| - 1] == PosOf(t);
    forall k | 0 <= k < |path|
      ensures Fresh(v, v1, Idx(path[k]))
    {
      GrownFreshAt(b0, i, tag, a, bd, v, bd1, v1, pos, path, k);
    }
    forall k | 0 <= k < |path| - 1
      ensures Link(bd1, path[k], path[k + 1])
    {
      assert Fresh(v, v1, Idx(path[k])) && Fresh(v, v1, Idx(path[k + 1]));
      assert ConnEdge(b0, path[k], Toward(path[k], path[k + 1]));
    }
    assert LabelPath(bd1, path);
  }

  /** A walk over visited cells survives a step that keeps those cells. */
  lemma TiedKept(bd: seq<Cell>, v: seq<bool>, bd1: seq<Cell>, v1: seq<bool>, a: Pos, c: Pos)
    requires |bd| == CellCount && |v| == CellCount && |bd1| == CellCount && |v1| == CellCount
    requires Tied(bd, v, a, c)
    requires forall t :: 0 <= t < CellCount && v[t] ==> v1[t] && bd1[t] == bd[t]
    ensures Tied(bd1, v1, a, c)
  {
    var path :| LabelPath(bd, path) && |path| > 0 && path[0] == a && path[|path| - 1] == c
                && forall k :: 0 <= k < |path| ==> v[Idx(path[k])];
    forall k | 0 <= k < |path| - 1
      ensures Link(bd1, path[k], path[k + 1])
    {
      assert Link(bd, path[k], path[k + 1]);
    }
    assert LabelPath(bd1, path);
  }

  lemma CellsFlood(b0: seq<Cell>, bd: seq<Cell>, v: seq<bool>, reg: seq<int>, labels: seq<nat>,
                   i: nat, tag: nat, a: Pos, bd1: seq<Cell>, v1: seq<bool>, pos: Pos)
    requires |b0| == CellCount && |bd| == CellCount && |v| == CellCount && |reg| == CellCount
    requires |bd1| == CellCount && |v1| == CellCount
    requires RCells(b0, bd, v, reg, labels) && FloodOutcome(b0, i, tag, a, bd, v, bd1, v1, pos)
    ensures RCells(b0, bd1, v1, NewReg(v, v1, reg, |labels|), labels + [tag])
  {
    var reg1 := NewReg(v, v1, reg, |labels|);
    forall t | 0 <= t < CellCount
      ensures (!v1[t] ==> bd1[t] == b0[t])
              && (v1[t] ==> b0[t].Piece? && 0 <= reg1[t] < |labels| + 1 && bd1[t] == Relabel(b0[t], (labels + [tag])[reg1[t]]))
    {
      if v[t] {
        assert !Fresh(v, v1, t);
      } else if v1[t] {
        assert Fresh(v, v1, t);
      }
    }
  }

  lemma RegionsFlood(blocks0: seq<Block>, v: seq<bool>, reg: seq<int>, tmp: seq<Block>, S: seq<nat>,
                     b0: seq<Cell>, src: nat, tag: nat, bd: seq<Cell>, bd1: seq<Cell>, v1: seq<bool>, pos: Pos)
    requires |b0| == CellCount && |bd| == CellCount && |v| == CellCount && |reg| == CellCount
    requires |bd1| == CellCount && |v1| == CellCount && |S| == |tmp| && src < |blocks0|
    requires RRegions(blocks0, v, reg, tmp, S)
    requires forall t :: 0 <= t < CellCount && v[t] ==> 0 <= reg[t] < |tmp|
    requires FloodOutcome(b0, src, tag, blocks0[src].pos, bd, v, bd1, v1, pos)
    ensures RRegions(blocks0, v1, NewReg(v, v1, reg, |tmp|), tmp + [Block(pos, blocks0[src].fixed)], S + [src])
  {
    var reg1 := NewReg(v, v1, reg, |tmp|);
    var tmp1 := tmp + [Block(pos, blocks0[src].fixed)];
    forall d | 0 <= d < |tmp1|
      ensures forall t :: 0 <= t < CellCount && v1[t] && reg1[t] == d ==> RowMajorLe(tmp1[d].pos, PosOf(t))
    {
      forall t | 0 <= t < CellCount && v1[t] && reg1[t] == d
        ensures RowMajorLe(tmp1[d].pos, PosOf(t))
      {
        if v[t] {
          assert !Fresh(v, v1, t);
          assert d < |tmp|;
        } else {
          assert Fresh(v, v1, t);
        }
      }
    }
    forall d | 0 <= d < |tmp|
      ensures !Fresh(v, v1, Idx(blocks0[S[d]].pos)) && !Fresh(v, v1, Idx(tmp[d].pos))
    {
    }
  }

  lemma AnchorsFlood(blocks0: seq<Block>, v: seq<bool>, reg: seq<int>, S: seq<nat>, src: nat,
                     b0: seq<Cell>, tag: nat, bd: seq<Cell>, bd1: seq<Cell>, v1: seq<bool>, pos: Pos)
    requires |b0| == CellCount && |bd| == CellCount && |v| == CellCount && |reg| == CellCount
    requires |bd1| == CellCount && |v1| == CellCount && src < |blocks0|
    requires RAnchors(blocks0, v, reg, S, src)
    requires FloodOutcome(b0, src, tag, blocks0[src].pos, bd, v, bd1, v1, pos)
    ensures RAnchors(blocks0, v1, NewReg(v, v1, reg, |S|), S + [src], src + 1)
  {
    forall j | 0 <= j < src
      ensures !Fresh(v, v1, Idx(blocks0[j].pos))
    {
    }
  }

  lemma MergedEdgeFlood(b0: seq<Cell>, v: seq<bool>, reg: seq<int>, i: nat, tag: nat, a: Pos,
                        bd: seq<Cell>, bd1: seq<Cell>, v1: seq<bool>, pos: Pos, d: nat, t: nat, e: Dir)
    requires |b0| == CellCount && |bd| == CellCount && |v| == CellCount && |reg| == CellCount
    requires |bd1| == CellCount && |v1| == CellCount
    requires RMerged(b0, v, reg) && FloodOutcome(b0, i, tag, a, bd, v, bd1, v1, pos)
    requires t < CellCount && v1[t] && ConnEdge(b0, PosOf(t), e)
    ensures v1[Idx(AddDir(PosOf(t), e))]
            && NewReg(v, v1, reg, d)[Idx(AddDir(PosOf(t), e))] == NewReg(v, v1, reg, d)[t]
  {
    var n := Idx(AddDir(PosOf(t), e));
    if !v[t] {
      assert Fresh(v, v1, t) && Joins(b0, i, PosOf(t), e);
      if v[n] {
        ConnEdgeBack(b0, PosOf(t), e);
        PosOfIdx(AddDir(PosOf(t), e));
        assert false;
      }
    }
  }

  lemma MergedBlockFlood(b0: seq<Cell>, v: seq<bool>, reg: seq<int>, i: nat, tag: nat, a: Pos,
                         bd: seq<Cell>, bd1: seq<Cell>, v1: seq<bool>, pos: Pos, d: nat, s: int, t: int)
    requires |b0| == CellCount && |bd| == CellCount && |v| == CellCount && |reg| == CellCount
    requires |bd1| == CellCount && |v1| == CellCount && LabelConnected(b0)
    requires RMerged(b0, v, reg) && FloodOutcome(b0, i, tag, a, bd, v, bd1, v1, pos)
    requires SameBlock(b0, s, t) && v1[s]
    ensures v1[t] && NewReg(v, v1, reg, d)[s] == NewReg(v, v1, reg, d)[t]
  {
    if !v[s] {
      assert SameBlock(b0, t, s);
      assert !v[t];
      assert AllOrNone(b0, v) by {
        forall x, y | SameBlock(b0, x, y)
          ensures v[x] == v[y]
        {
          assert SameBlock(b0, y, x);
        }
      }
      ReachesGrown(b0, v, PosOf(s), PosOf(t));
      var path :| GrownPath(b0, v, path) && |path| > 0 && path[0] == PosOf(s) && path[|path| - 1] == PosOf(t);
      GrownFreshAt(b0, i, tag, a, bd, v, bd1, v1, pos, path, |path| - 1);
    }
  }

  lemma MergedFlood(b0: seq<Cell>, v: seq<bool>, reg: seq<int>, i: nat, tag: nat, a: Pos,
                    bd: seq<Cell>, bd1: seq<Cell>, v1: seq<bool>, pos: Pos, d: nat)
    requires |b0| == CellCount && |bd| == CellCount && |v| == CellCount && |reg| == CellCount
    requires |bd1| == CellCount && |v1| == CellCount && LabelConnected(b0)
    requires RMerged(b0, v, reg) && FloodOutcome(b0, i, tag, a, bd, v, bd1, v1, pos)
    ensures RMerged(b0, v1, NewReg(v, v1, reg, d))
  {
    forall t, e | 0 <= t < CellCount && v1[t] && ConnEdge(b0, PosOf(t), e)
      ensures v1[Idx(AddDir(PosOf(t), e))]
              && NewReg(v, v1, reg, d)[Idx(AddDir(PosOf(t), e))] == NewReg(v, v1, reg, d)[t]
    {
      MergedEdgeFlood(b0, v, reg, i, tag, a, bd, bd1, v1, pos, d, t, e);
    }
    forall s, t | SameBlock(b0, s, t) && v1[s]
      ensures v1[t] && NewReg(v, v1, reg, d)[s] == NewReg(v, v1, reg, d)[t]
    {
      MergedBlockFlood(b0, v, reg, i, tag, a, bd, bd1, v1, pos, d, s, t);
    }
  }

  lemma TiedFlood(blocks0: seq<Block>, bd: seq<Cell>, v: seq<bool>, reg: seq<int>, S: seq<nat>, src: nat,
                  b0: seq<Cell>, tag: nat, bd1: seq<Cell>, v1: seq<bool>, pos: Pos)
    requires |b0| == CellCount && |bd| == CellCount && |v| == CellCount && |reg| == CellCount
    requires |bd1| == CellCount && |v1| == CellCount && src < |blocks0|
    requires RTied(blocks0, bd, v, reg, S)
    requires FloodOutcome(b0, src, tag, blocks0[src].pos, bd, v, bd1, v1, pos)
    ensures RTied(blocks0, bd1, v1, NewReg(v, v1, reg, |S|), S + [src])
  {
    var reg1 := NewReg(v, v1, reg, |S|);
    forall t | 0 <= t < CellCount && v1[t]
      ensures 0 <= reg1[t] < |S| + 1 && (S + [src])[reg1[t]] < |blocks0|
              && Tied(bd1, v1, blocks0[(S + [src])[reg1[t]]].pos, PosOf(t))
    {
      if v[t] {
        assert !Fresh(v, v1, t);
        TiedKept(bd, v, bd1, v1, blocks0[S[reg[t]]].pos, PosOf(t));
      } else {
        assert Fresh(v, v1, t);
        TiedFresh(b0, src, tag, blocks0[src].pos, bd, v, bd1, v1, pos, t);
      }
    }
  }

  /** One block flooded: the fresh cells become region |S| with the given
      label, and the block's entry is appended to the table. */
  lemma ReconFlood(b0: seq<Cell>, blocks0: seq<Block>, bd: seq<Cell>, blocks: seq<Block>, v: seq<bool>,
                   reg: seq<int>, tmp: seq<Block>, S: seq<nat>, labels: seq<nat>, src: nat,
                   tag: nat, bd1: seq<Cell>, v1: seq<bool>, pos: Pos, blocks1: seq<Block>)
    requires ReconInv(b0, blocks0, bd, blocks, v, reg, tmp, S, labels, src) && src < |blocks0|
    requires LabelConnected(b0) && |bd1| == CellCount && |v1| == CellCount
    requires FloodOutcome(b0, src, tag, blocks0[src].pos, bd, v, bd1, v1, pos)
    requires tag !in labels
    requires |blocks1| == |blocks0| && forall j :: src < j < |blocks0| ==> blocks1[j] == blocks0[j]
    ensures ReconInv(b0, blocks0, bd1, blocks1, v1, NewReg(v, v1, reg, |S|),
                     tmp + [Block(pos, blocks0[src].fixed)], S + [src], labels + [tag], src + 1)
  {
    CellsFlood(b0, bd, v, reg, labels, src, tag, blocks0[src].pos, bd1, v1, pos);
    RegionsFlood(blocks0, v, reg, tmp, S, b0, src, tag, bd, bd1, v1, pos);
    AnchorsFlood(blocks0, v, reg, S, src, b0, tag, bd, bd1, v1, pos);
    MergedFlood(b0, v, reg, src, tag, blocks0[src].pos, bd, bd1, v1, pos, |S|);
    TiedFlood(blocks0, bd, v, reg, S, src, b0, tag, bd1, v1, pos);
    ShapeFlood(blocks0, blocks, tmp, S, labels, src, tag, Block(pos, blocks0[src].fixed), blocks1);
  }

  // ---------------------------------------------------------------------
  // What update_block_connections achieves

  /** Table entry d of blocks1 was made by the flood of block S[d] of blocks0,
      which wrote labels[d]: the old anchor of S[d] carries that label, the
      fixed flag is copied, and the entry's position is the row-major first
      cell carrying it. */
  ghost predicate EntryOk(blocks0: seq<Block>, b1: seq<Cell>, blocks1: seq<Block>, S: seq<nat>, labels: seq<nat>, d: int)
    requires |b1| == CellCount && 0 <= d < |blocks1| == |S| == |labels|
  {
    S[d] < |blocks0| && InBounds(blocks0[S[d]].pos) && CellOf(b1, Idx(blocks0[S[d]].pos), labels[d])
    && blocks1[d].fixed == blocks0[S[d]].fixed
    && InBounds(blocks1[d].pos) && CellOf(b1, Idx(blocks1[d].pos), labels[d])
    && forall t :: CellOf(b1, t, labels[d]) ==> RowMajorLe(blocks1[d].pos, PosOf(t))
  }

  /** The surviving entries keep table order and their labels are distinct. */
  ghost predicate RecTable(blocks0: seq<Block>, blocks1: seq<Block>, S: seq<nat>, labels: seq<nat>)
  {
    |blocks1| == |S| == |labels| <= |blocks0|
    && (forall d1, d2 :: 0 <= d1 < d2 < |S| ==> S[d1] < S[d2])
    && (forall d1, d2 :: 0 <= d1 < |labels| && 0 <= d2 < |labels| && labels[d1] == labels[d2] ==> d1 == d2)
  }

  /** Only piece labels change, and each new label is one of the written ones. */
  ghost predicate RecCells(b0: seq<Cell>, b1: seq<Cell>, labels: seq<nat>)
    requires |b0| == CellCount && |b1| == CellCount
  {
    (forall t :: 0 <= t < CellCount && !b0[t].Piece? ==> b1[t] == b0[t])
    && (forall t :: 0 <= t < CellCount && b0[t].Piece? ==>
          b1[t].Piece? && b1[t].color == b0[t].color && b1[t].noConnect == b0[t].noConnect && b1[t].block in labels)
  }

  /** Each entry is made by the first block in table order of a merged group. */
  ghost predicate RecEntries(blocks0: seq<Block>, b1: seq<Cell>, blocks1: seq<Block>, S: seq<nat>, labels: seq<nat>)
    requires |b1| == CellCount && |blocks1| == |S| == |labels|
  {
    (forall d :: 0 <= d < |S| ==> EntryOk(blocks0, b1, blocks1, S, labels, d))
    && (forall j, d ::
          0 <= j < |blocks0| && 0 <= d < |labels| && InBounds(blocks0[j].pos) && CellOf(b1, Idx(blocks0[j].pos), labels[d])
          ==> S[d] <= j)
  }

  /** Blocks and connectable neighbours end with one label. */
  ghost predicate RecMerged(b0: seq<Cell>, b1: seq<Cell>)
    requires |b0| == CellCount && |b1| == CellCount
  {
    (forall s, t :: SameBlock(b0, s, t) ==> SameBlock(b1, s, t))
    && (forall t, e :: 0 <= t < CellCount && ConnEdge(b0, PosOf(t), e) ==> SameBlock(b1, t, Idx(AddDir(PosOf(t), e))))
  }

  /** The outcome of update_block_connections on board b0 with table blocks0:
      b1 and blocks1 are the new board and table, S[d] is the block whose
      flood made entry d, and labels[d] is the label that flood wrote; the
      cells of each label are joined by walks of connectable pieces. */
  ghost predicate Reconciled(b0: seq<Cell>, blocks0: seq<Block>, b1: seq<Cell>, blocks1: seq<Block>,
                             S: seq<nat>, labels: seq<nat>)
  {
    |b0| == CellCount && |b1| == CellCount
    && RecTable(blocks0, blocks1, S, labels)
    && RecCells(b0, b1, labels)
    && RecEntries(blocks0, b1, blocks1, S, labels)
    && RecMerged(b0, b1)
    && LabelConnected(b1)
  }

  /** When the loop is through every piece has been visited. */
  lemma AllVisited(b0: seq<Cell>, blocks0: seq<Block>, bd: seq<Cell>, blocks: seq<Block>, v: seq<bool>,
                   reg: seq<int>, tmp: seq<Block>, S: seq<nat>, labels: seq<nat>, t: int)
    requires ValidState(b0, blocks0)
    requires ReconInv(b0, blocks0, bd, blocks, v, reg, tmp, S, labels, |blocks0|)
    requires 0 <= t < CellCount && b0[t].Piece?
    ensures v[t]
  {
    var j := b0[t].block;
    assert AnchorOk(b0, blocks0, j);
    assert SameBlock(b0, Idx(blocks0[j].pos), t);
  }

  lemma EndCells(b0: seq<Cell>, blocks0: seq<Block>, bd: seq<Cell>, blocks: seq<Block>, v: seq<bool>,
                 reg: seq<int>, tmp: seq<Block>, S: seq<nat>, labels: seq<nat>)
    requires ValidState(b0, blocks0)
    requires ReconInv(b0, blocks0, bd, blocks, v, reg, tmp, S, labels, |blocks0|)
    ensures forall t :: 0 <= t < CellCount && !b0[t].Piece? ==> bd[t] == b0[t]
    ensures forall t :: 0 <= t < CellCount && b0[t].Piece? ==>
              v[t] && bd[t] == Relabel(b0[t], labels[reg[t]])
    ensures forall t :: 0 <= t < CellCount && bd[t].Piece? ==> b0[t].Piece?
  {
    forall t | 0 <= t < CellCount && b0[t].Piece?
      ensures v[t]
    {
      AllVisited(b0, blocks0, bd, blocks, v, reg, tmp, S, labels, t);
    }
  }

  lemma EndConnected(b0: seq<Cell>, blocks0: seq<Block>, bd: seq<Cell>, blocks: seq<Block>, v: seq<bool>,
                     reg: seq<int>, tmp: seq<Block>, S: seq<nat>, labels: seq<nat>)
    requires ValidState(b0, blocks0)
    requires ReconInv(b0, blocks0, bd, blocks, v, reg, tmp, S, labels, |blocks0|)
    ensures LabelConnected(bd)
  {
    EndCells(b0, blocks0, bd, blocks, v, reg, tmp, S, labels);
    forall s, t | SameBlock(bd, s, t)
      ensures Reaches(bd, PosOf(s), PosOf(t))
    {
      assert reg[s] == reg[t];
      var A := blocks0[S[reg[s]]].pos;
      assert Tied(bd, v, A, PosOf(s)) && Tied(bd, v, A, PosOf(t));
      assert Reaches(bd, A, PosOf(s)) && Reaches(bd, A, PosOf(t));
      ReachesSymmetric(bd, A, PosOf(s));
      ReachesTransitive(bd, PosOf(s), A, PosOf(t));
    }
  }

  lemma EndEntries(b0: seq<Cell>, blocks0: seq<Block>, bd: seq<Cell>, blocks: seq<Block>, v: seq<bool>,
                   reg: seq<int>, tmp: seq<Block>, S: seq<nat>, labels: seq<nat>)
    requires ValidState(b0, blocks0)
    requires ReconInv(b0, blocks0, bd, blocks, v, reg, tmp, S, labels, |blocks0|)
    ensures forall d :: 0 <= d < |S| ==> EntryOk(blocks0, bd, tmp, S, labels, d)
    ensures forall j, d ::
              0 <= j < |blocks0| && 0 <= d < |labels| && InBounds(blocks0[j].pos) && CellOf(bd, Idx(blocks0[j].pos), labels[d])
              ==> S[d] <= j
  {
    EndCells(b0, blocks0, bd, blocks, v, reg, tmp, S, labels);
    forall d | 0 <= d < |S|
      ensures EntryOk(blocks0, bd, tmp, S, labels, d)
    {
      forall t | CellOf(bd, t, labels[d])
        ensures RowMajorLe(tmp[d].pos, PosOf(t))
      {
        assert reg[t] == d;
      }
    }
    forall j, d | 0 <= j < |blocks0| && 0 <= d < |labels| && InBounds(blocks0[j].pos)
                  && CellOf(bd, Idx(blocks0[j].pos), labels[d])
      ensures S[d] <= j
    {
      assert reg[Idx(blocks0[j].pos)] == d;
    }
  }

  lemma EndMerged(b0: seq<Cell>, blocks0: seq<Block>, bd: seq<Cell>, blocks: seq<Block>, v: seq<bool>,
                  reg: seq<int>, tmp: seq<Block>, S: seq<nat>, labels: seq<nat>)
    requires ValidState(b0, blocks0)
    requires ReconInv(b0, blocks0, bd, blocks, v, reg, tmp, S, labels, |blocks0|)
    ensures forall s, t :: SameBlock(b0, s, t) ==> SameBlock(bd, s, t)
    ensures forall t, e :: 0 <= t < CellCount && ConnEdge(b0, PosOf(t), e) ==> SameBlock(bd, t, Idx(AddDir(PosOf(t), e)))
  {
    EndCells(b0, blocks0, bd, blocks, v, reg, tmp, S, labels);
  }

  /** The loop invariant at the end of the table gives the outcome. */
  lemma ReconEnd(b0: seq<Cell>, blocks0: seq<Block>, bd: seq<Cell>, blocks: seq<Block>, v: seq<bool>,
                 reg: seq<int>, tmp: seq<Block>, S: seq<nat>, labels: seq<nat>)
    requires ValidState(b0, blocks0)
    requires ReconInv(b0, blocks0, bd, blocks, v, reg, tmp, S, labels, |blocks0|)
    ensures Reconciled(b0, blocks0, bd, tmp, S, labels)
  {
    EndCells(b0, blocks0, bd, blocks, v, reg, tmp, S, labels);
    EndEntries(b0, blocks0, bd, blocks, v, reg, tmp, S, labels);
    EndMerged(b0, blocks0, bd, blocks, v, reg, tmp, S, labels);
    EndConnected(b0, blocks0, bd, blocks, v, reg, tmp, S, labels);
  }

  /** 0, 1, .., n - 1. */
  function Iota(n: nat): (r: seq<nat>)
    ensures |r| == n && forall d :: 0 <= d < n ==> r[d] == d
  {
    if n == 0 then [] else Iota(n - 1) + [n - 1]
  }

  /** When every flood writes the index its entry gets in the packed table,
      the outcome is a state moves can be made on again. */
  lemma ReconciledValid(b0: seq<Cell>, blocks0: seq<Block>, b1: seq<Cell>, blocks1: seq<Block>, S: seq<nat>)
    requires Reconciled(b0, blocks0, b1, blocks1, S, Iota(|S|))
    ensures ValidState(b1, blocks1)
  {
    LabelsBelow(b0, b1, |S|);
    AnchorsLabelled(blocks0, b1, blocks1, S);
  }

  lemma LabelsBelow(b0: seq<Cell>, b1: seq<Cell>, n: nat)
    requires |b0| == CellCount && |b1| == CellCount && RecCells(b0, b1, Iota(n))
    ensures forall t :: 0 <= t < CellCount && b1[t].Piece? ==> b1[t].block < n
  {
    forall t | 0 <= t < CellCount && b1[t].Piece?
      ensures b1[t].block < n
    {
      assert b0[t].Piece?;
    }
  }

  lemma AnchorsLabelled(blocks0: seq<Block>, b1: seq<Cell>, blocks1: seq<Block>, S: seq<nat>)
    requires |b1| == CellCount && |blocks1| == |S| && RecEntries(blocks0, b1, blocks1, S, Iota(|S|))
    ensures forall k :: 0 <= k < |blocks1| ==> AnchorOk(b1, blocks1, k)
  {
    forall k | 0 <= k < |blocks1|
      ensures AnchorOk(b1, blocks1, k)
    {
      assert EntryOk(blocks0, b1, blocks1, S, Iota(|S|), k);
    }
  }

  /** The loop state that starts a flood of block src. */
  lemma FloodReady(b0: seq<Cell>, blocks0: seq<Block>, bd: seq<Cell>, blocks: seq<Block>, v: seq<bool>,
                   reg: seq<int>, tmp: seq<Block>, S: seq<nat>, labels: seq<nat>, src: nat)
    requires ValidState(b0, blocks0) && src < |blocks0|
    requires ReconInv(b0, blocks0, bd, blocks, v, reg, tmp, S, labels, src)
    ensures blocks[src] == blocks0[src] && InBounds(blocks0[src].pos)
    ensures CellOf(b0, Idx(blocks0[src].pos), src) && AllOrNone(b0, v)
    ensures forall t :: 0 <= t < CellCount && !v[t] ==> bd[t] == b0[t]
  {
    assert AnchorOk(b0, blocks0, src);
    forall x, y | SameBlock(b0, x, y)
      ensures v[x] == v[y]
    {
      assert SameBlock(b0, y, x);
    }
  }

  /** One pass of the loop of update_block_connections: block src is
      skipped when an earlier flood reached its anchor, and otherwise flooded
      with label tag and its entry appended to tmp. */
  method ReconcileBlock(game: GameState, visited: array<bool>, src: nat, tag: nat, tmp: seq<Block>,
                        ghost b0: seq<Cell>, ghost blocks0: seq<Block>, ghost reg: seq<int>,
                        ghost S: seq<nat>, ghost labels: seq<nat>)
    returns (tmp1: seq<Block>, ghost reg1: seq<int>, ghost S1: seq<nat>, ghost labels1: seq<nat>)
    requires game.board.Length == CellCount && visited.Length == CellCount
    requires ValidState(b0, blocks0) && src < |blocks0| && tag !in labels
    requires ReconInv(b0, blocks0, game.board[..], game.blocks, visited[..], reg, tmp, S, labels, src)
    modifies game, game.board, visited
    ensures ReconInv(b0, blocks0, game.board[..], game.blocks, visited[..], reg1, tmp1, S1, labels1, src + 1)
    ensures (S1 == S && labels1 == labels) || (S1 == S + [src] && labels1 == labels + [tag])
  {
    FloodReady(b0, blocks0, game.board[..], game.blocks, visited[..], reg, tmp, S, labels, src);
    if visited[Idx(game.blocks[src].pos)] {
      ReconSkip(b0, blocks0, game.board[..], game.blocks, visited[..], reg, tmp, S, labels, src);
      return tmp, reg, S, labels;
    }
    ghost var bd, v, blocks := game.board[..], visited[..], game.blocks;
    ConnectAdjacentBlocks(game, src, tag, visited, b0);
    assert game.blocks[src] == Block(game.blocks[src].pos, blocks0[src].fixed);
    ReconFlood(b0, blocks0, bd, blocks, v, reg, tmp, S, labels, src, tag, game.board[..], visited[..],
               game.blocks[src].pos, game.blocks);
    tmp1 := tmp + [game.blocks[src]];
    reg1 := NewReg(v, visited[..], reg, |S|);
    S1 := S + [src];
    labels1 := labels + [tag];
  }

  /** update_block_connections as the source has it: the flood of block src
      writes the label src, while the block's entry is packed at the next
      free index of the new table. */
  method UpdateBlockConnectionsAsWritten(game: GameState) returns (ghost S: seq<nat>)
    requires game.board.Length == CellCount && ValidState(game.board[..], game.blocks)
    modifies game, game.board
    ensures Reconciled(old(game.board[..]), old(game.blocks), game.board[..], game.blocks, S, S)
  {
    ghost var b0 := game.board[..];
    ghost var blocks0 := game.blocks;
    var visited := new bool[CellCount](_ => false);
    ghost var reg: seq<int> := seq(CellCount, _ => -1);
    ghost var labels: seq<nat> := [];
    var tmp: seq<Block> := [];
    S := [];
    ReconStart(b0, blocks0);
    assert visited[..] == seq(CellCount, _ => false);
    for src := 0 to |game.blocks|
      invariant ReconInv(b0, blocks0, game.board[..], game.blocks, visited[..], reg, tmp, S, S, src)
    {
      tmp, reg, S, labels := ReconcileBlock(game, visited, src, src, tmp, b0, blocks0, reg, S, S);
    }
    ghost var blocks := game.blocks;
    game.blocks := tmp;
    ReconEnd(b0, blocks0, game.board[..], blocks, visited[..], reg, tmp, S, S);
  }

  /** update_block_connections with each flood writing the index its entry
      gets in the packed table, so that labels and table agree. */
  method UpdateBlockConnections(game: GameState) returns (ghost S: seq<nat>)
    requires game.board.Length == CellCount && ValidState(game.board[..], game.blocks)
    modifies game, game.board
    ensures Reconciled(old(game.board[..]), old(game.blocks), game.board[..], game.blocks, S, Iota(|S|))
    ensures ValidState(game.board[..], game.blocks)
  {
    ghost var b0 := game.board[..];
    ghost var blocks0 := game.blocks;
    var visited := new bool[CellCount](_ => false);
    ghost var reg: seq<int> := seq(CellCount, _ => -1);
    ghost var labels: seq<nat> := [];
    var tmp: seq<Block> := [];
    S := [];
    ReconStart(b0, blocks0);
    assert visited[..] == seq(CellCount, _ => false);
    for src := 0 to |game.blocks|
      invariant ReconInv(b0, blocks0, game.board[..], game.blocks, visited[..], reg, tmp, S, Iota(|S|), src)
    {
      tmp, reg, S, labels := ReconcileBlock(game, visited, src, |tmp|, tmp, b0, blocks0, reg, S, Iota(|S|));
      assert Iota(|S|) == labels;
    }
    ghost var blocks := game.blocks;
    game.blocks := tmp;
    ReconEnd(b0, blocks0, game.board[..], blocks, visited[..], reg, tmp, S, Iota(|S|));
    ReconciledValid(b0, blocks0, game.board[..], game.blocks, S);
  }

  // ---------------------------------------------------------------------
  // The label mismatch of the source's version

  /** Three one-cell blocks in the top row: blocks 0 and 1 side by side with
      one colour, block 2 apart with another. */
  function MismatchCell(t: int): Cell
  {
    if t == 0 then Piece(1, 0, 0) else if t == 1 then Piece(1, 0, 1)
    else if t == 3 then Piece(2, 0, 2) else Empty
  }

  function MismatchBoard(): (b: seq<Cell>)
    ensures |b| == CellCount && forall t :: 0 <= t < CellCount ==> b[t] == MismatchCell(t)
  {
    seq(CellCount, MismatchCell)
  }

  function MismatchBlocks(): seq<Block>
  {
    [Block(Pos(0, 0), false), Block(Pos(1, 0), false), Block(Pos(3, 0), false)]
  }

  /** The board is a state the reconciler accepts. */
  lemma MismatchInputValid()
    ensures ValidState(MismatchBoard(), MismatchBlocks())
  {
    var b := MismatchBoard();
    forall i, j | SameBlock(b, i, j)
      ensures Reaches(b, PosOf(i), PosOf(j))
    {
      assert i == j;
      assert LabelPath(b, [PosOf(i)]);
    }
  }

  /** The edge from cell t to its right neighbour t + 1. */
  lemma EdgeRight(b: seq<Cell>, t: nat)
    requires |b| == CellCount && t + 1 < CellCount && t % Width != Width - 1
    requires b[t].Piece? && b[t + 1].Piece? && PiecesCanConnect(b[t], b[t + 1], Right)
    ensures ConnEdge(b, PosOf(t), Right) && Idx(AddDir(PosOf(t), Right)) == t + 1
  {
    var p := PosOf(t);
    assert AddDir(p, Right) == Pos(p.x + 1, p.y);
  }

  lemma MismatchEdge()
    ensures ConnEdge(MismatchBoard(), PosOf(0), Right) && Idx(AddDir(PosOf(0), Right)) == 1
  {
    ColorsEqualInitialMeaning(1, 1);
    assert PiecesCanConnect(Piece(1, 0, 0), Piece(1, 0, 1), Right);
    EdgeRight(MismatchBoard(), 0);
  }

  /** Blocks 0 and 1 may connect, so both cells end with label 0. */
  lemma MismatchMerged(b1: seq<Cell>, blocks1: seq<Block>, S: seq<nat>)
    requires |b1| == CellCount && |blocks1| == |S|
    requires RecCells(MismatchBoard(), b1, S) && RecMerged(MismatchBoard(), b1)
    requires RecEntries(MismatchBlocks(), b1, blocks1, S, S)
    ensures b1[0].Piece? && b1[1].Piece? && b1[0].block == 0 && b1[1].block == 0
  {
    var b0, blocks0 := MismatchBoard(), MismatchBlocks();
    MismatchEdge();
    assert SameBlock(b1, 0, 1);
    assert b1[0].block in S;
    var d :| 0 <= d < |S| && S[d] == b1[0].block;
    assert CellOf(b1, Idx(blocks0[0].pos), S[d]);
  }

  lemma {:induction false} IncreasingAbove(S: seq<nat>, d: nat)
    requires forall d1, d2 :: 0 <= d1 < d2 < |S| ==> S[d1] < S[d2]
    requires d < |S|
    ensures d <= S[d]
  {
    if d > 0 {
      IncreasingAbove(S, d - 1);
      assert S[d - 1] < S[d];
    }
  }

  /** No entry comes from block 1, and so at most two survive. */
  lemma MismatchEntries(b1: seq<Cell>, blocks1: seq<Block>, S: seq<nat>)
    requires |b1| == CellCount && RecTable(MismatchBlocks(), blocks1, S, S)
    requires RecEntries(MismatchBlocks(), b1, blocks1, S, S) && b1[1].Piece? && b1[1].block == 0
    ensures forall d :: 0 <= d < |S| ==> S[d] == 0 || S[d] == 2
    ensures |S| <= 2
  {
    var blocks0 := MismatchBlocks();
    forall d | 0 <= d < |S|
      ensures S[d] == 0 || S[d] == 2
    {
      assert EntryOk(blocks0, b1, blocks1, S, S, d);
    }
    // closing the gap left by the missing 1 keeps the order
    var T: seq<nat> := seq(|S|, d requires 0 <= d < |S| => if S[d] >= 2 then S[d] - 1 else S[d]);
    IncreasingBelow(T, 2);
  }

  /** An increasing sequence of naturals below m has at most m entries. */
  lemma IncreasingBelow(S: seq<nat>, m: nat)
    requires forall d1, d2 :: 0 <= d1 < d2 < |S| ==> S[d1] < S[d2]
    requires forall d :: 0 <= d < |S| ==> S[d] < m
    ensures |S| <= m
  {
    if |S| > 0 {
      IncreasingAbove(S, |S| - 1);
    }
  }

  lemma LastLink(b: seq<Cell>, path: seq<Pos>)
    requires |b| == CellCount && LabelPath(b, path) && |path| >= 2
    ensures Link(b, path[|path| - 2], path[|path| - 1])
  {
  }

  /** The cell of block 2 has no piece beside it, so it does not share a
      label with cell 0. */
  lemma MismatchIsolated(b1: seq<Cell>, S: seq<nat>)
    requires |b1| == CellCount && RecCells(MismatchBoard(), b1, S) && LabelConnected(b1)
    ensures b1[3].block != b1[0].block
  {
    var b0 := MismatchBoard();
    assert b0[0].Piece? && b0[3].Piece?;
    if b1[3].block == b1[0].block {
      assert SameBlock(b1, 0, 3);
      var path :| LabelPath(b1, path) && |path| > 0 && path[0] == PosOf(0) && path[|path| - 1] == PosOf(3);
      // the step into cell 3 comes from a piece beside it, and there is none
      assert |path| >= 2;
      LastLink(b1, path);
      assert false;
    }
  }

  /** Blocks 0 and 1 merge and block 2 survives as the second entry, but the
      source's version leaves label 2 on its cell: whatever outcome of
      UpdateBlockConnectionsAsWritten, a label points past the table. */
  lemma MismatchOutcomeInvalid(b1: seq<Cell>, blocks1: seq<Block>, S: seq<nat>)
    requires Reconciled(MismatchBoard(), MismatchBlocks(), b1, blocks1, S, S)
    ensures !ValidState(b1, blocks1)
  {
    MismatchMerged(b1, blocks1, S);
    MismatchEntries(b1, blocks1, S);
    MismatchIsolated(b1, S);
    assert MismatchBoard()[3].Piece?;
    assert b1[3].block in S;
    var d :| 0 <= d < |S| && S[d] == b1[3].block;
    assert S[d] == 2;
  }
}
