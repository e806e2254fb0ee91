/**
 * The cascade explorer of move_block: before a block moves one step, every
 * block it would push is collected, and the move is refused as soon as some
 * cell of the cascade would run into the edge of the board, a wall, an
 * emerge cell or a fixed block. Along the way every pushed block, and every
 * block resting on a pushed cell, is noted as a candidate for gravity.
 *
 * block_add_adjacent_blocks is a method proved equal to the recursive
 * function AdjRun; the loop of move_block is proved against the cascade
 * defined independently (InCascade, MoveOk).
 */
module Explorer {
  import opened Board
  import opened Flood

  /** The cell is a piece of block x. */
  predicate CellOf(b: seq<Cell>, t: int, x: nat)
  {
    0 <= t < |b| && b[t].Piece? && b[t].block == x
  }

  /** Every piece names an existing block. */
  predicate LabelsOk(b: seq<Cell>, blocks: seq<Block>)
  {
    forall t :: 0 <= t < |b| && b[t].Piece? ==> b[t].block < |blocks|
  }

  /** is_stop_cell: walls, emerge cells and pieces of fixed blocks stop a
      move; empty cells do not. */
  predicate IsStopCell(blocks: seq<Block>, c: Cell)
    requires c.Piece? ==> c.block < |blocks|
  {
    match c
    case Empty => false
    case Wall => true
    case Emerge(_, _, _) => true
    case Piece(_, _, k) => blocks[k].fixed
  }

  /** What a cell moving onto n runs into: the edge of the board or a stop
      cell. */
  predicate Obstacle(b: seq<Cell>, blocks: seq<Block>, n: Pos)
    requires |b| == CellCount && LabelsOk(b, blocks)
  {
    !InBounds(n) || IsStopCell(blocks, b[Idx(n)])
  }

  // ---------------------------------------------------------------------
  // The cascade, defined on the board alone

  /** Block x pushes block y: some cell of x has a cell of y as its neighbour
      in the move direction. */
  ghost predicate PushStep(b: seq<Cell>, dir: Dir, x: nat, y: nat)
    requires |b| == CellCount
  {
    x != y &&
    exists t :: 0 <= t < CellCount && CellOf(b, t, x) && InBounds(AddDir(PosOf(t), dir))
                && CellOf(b, Idx(AddDir(PosOf(t), dir)), y)
  }

  ghost predicate CascadeChain(b: seq<Cell>, dir: Dir, chain: seq<nat>)
    requires |b| == CellCount
  {
    |chain| > 0 && forall k :: 0 <= k < |chain| - 1 ==> PushStep(b, dir, chain[k], chain[k + 1])
  }

  /** Block y is pushed, directly or through other blocks, when block x
      moves in direction dir. */
  ghost predicate InCascade(b: seq<Cell>, dir: Dir, x: nat, y: nat)
    requires |b| == CellCount
  {
    exists chain :: CascadeChain(b, dir, chain) && chain[0] == x && chain[|chain| - 1] == y
  }

  /** The move can be made: the block is not fixed and no cell of any block
      of its cascade runs into an obstacle. */
  ghost predicate MoveOk(b: seq<Cell>, blocks: seq<Block>, x: nat, dir: Dir)
    requires |b| == CellCount && LabelsOk(b, blocks) && x < |blocks|
  {
    !blocks[x].fixed &&
    forall t :: 0 <= t < CellCount && b[t].Piece? && InCascade(b, dir, x, b[t].block) ==>
      !Obstacle(b, blocks, AddDir(PosOf(t), dir))
  }

  // ---------------------------------------------------------------------
  // block_add_adjacent_blocks on values

  /** The flood's state: whether an obstacle was found, g_visited, the
      position stack, g_blocks_need_move and g_blocks_need_gravity. */
  datatype AdjState = AdjState(stop: bool, visited: seq<bool>, stack: seq<Pos>, needMove: seq<nat>, gravity: seq<nat>)

  predicate InBoundsAll(stack: seq<Pos>)
  {
    forall k :: 0 <= k < |stack| ==> InBounds(stack[k])
  }

  predicate AdjWf(s: AdjState)
  {
    |s.visited| == CellCount && InBoundsAll(s.stack)
  }

  /** The neighbour of p in direction e, pushed when it is an unvisited cell of
      block x. */
  function SamePushIf(b: seq<Cell>, v: seq<bool>, p: Pos, x: nat, e: Dir): seq<Pos>
    requires |b| == CellCount && |v| == CellCount
  {
    var q := AddDir(p, e);
    if InBounds(q) && b[Idx(q)].Piece? && !v[Idx(q)] && b[Idx(q)].block == x then [q] else []
  }

  function SamePushesUpTo(b: seq<Cell>, v: seq<bool>, p: Pos, x: nat, c: nat): seq<Pos>
    requires |b| == CellCount && |v| == CellCount && c <= 4
  {
    if c == 0 then [] else SamePushesUpTo(b, v, p, x, c - 1) + SamePushIf(b, v, p, x, DirOf(c - 1))
  }

  function SamePushes(b: seq<Cell>, v: seq<bool>, p: Pos, x: nat): seq<Pos>
    requires |b| == CellCount && |v| == CellCount
  {
    SamePushesUpTo(b, v, p, x, 4)
  }

  /** Pushed neighbours are unvisited cells of x. */
  lemma {:induction false} SamePushesSound(b: seq<Cell>, v: seq<bool>, p: Pos, x: nat, c: nat)
    requires |b| == CellCount && |v| == CellCount && c <= 4
    ensures forall k :: 0 <= k < |SamePushesUpTo(b, v, p, x, c)| ==>
              InBounds(SamePushesUpTo(b, v, p, x, c)[k]) && !v[Idx(SamePushesUpTo(b, v, p, x, c)[k])]
              && CellOf(b, Idx(SamePushesUpTo(b, v, p, x, c)[k]), x)
  {
    if c > 0 {
      SamePushesSound(b, v, p, x, c - 1);
      assert SamePushesUpTo(b, v, p, x, c)
             == SamePushesUpTo(b, v, p, x, c - 1) + SamePushIf(b, v, p, x, DirOf(c - 1));
    }
  }

  /** Every unvisited neighbour of p in block x is pushed. */
  lemma {:induction false} SamePushesComplete(b: seq<Cell>, v: seq<bool>, p: Pos, x: nat, c: nat)
    requires |b| == CellCount && |v| == CellCount && c <= 4
    ensures forall e :: (Code(e) < c && InBounds(AddDir(p, e)) && CellOf(b, Idx(AddDir(p, e)), x)
                         && !v[Idx(AddDir(p, e))]) ==> AddDir(p, e) in SamePushesUpTo(b, v, p, x, c)
  {
    if c > 0 {
      SamePushesComplete(b, v, p, x, c - 1);
      assert SamePushesUpTo(b, v, p, x, c)
             == SamePushesUpTo(b, v, p, x, c - 1) + SamePushIf(b, v, p, x, DirOf(c - 1));
    }
  }

  /** The gravity candidate noted for the popped cell p: the block on top of
      it, when that is another block and the move is not upwards. */
  function AboveOf(b: seq<Cell>, p: Pos, x: nat, dir: Dir): seq<nat>
    requires |b| == CellCount
  {
    var above := AddDir(p, Up);
    if dir != Up && InBounds(above) && b[Idx(above)].Piece? && b[Idx(above)].block != x
    then [b[Idx(above)].block] else []
  }

  /** One pop of block_add_adjacent_blocks. */
  function AdjPop(b: seq<Cell>, blocks: seq<Block>, x: nat, dir: Dir, s: AdjState): AdjState
    requires |b| == CellCount && LabelsOk(b, blocks) && AdjWf(s) && s.stack != []
  {
    var p := s.stack[|s.stack| - 1];
    var v1 := s.visited[Idx(p) := true];
    var grav1 := s.gravity + AboveOf(b, p, x, dir);
    var stack1 := s.stack[..|s.stack| - 1] + SamePushes(b, v1, p, x);
    var n := AddDir(p, dir);
    if !InBounds(n) then AdjState(true, v1, stack1, s.needMove, grav1)
    else
      var c := b[Idx(n)];
      if c.Empty? then AdjState(false, v1, stack1, s.needMove, grav1)
      else if IsStopCell(blocks, c) then AdjState(true, v1, stack1, s.needMove, grav1)
      else if v1[Idx(n)] then AdjState(false, v1, stack1, s.needMove, grav1)
      else if c.block == x then AdjState(false, v1, stack1, s.needMove, grav1)
      else if blocks[c.block].fixed then AdjState(true, v1, stack1, s.needMove, grav1)
      else AdjState(false, v1, stack1, s.needMove + [c.block], grav1)
  }

  /** The fields every branch of AdjPop shares. */
  lemma AdjPopShape(b: seq<Cell>, blocks: seq<Block>, x: nat, dir: Dir, s: AdjState)
    requires |b| == CellCount && LabelsOk(b, blocks) && AdjWf(s) && s.stack != []
    ensures var p := s.stack[|s.stack| - 1];
            var n := AdjPop(b, blocks, x, dir, s);
            n.visited == s.visited[Idx(p) := true]
            && n.stack == s.stack[..|s.stack| - 1] + SamePushes(b, s.visited[Idx(p) := true], p, x)
            && n.gravity == s.gravity + AboveOf(b, p, x, dir)
  {
  }

  /** A pop keeps the stack in bounds and lowers the flood measure. */
  lemma AdjPopOk(b: seq<Cell>, blocks: seq<Block>, x: nat, dir: Dir, s: AdjState)
    requires |b| == CellCount && LabelsOk(b, blocks) && AdjWf(s) && s.stack != []
    ensures var n := AdjPop(b, blocks, x, dir, s);
            AdjWf(n)
            && (CountFalse(n.visited) < CountFalse(s.visited)
                || (CountFalse(n.visited) == CountFalse(s.visited)
                    && VisitedEntries(n.visited, n.stack) < VisitedEntries(s.visited, s.stack)))
  {
    var p := s.stack[|s.stack| - 1];
    var v1 := s.visited[Idx(p) := true];
    var pushed := SamePushes(b, v1, p, x);
    SamePushesSound(b, v1, p, x, 4);
    PopMeasure(s.visited, s.stack, pushed);
    AdjPopShape(b, blocks, x, dir, s);
    var n := AdjPop(b, blocks, x, dir, s);
    forall k | 0 <= k < |n.stack|
      ensures InBounds(n.stack[k])
    {
      if k < |s.stack| - 1 {
        assert n.stack[k] == s.stack[k];
      } else {
        assert n.stack[k] == pushed[k - (|s.stack| - 1)];
      }
    }
  }

  /** The whole of block_add_adjacent_blocks from a given state, on values:
      pops until an obstacle is found or the stack is empty. */
  function AdjRun(b: seq<Cell>, blocks: seq<Block>, x: nat, dir: Dir, s: AdjState): (r: AdjState)
    requires |b| == CellCount && LabelsOk(b, blocks) && AdjWf(s)
    ensures AdjWf(r) && (r.stop || r.stack == [])
    decreases CountFalse(s.visited), VisitedEntries(s.visited, s.stack)
  {
    if s.stop || s.stack == [] then s
    else
      var n := AdjPop(b, blocks, x, dir, s);
      AdjPopOk(b, blocks, x, dir, s);
      AdjRun(b, blocks, x, dir, n)
  }

  /** The neighbour scan of one popped cell. */
  method PushSameBlock(board: array<Cell>, visited: array<bool>, p: Pos, x: nat, stack: seq<Pos>)
    returns (grown: seq<Pos>)
    requires board.Length == CellCount && visited.Length == CellCount
    ensures grown == stack + SamePushes(board[..], visited[..], p, x)
  {
    ghost var b, v := board[..], visited[..];
    grown := stack;
    for c := 0 to 4
      invariant grown == stack + SamePushesUpTo(b, v, p, x, c)
    {
      var more := PushIfSame(board, visited, p, x, DirOf(c));
      grown := grown + more;
    }
  }

  /** One neighbour test of the flood of block x. */
  method PushIfSame(board: array<Cell>, visited: array<bool>, p: Pos, x: nat, e: Dir) returns (more: seq<Pos>)
    requires board.Length == CellCount && visited.Length == CellCount
    ensures more == SamePushIf(board[..], visited[..], p, x, e)
  {
    var q := AddDir(p, e);
    if InBounds(q) && board[Idx(q)].Piece? && !visited[Idx(q)] && board[Idx(q)].block == x {
      more := [q];
    } else {
      more := [];
    }
  }

  /** The body of the loop of block_add_adjacent_blocks. */
  method AdjPopCell(board: array<Cell>, blocks: seq<Block>, x: nat, dir: Dir, visited: array<bool>,
                    stack: seq<Pos>, need: seq<nat>, grav: seq<nat>)
    returns (stop: bool, stack1: seq<Pos>, need1: seq<nat>, grav1: seq<nat>)
    requires board.Length == CellCount && visited.Length == CellCount && LabelsOk(board[..], blocks)
    requires InBoundsAll(stack) && stack != []
    modifies visited
    ensures AdjPop(board[..], blocks, x, dir, AdjState(false, old(visited[..]), stack, need, grav))
            == AdjState(stop, visited[..], stack1, need1, grav1)
  {
    ghost var v := visited[..];
    var p := stack[|stack| - 1];
    stack1 := stack[..|stack| - 1];
    visited[Idx(p)] := true;
    assert visited[..] == v[Idx(p) := true];
    grav1 := grav;
    if dir != Up {
      var above := AddDir(p, Up);
      if InBounds(above) && board[Idx(above)].Piece? && board[Idx(above)].block != x {
        grav1 := grav1 + [board[Idx(above)].block];
      }
    }
    assert grav1 == grav + AboveOf(board[..], p, x, dir);
    stack1 := PushSameBlock(board, visited, p, x, stack1);
    need1 := need;
    stop := false;
    var n := AddDir(p, dir);
    if !InBounds(n) {
      stop := true;
    } else {
      var c := board[Idx(n)];
      if c.Empty? {
      } else if IsStopCell(blocks, c) {
        stop := true;
      } else if visited[Idx(n)] {
      } else if c.block == x {
      } else if blocks[c.block].fixed {
        stop := true;
      } else {
        need1 := need1 + [c.block];
      }
    }
  }

  /** block_add_adjacent_blocks: floods block x from its anchor; for each cell
      notes the block on top of it for gravity and inspects the neighbour in
      the move direction, stopping at an obstacle and noting a pushed block
      otherwise. */
  method BlockAddAdjacentBlocks(board: array<Cell>, blocks: seq<Block>, x: nat, dir: Dir, visited: array<bool>,
                                need: seq<nat>, grav: seq<nat>)
    returns (stop: bool, need1: seq<nat>, grav1: seq<nat>)
    requires board.Length == CellCount && visited.Length == CellCount && LabelsOk(board[..], blocks)
    requires x < |blocks| && InBounds(blocks[x].pos)
    modifies visited
    ensures var r := AdjRun(board[..], blocks, x, dir, AdjState(false, old(visited[..]), [blocks[x].pos], need, grav));
            stop == r.stop && visited[..] == r.visited && need1 == r.needMove && grav1 == r.gravity
  {
    var stack := [blocks[x].pos];
    need1, grav1 := need, grav;
    stop := false;
    while |stack| > 0
      invariant InBoundsAll(stack) && !stop
      invariant AdjRun(board[..], blocks, x, dir, AdjState(false, visited[..], stack, need1, grav1))
                == AdjRun(board[..], blocks, x, dir, AdjState(false, old(visited[..]), [blocks[x].pos], need, grav))
      decreases CountFalse(visited[..]), VisitedEntries(visited[..], stack)
    {
      ghost var s := AdjState(false, visited[..], stack, need1, grav1);
      stop, stack, need1, grav1 := AdjPopCell(board, blocks, x, dir, visited, stack, need1, grav1);
      AdjPopOk(board[..], blocks, x, dir, s);
      if stop {
        return;
      }
    }
  }

  // ---------------------------------------------------------------------
  // What one call of block_add_adjacent_blocks establishes

  /** Every block is visited as a whole or not at all. */
  ghost predicate AllOrNone(b: seq<Cell>, v: seq<bool>)
    requires |b| == CellCount && |v| == CellCount
  {
    forall s, t :: SameBlock(b, s, t) ==> v[s] == v[t]
  }

  predicate AnchorsOk(b: seq<Cell>, blocks: seq<Block>)
    requires |b| == CellCount
  {
    forall k :: 0 <= k < |blocks| ==> AnchorOk(b, blocks, k)
  }

  predicate ValidIndices(blocks: seq<Block>, g: seq<nat>)
  {
    forall k :: 0 <= k < |g| ==> g[k] < |blocks|
  }

  /** Some cell of block x runs into an obstacle. */
  ghost predicate Blocked(b: seq<Cell>, blocks: seq<Block>, x: nat, dir: Dir)
    requires |b| == CellCount && LabelsOk(b, blocks)
  {
    exists t :: CellOf(b, t, x) && Obstacle(b, blocks, AddDir(PosOf(t), dir))
  }

  /** The stack holds cells of x, the cells visited since v0 are cells of x,
      and the anchor a is visited or still on the stack. */
  ghost predicate AdjFrame(b: seq<Cell>, x: nat, a: Pos, v0: seq<bool>, s: AdjState)
    requires |b| == CellCount && |v0| == CellCount && AdjWf(s)
  {
    InBounds(a) && (s.visited[Idx(a)] || a in s.stack)
    && (forall k :: 0 <= k < |s.stack| ==> CellOf(b, Idx(s.stack[k]), x))
    && (forall t :: 0 <= t < CellCount && v0[t] ==> s.visited[t])
    && (forall t :: 0 <= t < CellCount && s.visited[t] && !v0[t] ==> CellOf(b, t, x))
  }

  /** A neighbour of a newly visited cell that belongs to x is visited or
      still to be popped. */
  ghost predicate PendingSame(b: seq<Cell>, x: nat, s: AdjState, q: Pos)
    requires |b| == CellCount && AdjWf(s)
  {
    InBounds(q) && CellOf(b, Idx(q), x) ==> s.visited[Idx(q)] || q in s.stack
  }

  ghost predicate AdjClosed(b: seq<Cell>, x: nat, v0: seq<bool>, s: AdjState)
    requires |b| == CellCount && |v0| == CellCount && AdjWf(s)
  {
    forall t, e :: 0 <= t < CellCount && s.visited[t] && !v0[t] && e != NoDir ==>
      PendingSame(b, x, s, AddDir(PosOf(t), e))
  }

  /** The neighbour of cell t in the move direction was inspected and found
      to be no obstacle: it is empty, visited, part of x or noted as pushed. */
  ghost predicate NextOk(b: seq<Cell>, blocks: seq<Block>, x: nat, dir: Dir, v: seq<bool>, need: seq<nat>, t: int)
    requires |b| == CellCount && LabelsOk(b, blocks) && |v| == CellCount && 0 <= t < CellCount
  {
    var n := AddDir(PosOf(t), dir);
    InBounds(n) && !IsStopCell(blocks, b[Idx(n)])
    && (b[Idx(n)].Piece? ==> v[Idx(n)] || b[Idx(n)].block == x || b[Idx(n)].block in need)
  }

  ghost predicate AdjChecked(b: seq<Cell>, blocks: seq<Block>, x: nat, dir: Dir, v0: seq<bool>, s: AdjState)
    requires |b| == CellCount && LabelsOk(b, blocks) && |v0| == CellCount && AdjWf(s)
  {
    forall t :: 0 <= t < CellCount && s.visited[t] && !v0[t] ==> NextOk(b, blocks, x, dir, s.visited, s.needMove, t)
  }

  /** Block c is pushed by x, is movable, and was not visited before. */
  ghost predicate Pushed(b: seq<Cell>, blocks: seq<Block>, dir: Dir, v0: seq<bool>, x: nat, c: nat)
    requires |b| == CellCount && |v0| == CellCount
  {
    c < |blocks| && c != x && !blocks[c].fixed && PushStep(b, dir, x, c)
    && InBounds(blocks[c].pos) && !v0[Idx(blocks[c].pos)]
  }

  ghost predicate AdjNeed(b: seq<Cell>, blocks: seq<Block>, x: nat, dir: Dir, v0: seq<bool>, need0: seq<nat>, s: AdjState)
    requires |b| == CellCount && |v0| == CellCount
  {
    need0 <= s.needMove
    && forall k :: |need0| <= k < |s.needMove| ==> Pushed(b, blocks, dir, v0, x, s.needMove[k])
  }

  /** The block resting on cell t, if any and if it is not x, is noted for
      gravity. */
  ghost predicate AboveNoted(b: seq<Cell>, x: nat, dir: Dir, g: seq<nat>, t: int)
    requires |b| == CellCount && 0 <= t < CellCount
  {
    var a := AddDir(PosOf(t), Up);
    dir != Up && InBounds(a) && b[Idx(a)].Piece? && b[Idx(a)].block != x ==> b[Idx(a)].block in g
  }

  ghost predicate AdjGrav(b: seq<Cell>, blocks: seq<Block>, x: nat, dir: Dir, v0: seq<bool>, grav0: seq<nat>, s: AdjState)
    requires |b| == CellCount && |v0| == CellCount && AdjWf(s)
  {
    grav0 <= s.gravity && ValidIndices(blocks, s.gravity)
    && forall t :: 0 <= t < CellCount && s.visited[t] && !v0[t] ==> AboveNoted(b, x, dir, s.gravity, t)
  }

  ghost predicate AdjInv(b: seq<Cell>, blocks: seq<Block>, x: nat, dir: Dir, a: Pos,
                         v0: seq<bool>, need0: seq<nat>, grav0: seq<nat>, s: AdjState)
    requires |b| == CellCount && LabelsOk(b, blocks) && |v0| == CellCount && AdjWf(s)
  {
    AdjFrame(b, x, a, v0, s) && AdjClosed(b, x, v0, s) && AdjChecked(b, blocks, x, dir, v0, s)
    && AdjNeed(b, blocks, x, dir, v0, need0, s) && AdjGrav(b, blocks, x, dir, v0, grav0, s)
  }

  lemma AdjFrameStep(b: seq<Cell>, blocks: seq<Block>, x: nat, dir: Dir, a: Pos, v0: seq<bool>, s: AdjState)
    requires |b| == CellCount && LabelsOk(b, blocks) && |v0| == CellCount && AdjWf(s) && s.stack != []
    requires AdjFrame(b, x, a, v0, s)
    ensures AdjWf(AdjPop(b, blocks, x, dir, s)) && AdjFrame(b, x, a, v0, AdjPop(b, blocks, x, dir, s))
  {
    AdjPopOk(b, blocks, x, dir, s);
    AdjPopShape(b, blocks, x, dir, s);
    var p := s.stack[|s.stack| - 1];
    var v1 := s.visited[Idx(p) := true];
    SamePushesSound(b, v1, p, x, 4);
    FrameAfterPop(b, x, a, v0, s, AdjPop(b, blocks, x, dir, s), p, SamePushes(b, v1, p, x));
  }

  /** AdjFrame carried over a pop of p that pushes same-block cells. */
  lemma FrameAfterPop(b: seq<Cell>, x: nat, a: Pos, v0: seq<bool>, s: AdjState, n: AdjState, p: Pos, pushed: seq<Pos>)
    requires |b| == CellCount && |v0| == CellCount && AdjWf(s) && AdjWf(n) && s.stack != []
    requires AdjFrame(b, x, a, v0, s) && p == s.stack[|s.stack| - 1]
    requires n.visited == s.visited[Idx(p) := true] && n.stack == s.stack[..|s.stack| - 1] + pushed
    requires forall k :: 0 <= k < |pushed| ==> InBounds(pushed[k]) && CellOf(b, Idx(pushed[k]), x)
    ensures AdjFrame(b, x, a, v0, n)
  {
    var m := |s.stack| - 1;
    assert s.stack == s.stack[..m] + [p];
    forall k | 0 <= k < |n.stack|
      ensures CellOf(b, Idx(n.stack[k]), x)
    {
      if k < m {
        assert n.stack[k] == s.stack[k];
      } else {
        assert n.stack[k] == pushed[k - m];
      }
    }
    assert CellOf(b, Idx(p), x);
    if a != p && a in s.stack {
      assert a in s.stack[..m];
    }
  }

  /** A pop that reports an obstacle found one at a cell of x. */
  lemma AdjStopStep(b: seq<Cell>, blocks: seq<Block>, x: nat, dir: Dir, a: Pos, v0: seq<bool>, s: AdjState)
    requires |b| == CellCount && LabelsOk(b, blocks) && |v0| == CellCount && AdjWf(s) && s.stack != []
    requires AdjFrame(b, x, a, v0, s) && AdjPop(b, blocks, x, dir, s).stop
    ensures Blocked(b, blocks, x, dir)
  {
    var p := s.stack[|s.stack| - 1];
    PosOfIdx(p);
    assert CellOf(b, Idx(p), x);
    assert Obstacle(b, blocks, AddDir(PosOf(Idx(p)), dir));
  }

  lemma AdjClosedStep(b: seq<Cell>, blocks: seq<Block>, x: nat, dir: Dir, v0: seq<bool>, s: AdjState)
    requires |b| == CellCount && LabelsOk(b, blocks) && |v0| == CellCount && AdjWf(s) && s.stack != []
    requires AdjClosed(b, x, v0, s)
    ensures AdjWf(AdjPop(b, blocks, x, dir, s)) && AdjClosed(b, x, v0, AdjPop(b, blocks, x, dir, s))
  {
    AdjPopOk(b, blocks, x, dir, s);
    AdjPopShape(b, blocks, x, dir, s);
    var p := s.stack[|s.stack| - 1];
    var v1 := s.visited[Idx(p) := true];
    SamePushesComplete(b, v1, p, x, 4);
    ClosedAfterPop(b, x, v0, s, AdjPop(b, blocks, x, dir, s), p, SamePushes(b, v1, p, x));
  }

  /** AdjClosed carried over a pop of p that pushes every unvisited
      neighbour of p in block x. */
  lemma ClosedAfterPop(b: seq<Cell>, x: nat, v0: seq<bool>, s: AdjState, n: AdjState, p: Pos, pushed: seq<Pos>)
    requires |b| == CellCount && |v0| == CellCount && AdjWf(s) && AdjWf(n) && s.stack != []
    requires AdjClosed(b, x, v0, s) && p == s.stack[|s.stack| - 1]
    requires n.visited == s.visited[Idx(p) := true] && n.stack == s.stack[..|s.stack| - 1] + pushed
    requires forall e :: (Code(e) < 4 && InBounds(AddDir(p, e)) && CellOf(b, Idx(AddDir(p, e)), x)
                          && !n.visited[Idx(AddDir(p, e))]) ==> AddDir(p, e) in pushed
    ensures AdjClosed(b, x, v0, n)
  {
    var m := |s.stack| - 1;
    assert s.stack == s.stack[..m] + [p];
    PosOfIdx(p);
    forall t, e | 0 <= t < CellCount && n.visited[t] && !v0[t] && e != NoDir
      ensures PendingSame(b, x, n, AddDir(PosOf(t), e))
    {
      var q := AddDir(PosOf(t), e);
      if InBounds(q) && CellOf(b, Idx(q), x) && !n.visited[Idx(q)] {
        if t == Idx(p) {
          DirCodes(e);
          assert Code(e) < 4;
        } else {
          assert PendingSame(b, x, s, q);
          assert q in s.stack[..m];
        }
      }
    }
  }

  lemma AdjCheckedStep(b: seq<Cell>, blocks: seq<Block>, x: nat, dir: Dir, v0: seq<bool>, s: AdjState)
    requires |b| == CellCount && LabelsOk(b, blocks) && |v0| == CellCount && AdjWf(s) && s.stack != []
    requires AdjChecked(b, blocks, x, dir, v0, s)
    ensures AdjWf(AdjPop(b, blocks, x, dir, s))
    ensures !AdjPop(b, blocks, x, dir, s).stop ==> AdjChecked(b, blocks, x, dir, v0, AdjPop(b, blocks, x, dir, s))
  {
    AdjPopOk(b, blocks, x, dir, s);
    var n := AdjPop(b, blocks, x, dir, s);
    var p := s.stack[|s.stack| - 1];
    PosOfIdx(p);
    if !n.stop {
      assert s.needMove <= n.needMove;
      forall t | 0 <= t < CellCount && n.visited[t] && !v0[t]
        ensures NextOk(b, blocks, x, dir, n.visited, n.needMove, t)
      {
        if t != Idx(p) {
          assert NextOk(b, blocks, x, dir, s.visited, s.needMove, t);
        }
      }
    }
  }

  lemma AdjNeedStep(b: seq<Cell>, blocks: seq<Block>, x: nat, dir: Dir, a: Pos, v0: seq<bool>, need0: seq<nat>, s: AdjState)
    requires |b| == CellCount && LabelsOk(b, blocks) && |v0| == CellCount && AdjWf(s) && s.stack != []
    requires AllOrNone(b, v0) && AnchorsOk(b, blocks)
    requires AdjFrame(b, x, a, v0, s) && AdjNeed(b, blocks, x, dir, v0, need0, s)
    ensures AdjNeed(b, blocks, x, dir, v0, need0, AdjPop(b, blocks, x, dir, s))
  {
    var n := AdjPop(b, blocks, x, dir, s);
    var p := s.stack[|s.stack| - 1];
    if |n.needMove| > |s.needMove| {
      var q := AddDir(p, dir);
      var c := b[Idx(q)].block;
      assert n.needMove == s.needMove + [c];
      PosOfIdx(p);
      assert CellOf(b, Idx(p), x);
      assert PushStep(b, dir, x, c);
      assert AnchorOk(b, blocks, c);
      assert SameBlock(b, Idx(q), Idx(blocks[c].pos));
      assert Pushed(b, blocks, dir, v0, x, c);
    }
  }

  lemma AdjGravStep(b: seq<Cell>, blocks: seq<Block>, x: nat, dir: Dir, v0: seq<bool>, grav0: seq<nat>, s: AdjState)
    requires |b| == CellCount && LabelsOk(b, blocks) && |v0| == CellCount && AdjWf(s) && s.stack != []
    requires AdjGrav(b, blocks, x, dir, v0, grav0, s)
    ensures AdjWf(AdjPop(b, blocks, x, dir, s)) && AdjGrav(b, blocks, x, dir, v0, grav0, AdjPop(b, blocks, x, dir, s))
  {
    AdjPopOk(b, blocks, x, dir, s);
    var n := AdjPop(b, blocks, x, dir, s);
    var p := s.stack[|s.stack| - 1];
    PosOfIdx(p);
    assert n.gravity == s.gravity + AboveOf(b, p, x, dir);
    forall t | 0 <= t < CellCount && n.visited[t] && !v0[t]
      ensures AboveNoted(b, x, dir, n.gravity, t)
    {
      if t != Idx(p) {
        assert AboveNoted(b, x, dir, s.gravity, t);
      }
    }
  }

  /** The invariant holds until the flood stops or its stack runs empty; a
      stop is caused by an obstacle next to a cell of x. */
  lemma AdjRunInv(b: seq<Cell>, blocks: seq<Block>, x: nat, dir: Dir, a: Pos,
                  v0: seq<bool>, need0: seq<nat>, grav0: seq<nat>, s: AdjState)
    requires |b| == CellCount && LabelsOk(b, blocks) && |v0| == CellCount && AdjWf(s) && !s.stop
    requires AllOrNone(b, v0) && AnchorsOk(b, blocks)
    requires AdjInv(b, blocks, x, dir, a, v0, need0, grav0, s)
    ensures var r := AdjRun(b, blocks, x, dir, s);
            (r.stop ==> Blocked(b, blocks, x, dir))
            && (!r.stop ==> r.stack == [] && AdjInv(b, blocks, x, dir, a, v0, need0, grav0, r))
    decreases CountFalse(s.visited), VisitedEntries(s.visited, s.stack)
  {
    if s.stack != [] {
      var n := AdjPop(b, blocks, x, dir, s);
      AdjPopOk(b, blocks, x, dir, s);
      AdjFrameStep(b, blocks, x, dir, a, v0, s);
      AdjNeedStep(b, blocks, x, dir, a, v0, need0, s);
      if n.stop {
        AdjStopStep(b, blocks, x, dir, a, v0, s);
      } else {
        AdjClosedStep(b, blocks, x, dir, v0, s);
        AdjCheckedStep(b, blocks, x, dir, v0, s);
        AdjGravStep(b, blocks, x, dir, v0, grav0, s);
        AdjRunInv(b, blocks, x, dir, a, v0, need0, grav0, n);
      }
    }
  }

  /** A walk inside block x that starts at a visited cell stays visited once
      the stack is empty, when x was not visited before the call. */
  lemma {:induction false} SameWalk(b: seq<Cell>, x: nat, v0: seq<bool>, s: AdjState, path: seq<Pos>)
    requires |b| == CellCount && |v0| == CellCount && AdjWf(s) && s.stack == []
    requires AdjClosed(b, x, v0, s) && forall t :: CellOf(b, t, x) ==> !v0[t]
    requires LabelPath(b, path) && |path| > 0 && s.visited[Idx(path[0])] && CellOf(b, Idx(path[0]), x)
    ensures forall k :: 0 <= k < |path| ==> s.visited[Idx(path[k])] && CellOf(b, Idx(path[k]), x)
  {
    if |path| > 1 {
      var m := |path| - 1;
      var init := path[..m];
      assert LabelPath(b, init) by {
        forall k | 0 <= k < |init| - 1
          ensures Link(b, init[k], init[k + 1])
        {
          assert init[k] == path[k] && init[k + 1] == path[k + 1];
        }
      }
      SameWalk(b, x, v0, s, init);
      var p := path[m - 1];
      assert s.visited[Idx(p)] && CellOf(b, Idx(p), x) by { assert init[m - 1] == p; }
      assert Link(b, p, path[m]);
      var e := AdjacentDir(p, path[m]);
      PosOfIdx(p);
      assert PendingSame(b, x, s, AddDir(PosOf(Idx(p)), e));
      forall k | 0 <= k < |path|
        ensures s.visited[Idx(path[k])] && CellOf(b, Idx(path[k]), x)
      {
        if k < m {
          assert path[k] == init[k];
        }
      }
    }
  }

  /** The visited cells are the old ones plus all of x, and the invariant of
      the flood holds. */
  ghost predicate AdjOutcome(b: seq<Cell>, blocks: seq<Block>, x: nat, dir: Dir,
                             v0: seq<bool>, need0: seq<nat>, grav0: seq<nat>, r: AdjState)
    requires |b| == CellCount && LabelsOk(b, blocks) && |v0| == CellCount && AdjWf(r)
  {
    (forall t :: 0 <= t < CellCount ==> (r.visited[t] <==> v0[t] || CellOf(b, t, x)))
    && AdjChecked(b, blocks, x, dir, v0, r)
    && AdjNeed(b, blocks, x, dir, v0, need0, r)
    && AdjGrav(b, blocks, x, dir, v0, grav0, r)
  }

  /** What one call of block_add_adjacent_blocks on block x achieves, when
      every block was visited as a whole or not at all: a stop means that a
      cell of x runs into an obstacle; otherwise the visited cells are the
      old ones plus all of x, each new cell's neighbour in the move direction
      is free, part of a visited block or of a block noted as pushed, the
      pushed blocks were unvisited movable blocks that x pushes, and the
      blocks resting on x are noted for gravity. */
  lemma AdjCorrect(b: seq<Cell>, blocks: seq<Block>, x: nat, dir: Dir, v0: seq<bool>, need0: seq<nat>, grav0: seq<nat>)
    requires ValidState(b, blocks) && x < |blocks| && AnchorOk(b, blocks, x)
    requires |v0| == CellCount && AllOrNone(b, v0) && ValidIndices(blocks, grav0)
    ensures LabelsOk(b, blocks) && AnchorsOk(b, blocks)
    ensures var r := AdjRun(b, blocks, x, dir, AdjState(false, v0, [blocks[x].pos], need0, grav0));
            (r.stop ==> Blocked(b, blocks, x, dir))
            && (!r.stop ==> AdjOutcome(b, blocks, x, dir, v0, need0, grav0, r))
  {
    assert LabelsOk(b, blocks) && AnchorsOk(b, blocks);
    var a := blocks[x].pos;
    assert AnchorOk(b, blocks, x);
    var s0 := AdjState(false, v0, [a], need0, grav0);
    assert AdjInv(b, blocks, x, dir, a, v0, need0, grav0, s0);
    AdjRunInv(b, blocks, x, dir, a, v0, need0, grav0, s0);
    var r := AdjRun(b, blocks, x, dir, s0);
    if !r.stop {
      forall t | 0 <= t < CellCount && CellOf(b, t, x)
        ensures r.visited[t]
      {
        assert SameBlock(b, Idx(a), t);
        if !v0[Idx(a)] {
          assert forall u :: CellOf(b, u, x) ==> !v0[u] by {
            forall u | CellOf(b, u, x)
              ensures !v0[u]
            {
              assert SameBlock(b, Idx(a), u);
            }
          }
          assert Reaches(b, PosOf(Idx(a)), PosOf(t));
          var path :| LabelPath(b, path) && |path| > 0 && path[0] == PosOf(Idx(a)) && path[|path| - 1] == PosOf(t);
          PosOfIdx(a);
          SameWalk(b, x, v0, r, path);
          assert Idx(path[|path| - 1]) == t;
        }
      }
    }
  }

  // ---------------------------------------------------------------------
  // The loop of move_block

  lemma CascadeStart(b: seq<Cell>, dir: Dir, x: nat)
    requires |b| == CellCount
    ensures InCascade(b, dir, x, x)
  {
    assert CascadeChain(b, dir, [x]);
  }

  lemma CascadeExtend(b: seq<Cell>, dir: Dir, x: nat, c: nat, d: nat)
    requires |b| == CellCount && InCascade(b, dir, x, c) && PushStep(b, dir, c, d)
    ensures InCascade(b, dir, x, d)
  {
    var chain :| CascadeChain(b, dir, chain) && chain[0] == x && chain[|chain| - 1] == c;
    var chain2 := chain + [d];
    assert CascadeChain(b, dir, chain2) by {
      forall k | 0 <= k < |chain2| - 1
        ensures PushStep(b, dir, chain2[k], chain2[k + 1])
      {
        if k < |chain| - 1 {
          assert chain2[k] == chain[k] && chain2[k + 1] == chain[k + 1];
        }
      }
    }
    assert chain2[0] == x && chain2[|chain2| - 1] == d;
  }

  /** The anchors of the blocks on the need-move stack. */
  function Anchors(blocks: seq<Block>, need: seq<nat>): (r: seq<Pos>)
    requires ValidIndices(blocks, need)
    ensures |r| == |need| && forall k :: 0 <= k < |need| ==> r[k] == blocks[need[k]].pos
  {
    seq(|need|, k requires 0 <= k < |need| => blocks[need[k]].pos)
  }

  /** The block resting on cell t, if any, is noted for gravity. */
  ghost predicate AboveIn(b: seq<Cell>, dir: Dir, g: seq<nat>, t: int)
    requires |b| == CellCount && 0 <= t < CellCount
  {
    var a := AddDir(PosOf(t), Up);
    dir != Up && InBounds(a) && b[Idx(a)].Piece? ==> b[Idx(a)].block in g
  }

  /** A visited cell t is noted for gravity together with whatever rests on
      it. */
  ghost predicate GravityNoted(b: seq<Cell>, dir: Dir, g: seq<nat>, t: int)
    requires |b| == CellCount && 0 <= t < CellCount
  {
    b[t].Piece? && b[t].block in g && AboveIn(b, dir, g, t)
  }

  /** A visited cell of the cascade: its neighbour in the move direction is
      on the board, is no stop cell, and is empty, visited or part of a block
      still to be explored. */
  ghost predicate Moving(b: seq<Cell>, blocks: seq<Block>, x: nat, dir: Dir, v: seq<bool>, need: seq<nat>, g: seq<nat>, t: int)
    requires |b| == CellCount && LabelsOk(b, blocks) && |v| == CellCount && 0 <= t < CellCount
  {
    var n := AddDir(PosOf(t), dir);
    GravityNoted(b, dir, g, t) && InCascade(b, dir, x, b[t].block)
    && InBounds(n) && !IsStopCell(blocks, b[Idx(n)])
    && (b[Idx(n)].Piece? ==> v[Idx(n)] || b[Idx(n)].block in need)
  }

  /** The invariant of the loop of move_block, started with gravity stack
      grav. */
  ghost predicate ExploreInv(b: seq<Cell>, blocks: seq<Block>, x: nat, dir: Dir, grav: seq<nat>,
                             v: seq<bool>, need: seq<nat>, g: seq<nat>)
    requires |b| == CellCount && LabelsOk(b, blocks) && x < |blocks|
  {
    |v| == CellCount && AllOrNone(b, v)
    && ValidIndices(blocks, need) && (forall k :: 0 <= k < |need| ==> InCascade(b, dir, x, need[k]))
    && InBounds(blocks[x].pos) && (v[Idx(blocks[x].pos)] || x in need)
    && grav <= g && ValidIndices(blocks, g)
    && forall t :: 0 <= t < CellCount && v[t] ==> Moving(b, blocks, x, dir, v, need, g, t)
  }

  /** A stopped call of block_add_adjacent_blocks refutes the move. */
  lemma ExploreStopped(b: seq<Cell>, blocks: seq<Block>, x: nat, dir: Dir, grav: seq<nat>,
                       v: seq<bool>, need: seq<nat>, g: seq<nat>)
    requires ValidState(b, blocks) && x < |blocks| && LabelsOk(b, blocks)
    requires ExploreInv(b, blocks, x, dir, grav, v, need, g) && need != []
    requires Blocked(b, blocks, need[|need| - 1], dir)
    ensures !MoveOk(b, blocks, x, dir)
  {
    var c := need[|need| - 1];
    var t :| CellOf(b, t, c) && Obstacle(b, blocks, AddDir(PosOf(t), dir));
    assert InCascade(b, dir, x, b[t].block);
  }

  /** The state after processing the last block c of the need-move stack,
      as AdjCorrect describes it. */
  ghost predicate StepFrom(b: seq<Cell>, blocks: seq<Block>, x: nat, dir: Dir, grav: seq<nat>,
                           v: seq<bool>, need: seq<nat>, g: seq<nat>, r: AdjState)
    requires |b| == CellCount && LabelsOk(b, blocks) && x < |blocks|
  {
    ExploreInv(b, blocks, x, dir, grav, v, need, g) && need != [] && AdjWf(r)
    && AdjOutcome(b, blocks, need[|need| - 1], dir, v, need[..|need| - 1], g + [need[|need| - 1]], r)
  }

  lemma KeepShape(b: seq<Cell>, blocks: seq<Block>, x: nat, dir: Dir, grav: seq<nat>,
                  v: seq<bool>, need: seq<nat>, g: seq<nat>, r: AdjState)
    requires |b| == CellCount && LabelsOk(b, blocks) && AnchorsOk(b, blocks) && x < |blocks|
    requires StepFrom(b, blocks, x, dir, grav, v, need, g, r)
    ensures AllOrNone(b, r.visited) && ValidIndices(blocks, r.needMove)
    ensures forall k :: 0 <= k < |r.needMove| ==> InCascade(b, dir, x, r.needMove[k])
    ensures r.visited[Idx(blocks[x].pos)] || x in r.needMove
    ensures grav <= r.gravity && ValidIndices(blocks, r.gravity)
    ensures need[..|need| - 1] <= r.needMove
    ensures forall k :: |need| - 1 <= k < |r.needMove| ==>
              InBounds(blocks[r.needMove[k]].pos) && !v[Idx(blocks[r.needMove[k]].pos)]
  {
    var m := |need| - 1;
    var c := need[m];
    var rest := need[..m];
    assert need == rest + [c];
    var v1, need1, g1 := r.visited, r.needMove, r.gravity;
    forall s, t | SameBlock(b, s, t)
      ensures v1[s] == v1[t]
    {
    }
    assert need1 == rest + need1[m..];
    forall k | 0 <= k < |need1|
      ensures need1[k] < |blocks| && InCascade(b, dir, x, need1[k])
    {
      if k < m {
        assert need1[k] == need[k];
      } else {
        assert Pushed(b, blocks, dir, v, c, need1[k]);
        CascadeExtend(b, dir, x, c, need1[k]);
      }
    }
    if !v[Idx(blocks[x].pos)] {
      if x == c {
        assert AnchorOk(b, blocks, x);
        assert CellOf(b, Idx(blocks[x].pos), c);
      } else {
        assert x in rest;
      }
    }
    assert g1[..|g|] == g;
  }

  lemma KeepMovingAt(b: seq<Cell>, blocks: seq<Block>, x: nat, dir: Dir, grav: seq<nat>,
                     v: seq<bool>, need: seq<nat>, g: seq<nat>, r: AdjState, t: int)
    requires |b| == CellCount && LabelsOk(b, blocks) && AnchorsOk(b, blocks) && x < |blocks|
    requires StepFrom(b, blocks, x, dir, grav, v, need, g, r)
    requires 0 <= t < CellCount && r.visited[t]
    ensures Moving(b, blocks, x, dir, r.visited, r.needMove, r.gravity, t)
  {
    var m := |need| - 1;
    var c := need[m];
    var rest := need[..m];
    assert need == rest + [c];
    var v1, need1, g1 := r.visited, r.needMove, r.gravity;
    assert g1[..|g|] == g && g1[|g|] == c;
    assert c in g1;
    var n := AddDir(PosOf(t), dir);
    if v[t] {
      assert Moving(b, blocks, x, dir, v, need, g, t);
      assert forall y :: y in g ==> y in g1;
      assert rest <= need1;
      if InBounds(n) && b[Idx(n)].Piece? && !v[Idx(n)] && b[Idx(n)].block != c {
        assert b[Idx(n)].block in rest;
      }
    } else {
      assert CellOf(b, t, c);
      assert NextOk(b, blocks, c, dir, v1, need1, t);
      assert AboveNoted(b, c, dir, g1, t);
    }
  }

  /** A call of block_add_adjacent_blocks that does not stop keeps the
      invariant. */
  lemma ExploreKeeps(b: seq<Cell>, blocks: seq<Block>, x: nat, dir: Dir, grav: seq<nat>,
                     v: seq<bool>, need: seq<nat>, g: seq<nat>)
    requires ValidState(b, blocks) && x < |blocks| && LabelsOk(b, blocks) && AnchorsOk(b, blocks)
    requires ExploreInv(b, blocks, x, dir, grav, v, need, g) && need != []
    ensures AnchorOk(b, blocks, need[|need| - 1])
    ensures var c := need[|need| - 1];
            var r := AdjRun(b, blocks, c, dir, AdjState(false, v, [blocks[c].pos], need[..|need| - 1], g + [c]));
            !r.stop ==> ExploreInv(b, blocks, x, dir, grav, r.visited, r.needMove, r.gravity)
  {
    var c := need[|need| - 1];
    assert AnchorOk(b, blocks, c);
    AdjCorrect(b, blocks, c, dir, v, need[..|need| - 1], g + [c]);
    var r := AdjRun(b, blocks, c, dir, AdjState(false, v, [blocks[c].pos], need[..|need| - 1], g + [c]));
    if !r.stop {
      KeepShape(b, blocks, x, dir, grav, v, need, g, r);
      forall t | 0 <= t < CellCount && r.visited[t]
        ensures Moving(b, blocks, x, dir, r.visited, r.needMove, r.gravity, t)
      {
        KeepMovingAt(b, blocks, x, dir, grav, v, need, g, r, t);
      }
    }
  }

  /** Processing a block that was already visited changes no cell. */
  lemma RevisitSame(b: seq<Cell>, blocks: seq<Block>, x: nat, dir: Dir, grav: seq<nat>,
                    v: seq<bool>, need: seq<nat>, g: seq<nat>, r: AdjState)
    requires |b| == CellCount && LabelsOk(b, blocks) && AnchorsOk(b, blocks) && x < |blocks|
    requires StepFrom(b, blocks, x, dir, grav, v, need, g, r)
    requires InBounds(blocks[need[|need| - 1]].pos) && v[Idx(blocks[need[|need| - 1]].pos)]
    ensures r.visited == v
  {
    var c := need[|need| - 1];
    var a := blocks[c].pos;
    assert AnchorOk(b, blocks, c);
    forall t | 0 <= t < CellCount
      ensures r.visited[t] == v[t]
    {
      if CellOf(b, t, c) {
        assert SameBlock(b, t, Idx(a));
      }
    }
  }

  /** Popping an entry whose anchor is visited and pushing only entries whose
      anchors are not lowers the number of visited anchors on the stack. */
  lemma MeasureRevisit(blocks: seq<Block>, v: seq<bool>, need: seq<nat>, need1: seq<nat>)
    requires |v| == CellCount && need != [] && ValidIndices(blocks, need) && ValidIndices(blocks, need1)
    requires InBounds(blocks[need[|need| - 1]].pos) && v[Idx(blocks[need[|need| - 1]].pos)]
    requires need[..|need| - 1] <= need1
    requires forall k :: |need| - 1 <= k < |need1| ==>
               InBounds(blocks[need1[k]].pos) && !v[Idx(blocks[need1[k]].pos)]
    ensures VisitedEntries(v, Anchors(blocks, need1)) < VisitedEntries(v, Anchors(blocks, need))
  {
    var stack, stack1 := Anchors(blocks, need), Anchors(blocks, need1);
    var m := |stack| - 1;
    var pushed := stack1[m..];
    var a := stack[m];
    AnchorsPrefix(blocks, need, need1, m);
    forall k | 0 <= k < |pushed|
      ensures InBounds(pushed[k]) && !v[Idx(a) := true][Idx(pushed[k])]
    {
      assert pushed[k] == stack1[m + k];
    }
    assert v[Idx(a) := true] == v;
    PopMeasure(v, stack, pushed);
  }

  /** Replacing the top of the need stack by the entries pushed after it. */
  lemma AnchorsPrefix(blocks: seq<Block>, need: seq<nat>, need1: seq<nat>, m: nat)
    requires ValidIndices(blocks, need) && ValidIndices(blocks, need1)
    requires m == |need| - 1 && need[..m] <= need1
    ensures Anchors(blocks, need)[..m] + Anchors(blocks, need1)[m..] == Anchors(blocks, need1)
  {
    var s, s1 := Anchors(blocks, need), Anchors(blocks, need1);
    assert s[..m] == s1[..m];
    assert s1[..m] + s1[m..] == s1;
  }

  /** A call of block_add_adjacent_blocks that does not stop lowers the
      measure of the loop of move_block. */
  lemma ExploreMeasure(b: seq<Cell>, blocks: seq<Block>, x: nat, dir: Dir, grav: seq<nat>,
                       v: seq<bool>, need: seq<nat>, g: seq<nat>)
    requires ValidState(b, blocks) && x < |blocks| && LabelsOk(b, blocks) && AnchorsOk(b, blocks)
    requires ExploreInv(b, blocks, x, dir, grav, v, need, g) && need != []
    ensures AnchorOk(b, blocks, need[|need| - 1])
    ensures var c := need[|need| - 1];
            var r := AdjRun(b, blocks, c, dir, AdjState(false, v, [blocks[c].pos], need[..|need| - 1], g + [c]));
            !r.stop ==> (ValidIndices(blocks, r.needMove)
              && (CountFalse(r.visited) < CountFalse(v)
                  || (CountFalse(r.visited) == CountFalse(v)
                      && VisitedEntries(r.visited, Anchors(blocks, r.needMove)) < VisitedEntries(v, Anchors(blocks, need)))))
  {
    var c := need[|need| - 1];
    assert AnchorOk(b, blocks, c);
    var a := blocks[c].pos;
    AdjCorrect(b, blocks, c, dir, v, need[..|need| - 1], g + [c]);
    var r := AdjRun(b, blocks, c, dir, AdjState(false, v, [a], need[..|need| - 1], g + [c]));
    if !r.stop {
      KeepShape(b, blocks, x, dir, grav, v, need, g, r);
      if v[Idx(a)] {
        RevisitSame(b, blocks, x, dir, grav, v, need, g, r);
        MeasureRevisit(blocks, v, need, r.needMove);
      } else {
        assert CellOf(b, Idx(a), c);
        CountFalseGrow(v, r.visited, Idx(a));
      }
    }
  }
  /** Every block of a chain that starts at x is visited once the loop is
      done. */
  lemma {:induction false} ChainVisited(b: seq<Cell>, blocks: seq<Block>, x: nat, dir: Dir, grav: seq<nat>,
                                        v: seq<bool>, g: seq<nat>, chain: seq<nat>)
    requires ValidState(b, blocks) && x < |blocks| && LabelsOk(b, blocks) && AnchorsOk(b, blocks)
    requires ExploreInv(b, blocks, x, dir, grav, v, [], g)
    requires CascadeChain(b, dir, chain) && chain[0] == x
    ensures chain[|chain| - 1] < |blocks| && InBounds(blocks[chain[|chain| - 1]].pos)
            && v[Idx(blocks[chain[|chain| - 1]].pos)]
  {
    if |chain| > 1 {
      var init := chain[..|chain| - 1];
      assert CascadeChain(b, dir, init) by {
        forall k | 0 <= k < |init| - 1
          ensures PushStep(b, dir, init[k], init[k + 1])
        {
          assert init[k] == chain[k] && init[k + 1] == chain[k + 1];
        }
      }
      ChainVisited(b, blocks, x, dir, grav, v, g, init);
      var c := init[|init| - 1];
      var d := chain[|chain| - 1];
      assert PushStep(b, dir, c, d);
      var t :| 0 <= t < CellCount && CellOf(b, t, c) && InBounds(AddDir(PosOf(t), dir))
               && CellOf(b, Idx(AddDir(PosOf(t), dir)), d);
      var n := Idx(AddDir(PosOf(t), dir));
      assert AnchorOk(b, blocks, c);
      assert SameBlock(b, t, Idx(blocks[c].pos));
      assert Moving(b, blocks, x, dir, v, [], g, t);
      assert AnchorOk(b, blocks, d);
      assert SameBlock(b, n, Idx(blocks[d].pos));
    }
  }

  /** Once the need-move stack is empty, the move can be made and the
      visited cells are exactly the cells of the cascade. */
  lemma ExploreDone(b: seq<Cell>, blocks: seq<Block>, x: nat, dir: Dir, grav: seq<nat>, v: seq<bool>, g: seq<nat>)
    requires ValidState(b, blocks) && x < |blocks| && LabelsOk(b, blocks) && AnchorsOk(b, blocks)
    requires ExploreInv(b, blocks, x, dir, grav, v, [], g) && !blocks[x].fixed
    ensures MoveOk(b, blocks, x, dir)
    ensures forall t :: 0 <= t < CellCount ==> (v[t] <==> b[t].Piece? && InCascade(b, dir, x, b[t].block))
  {
    forall t | 0 <= t < CellCount && b[t].Piece? && InCascade(b, dir, x, b[t].block)
      ensures v[t]
    {
      var chain :| CascadeChain(b, dir, chain) && chain[0] == x && chain[|chain| - 1] == b[t].block;
      ChainVisited(b, blocks, x, dir, grav, v, g, chain);
      assert AnchorOk(b, blocks, b[t].block);
      assert SameBlock(b, t, Idx(blocks[b[t].block].pos));
    }
    forall t | 0 <= t < CellCount && b[t].Piece? && InCascade(b, dir, x, b[t].block)
      ensures !Obstacle(b, blocks, AddDir(PosOf(t), dir))
    {
      assert Moving(b, blocks, x, dir, v, [], g, t);
    }
  }

  /** The loop of move_block: explores the cascade of block x and reports
      whether it can move; on success the visited cells are exactly those of
      the cascade, and every moved block and every block resting on a moved
      cell is noted for gravity; on failure the gravity stack is restored. */
  method MoveExplore(board: array<Cell>, blocks: seq<Block>, x: nat, dir: Dir, visited: array<bool>, grav: seq<nat>)
    returns (ok: bool, grav1: seq<nat>)
    requires board.Length == CellCount && visited.Length == CellCount
    requires ValidState(board[..], blocks) && x < |blocks| && ValidIndices(blocks, grav)
    modifies visited
    ensures LabelsOk(board[..], blocks)
    ensures ok <==> MoveOk(board[..], blocks, x, dir)
    ensures !ok ==> grav1 == grav
    ensures ok ==> forall t :: 0 <= t < CellCount ==>
                     (visited[t] <==> board[t].Piece? && InCascade(board[..], dir, x, board[t].block))
    ensures ok ==> grav <= grav1 && ValidIndices(blocks, grav1)
                   && forall t :: 0 <= t < CellCount && visited[t] ==> GravityNoted(board[..], dir, grav1, t)
  {
    ghost var b := board[..];
    assert LabelsOk(b, blocks) && AnchorsOk(b, blocks);
    if blocks[x].fixed {
      return false, grav;
    }
    for i := 0 to CellCount
      invariant forall k :: 0 <= k < i ==> !visited[k]
    {
      visited[i] := false;
    }
    var need := [x];
    grav1 := grav;
    assert AnchorOk(b, blocks, x);
    CascadeStart(b, dir, x);
    while |need| > 0
      invariant ExploreInv(b, blocks, x, dir, grav, visited[..], need, grav1)
      decreases CountFalse(visited[..]), VisitedEntries(visited[..], Anchors(blocks, need))
    {
      ghost var v, need0, g0 := visited[..], need, grav1;
      ExploreKeeps(b, blocks, x, dir, grav, v, need0, g0);
      ExploreMeasure(b, blocks, x, dir, grav, v, need0, g0);
      AdjCorrect(b, blocks, need0[|need0| - 1], dir, v, need0[..|need0| - 1], g0 + [need0[|need0| - 1]]);
      var c := need[|need| - 1];
      need := need[..|need| - 1];
      grav1 := grav1 + [c];
      var stop;
      stop, need, grav1 := BlockAddAdjacentBlocks(board, blocks, c, dir, visited, need, grav1);
      if stop {
        ExploreStopped(b, blocks, x, dir, grav, v, need0, g0);
        return false, grav;
      }
    }
    ExploreDone(b, blocks, x, dir, grav, visited[..], grav1);
    ok := true;
  }
}
