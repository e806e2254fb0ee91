/**
 * game_do_move: a sideways move of one block, followed by gravity on every
 * block the move noted, and the reconciliation of the block table.
 */
module Engine {
  import opened Board
  import opened Explorer
  import opened Translator
  import opened Gravity
  import opened Reconciler
  import opened Finder

  /** A DOWN move that can be made lowers the potential: the block's own
      anchor cell moves. */
  lemma DownLowers(b: seq<Cell>, blocks: seq<Block>, x: nat)
    requires ValidState(b, blocks) && x < |blocks| && MoveOk(b, blocks, x, Down)
    ensures Potential(Shifted(b, CascadeMask(b, Down, x), Down)) < Potential(b)
  {
    var v := CascadeMask(b, Down, x);
    CascadeIsMask(b, blocks, x, Down);
    DownPotential(b, v);
    assert AnchorOk(b, blocks, x);
    CascadeStart(b, Down, x);
    CountTrueAt(v, Idx(blocks[x].pos));
  }

  /** A sideways move that can be made keeps the potential. */
  lemma SideKeeps(b: seq<Cell>, blocks: seq<Block>, x: nat, dir: Dir)
    requires ValidState(b, blocks) && x < |blocks| && IsHorizontal(dir) && MoveOk(b, blocks, x, dir)
    ensures Potential(Shifted(b, CascadeMask(b, dir, x), dir)) == Potential(b)
  {
    CascadeIsMask(b, blocks, x, dir);
    SidePotential(b, CascadeMask(b, dir, x), dir);
  }

  /** The reconciliation keeps the potential: it only relabels pieces. */
  lemma ReconciledKeeps(b0: seq<Cell>, blocks0: seq<Block>, b1: seq<Cell>, blocks1: seq<Block>,
                        S: seq<nat>, labels: seq<nat>)
    requires Reconciled(b0, blocks0, b1, blocks1, S, labels)
    ensures Potential(b1) == Potential(b0)
  {
    assert RecCells(b0, b1, labels);
    SamePiecesPotential(b0, b1);
  }

  /** A snapshot of a game state: its board and its block table. */
  datatype Snap = Snap(board: seq<Cell>, blocks: seq<Block>)

  /** t is what move_block writes when block blk of the valid state s can
      move one cell towards dir: the board with the cascade shifted, and a
      table of the same size whose anchors follow the cells they sat on. */
  ghost predicate Moved(s: Snap, blk: nat, dir: Dir, t: Snap)
  {
    ValidState(s.board, s.blocks) && blk < |s.blocks| && MoveOk(s.board, s.blocks, blk, dir)
    && t.board == Shifted(s.board, CascadeMask(s.board, dir, blk), dir)
    && |t.blocks| == |s.blocks|
    && forall k :: 0 <= k < |s.blocks| ==>
         AnchorAt(s.board, CascadeMask(s.board, dir, blk), dir, CellCount, k, s.blocks[k], t.blocks[k])
  }

  // ---------------------------------------------------------------------
  // A block that cannot fall stays put while other blocks fall

  /** Every link of a chain is in the cascade started by its first block. */
  lemma {:induction false} ChainPrefix(b: seq<Cell>, dir: Dir, chain: seq<nat>, i: nat)
    requires |b| == CellCount && CascadeChain(b, dir, chain) && i < |chain|
    ensures InCascade(b, dir, chain[0], chain[i])
  {
    if i == 0 {
      CascadeStart(b, dir, chain[0]);
    } else {
      ChainPrefix(b, dir, chain, i - 1);
      CascadeExtend(b, dir, chain[0], chain[i - 1], chain[i]);
    }
  }

  /** A cascade that reaches one link of a chain reaches its last block. */
  lemma {:induction false} ChainSuffix(b: seq<Cell>, dir: Dir, x: nat, chain: seq<nat>, i: nat)
    requires |b| == CellCount && CascadeChain(b, dir, chain) && i < |chain|
    requires InCascade(b, dir, x, chain[i])
    ensures InCascade(b, dir, x, chain[|chain| - 1])
    decreases |chain| - i
  {
    if i < |chain| - 1 {
      CascadeExtend(b, dir, x, chain[i], chain[i + 1]);
      ChainSuffix(b, dir, x, chain, i + 1);
    }
  }

  /** A move that can be made pushes no fixed block: the block pushing it
      would run into it. */
  lemma CascadeNotFixed(b: seq<Cell>, blocks: seq<Block>, x: nat, dir: Dir, f: nat)
    requires |b| == CellCount && LabelsOk(b, blocks) && x < |blocks| && MoveOk(b, blocks, x, dir)
    requires f < |blocks|
    ensures InCascade(b, dir, x, f) ==> !blocks[f].fixed
  {
    if f != x && InCascade(b, dir, x, f) {
      var chain :| CascadeChain(b, dir, chain) && chain[0] == x && chain[|chain| - 1] == f;
      var n := |chain|;
      ChainPrefix(b, dir, chain, n - 2);
      assert PushStep(b, dir, chain[n - 2], f);
      var t :| 0 <= t < CellCount && CellOf(b, t, chain[n - 2]) && InBounds(AddDir(PosOf(t), dir))
               && CellOf(b, Idx(AddDir(PosOf(t), dir)), f);
      assert !Obstacle(b, blocks, AddDir(PosOf(t), dir));
    }
  }

  /** A cell that a DOWN move leaves alone, neither moving nor empty, keeps
      its content: nothing moves onto it. */
  lemma MovedKeeps(s: Snap, blk: nat, t: Snap, q: nat)
    requires Moved(s, blk, Down, t) && q < CellCount
    requires !CascadeMask(s.board, Down, blk)[q] && !s.board[q].Empty?
    ensures t.board[q] == s.board[q]
  {
    CascadeIsMask(s.board, s.blocks, blk, Down);
    ShiftedKeeps(s.board, CascadeMask(s.board, Down, blk), Down, q);
  }

  /** A push between two blocks outside the cascade of a move survives it. */
  lemma PushKept(s: Snap, blk: nat, t: Snap, x: nat, y: nat)
    requires Moved(s, blk, Down, t) && PushStep(s.board, Down, x, y)
    requires !InCascade(s.board, Down, blk, x) && !InCascade(s.board, Down, blk, y)
    ensures PushStep(t.board, Down, x, y)
  {
    var w :| 0 <= w < CellCount && CellOf(s.board, w, x) && InBounds(AddDir(PosOf(w), Down))
             && CellOf(s.board, Idx(AddDir(PosOf(w), Down)), y);
    var n := Idx(AddDir(PosOf(w), Down));
    MovedKeeps(s, blk, t, w);
    MovedKeeps(s, blk, t, n);
    assert CellOf(t.board, w, x) && CellOf(t.board, n, y);
  }

  /** The chain from a block to one stopped by an obstacle lies outside the
      cascade of any move that can be made. */
  lemma ChainOutside(s: Snap, blk: nat, chain: seq<nat>, p: nat)
    requires ValidState(s.board, s.blocks) && blk < |s.blocks| && MoveOk(s.board, s.blocks, blk, Down)
    requires CascadeChain(s.board, Down, chain) && p < CellCount
    requires CellOf(s.board, p, chain[|chain| - 1]) && Obstacle(s.board, s.blocks, AddDir(PosOf(p), Down))
    ensures forall i :: 0 <= i < |chain| ==> !InCascade(s.board, Down, blk, chain[i])
  {
    forall i | 0 <= i < |chain|
      ensures !InCascade(s.board, Down, blk, chain[i])
    {
      if InCascade(s.board, Down, blk, chain[i]) {
        ChainSuffix(s.board, Down, blk, chain, i);
      }
    }
  }

  /** A chain outside the cascade of a move is a chain after it. */
  lemma ChainKept(s: Snap, blk: nat, t: Snap, chain: seq<nat>)
    requires Moved(s, blk, Down, t) && CascadeChain(s.board, Down, chain)
    requires forall i :: 0 <= i < |chain| ==> !InCascade(s.board, Down, blk, chain[i])
    ensures CascadeChain(t.board, Down, chain)
  {
    forall k | 0 <= k < |chain| - 1
      ensures PushStep(t.board, Down, chain[k], chain[k + 1])
    {
      PushKept(s, blk, t, chain[k], chain[k + 1]);
    }
  }

  /** An obstacle below a cell outside the cascade of a move is still there
      after it. */
  lemma ObstacleKept(s: Snap, blk: nat, t: Snap, n: Pos)
    requires Moved(s, blk, Down, t) && ValidState(t.board, t.blocks)
    requires InBounds(n) ==> !CascadeMask(s.board, Down, blk)[Idx(n)] || !s.board[Idx(n)].Piece?
    requires Obstacle(s.board, s.blocks, n)
    ensures Obstacle(t.board, t.blocks, n)
  {
    if InBounds(n) {
      var v := CascadeMask(s.board, Down, blk);
      var cn := s.board[Idx(n)];
      MovedKeeps(s, blk, t, Idx(n));
      if cn.Piece? {
        assert AnchorAt(s.board, v, Down, CellCount, cn.block, s.blocks[cn.block], t.blocks[cn.block]);
      }
    }
  }

  /** A block that cannot move down still cannot once some block has moved
      down: the chain of blocks below it that ends at an obstacle lies
      outside the moving cascade, which would otherwise run into the same
      obstacle, so the chain and the obstacle stay where they were. */
  lemma StuckStays(s: Snap, a: nat, blk: nat, t: Snap)
    requires Moved(s, blk, Down, t) && ValidState(t.board, t.blocks) && a < |s.blocks|
    requires !MoveOk(s.board, s.blocks, a, Down)
    ensures !MoveOk(t.board, t.blocks, a, Down)
  {
    var v := CascadeMask(s.board, Down, blk);
    assert AnchorAt(s.board, v, Down, CellCount, a, s.blocks[a], t.blocks[a]);
    if !s.blocks[a].fixed {
      var p :| 0 <= p < CellCount && s.board[p].Piece? && InCascade(s.board, Down, a, s.board[p].block)
               && Obstacle(s.board, s.blocks, AddDir(PosOf(p), Down));
      var chain :| CascadeChain(s.board, Down, chain) && chain[0] == a && chain[|chain| - 1] == s.board[p].block;
      ChainOutside(s, blk, chain, p);
      ChainKept(s, blk, t, chain);
      MovedKeeps(s, blk, t, p);
      var n := AddDir(PosOf(p), Down);
      if InBounds(n) && s.board[Idx(n)].Piece? {
        CascadeNotFixed(s.board, s.blocks, blk, Down, s.board[Idx(n)].block);
      }
      ObstacleKept(s, blk, t, n);
      assert InCascade(t.board, Down, a, t.board[p].block);
    }
  }

  /** A run of DOWN moves: every snapshot of trace is a valid state, and
      trace[k + 1] is trace[k] with block blks[k] moved one cell down. */
  ghost predicate Drops(trace: seq<Snap>, blks: seq<nat>)
  {
    |trace| == |blks| + 1
    && (forall k :: 0 <= k < |trace| ==> ValidState(trace[k].board, trace[k].blocks))
    && forall k :: 0 <= k < |blks| ==> Moved(trace[k], blks[k], Down, trace[k + 1])
  }

  /** Every cell of the cascade of block blk in board b, and whatever rests on
      such a cell, belongs to a block named on g: what move_block notes for
      gravity. */
  ghost predicate NotedAll(b: seq<Cell>, dir: Dir, blk: nat, g: seq<nat>)
    requires |b| == CellCount
  {
    forall t :: 0 <= t < CellCount && CascadeMask(b, dir, blk)[t] ==> GravityNoted(b, dir, g, t)
  }

  /** Every move of the run noted its blocks on g. */
  ghost predicate DropsNoted(trace: seq<Snap>, blks: seq<nat>, g: seq<nat>)
    requires Drops(trace, blks)
  {
    forall k :: 0 <= k < |blks| ==> NotedAll(trace[k].board, Down, blks[k], g)
  }

  /** Every element of g is an element of h. */
  ghost predicate Within(g: seq<nat>, h: seq<nat>)
  {
    forall e :: e in g ==> e in h
  }

  lemma NotedWider(b: seq<Cell>, dir: Dir, blk: nat, g: seq<nat>, h: seq<nat>)
    requires |b| == CellCount && NotedAll(b, dir, blk, g) && Within(g, h)
    ensures NotedAll(b, dir, blk, h)
  {
  }

  /** A block stuck in s, which is valid: it cannot move down. */
  ghost predicate Stuck(s: Snap, e: nat)
    requires ValidState(s.board, s.blocks)
  {
    e < |s.blocks| && !MoveOk(s.board, s.blocks, e, Down)
  }

  /** A block that cannot move down at some point of a run still cannot at
      its end. */
  lemma {:induction false} StuckAfter(trace: seq<Snap>, blks: seq<nat>, i: nat, a: nat)
    requires Drops(trace, blks) && i < |trace| && Stuck(trace[i], a)
    ensures Stuck(trace[|trace| - 1], a)
    decreases |trace| - i
  {
    if i < |trace| - 1 {
      StuckStays(trace[i], a, blks[i], trace[i + 1]);
      StuckAfter(trace, blks, i + 1, a);
    }
  }

  /** The gravity loop part way through: it went along trace, every block it
      dropped was one it had popped, the j-th popped block tried[j] could not
      move down in snapshot at[j] (where its fall ended), every block first
      on the stack grav0 was either popped or is still on it, and so was
      every block a move of the run noted (the moved blocks and the blocks
      resting on their cells). */
  ghost predicate Settling(grav0: seq<nat>, grav: seq<nat>, trace: seq<Snap>, blks: seq<nat>,
                           tried: seq<nat>, at: seq<nat>)
  {
    Drops(trace, blks) && |tried| == |at|
    && (forall j :: 0 <= j < |at| ==>
          at[j] < |trace| && tried[j] < |trace[at[j]].blocks|
          && !MoveOk(trace[at[j]].board, trace[at[j]].blocks, tried[j], Down))
    && (forall k :: 0 <= k < |blks| ==> blks[k] in tried)
    && (forall j :: 0 <= j < |grav0| ==> grav0[j] in tried || grav0[j] in grav)
    && DropsNoted(trace, blks, tried + grav)
  }

  /** The gravity loop once the stack is empty: every block noted on grav0
      or by a move of the run has been popped, and no popped block can move
      down in the final snapshot. */
  ghost predicate Settles(grav0: seq<nat>, trace: seq<Snap>, blks: seq<nat>, tried: seq<nat>, at: seq<nat>)
  {
    Settling(grav0, [], trace, blks, tried, at)
    && forall j :: 0 <= j < |tried| ==> Stuck(trace[|trace| - 1], tried[j])
  }

  /** Once the stack is empty the run has settled: each popped block was
      stuck where its fall ended and stays stuck through the later moves. */
  lemma SettledStable(grav0: seq<nat>, trace: seq<Snap>, blks: seq<nat>, tried: seq<nat>, at: seq<nat>)
    requires Settling(grav0, [], trace, blks, tried, at)
    ensures Settles(grav0, trace, blks, tried, at)
  {
    forall j | 0 <= j < |tried|
      ensures Stuck(trace[|trace| - 1], tried[j])
    {
      StuckAfter(trace, blks, at[j], tried[j]);
    }
  }

  /** A run extends by one move. */
  lemma DropsExtend(trace: seq<Snap>, blks: seq<nat>, blk: nat, t: Snap)
    requires Drops(trace, blks) && Moved(trace[|trace| - 1], blk, Down, t)
    requires ValidState(t.board, t.blocks)
    ensures Drops(trace + [t], blks + [blk])
  {
    var tr, bs := trace + [t], blks + [blk];
    forall k | 0 <= k < |bs|
      ensures Moved(tr[k], bs[k], Down, tr[k + 1])
    {
      if k < |blks| {
        assert tr[k] == trace[k] && tr[k + 1] == trace[k + 1] && bs[k] == blks[k];
      }
    }
  }

  /** Two runs, the second starting where the first ends, join into one. */
  lemma DropsJoin(t1: seq<Snap>, b1: seq<nat>, t2: seq<Snap>, b2: seq<nat>)
    requires Drops(t1, b1) && Drops(t2, b2) && t2[0] == t1[|t1| - 1]
    ensures Drops(t1 + t2[1..], b1 + b2)
    ensures forall k :: 0 <= k < |t1| ==> (t1 + t2[1..])[k] == t1[k]
    ensures (t1 + t2[1..])[|b1| + |b2|] == t2[|t2| - 1]
  {
    var tr, bs := t1 + t2[1..], b1 + b2;
    forall k | 0 <= k < |tr|
      ensures ValidState(tr[k].board, tr[k].blocks)
    {
      if k >= |t1| {
        assert tr[k] == t2[k - |t1| + 1];
      }
    }
    forall k | 0 <= k < |bs|
      ensures Moved(tr[k], bs[k], Down, tr[k + 1])
    {
      if k < |b1| {
        assert tr[k] == t1[k] && tr[k + 1] == t1[k + 1] && bs[k] == b1[k];
      } else {
        var i := k - |b1|;
        assert tr[k] == t2[i] && tr[k + 1] == t2[i + 1] && bs[k] == b2[i];
      }
    }
  }

  /** Every element of a prefix is an element of the longer sequence. */
  lemma PrefixIn(g: seq<nat>, h: seq<nat>, e: nat)
    requires g <= h && e in g
    ensures e in h
  {
    var i :| 0 <= i < |g| && g[i] == e;
    assert h[i] == e;
  }

  /** The notes of two joined runs, on stacks g and g2 that both lie within h. */
  lemma NotedJoin(trace: seq<Snap>, blks: seq<nat>, g: seq<nat>, ftrace: seq<Snap>, fblks: seq<nat>,
                  g2: seq<nat>, h: seq<nat>)
    requires Drops(trace, blks) && DropsNoted(trace, blks, g)
    requires Drops(ftrace, fblks) && DropsNoted(ftrace, fblks, g2) && ftrace[0] == trace[|trace| - 1]
    requires Within(g, h) && Within(g2, h)
    ensures Drops(trace + ftrace[1..], blks + fblks) && DropsNoted(trace + ftrace[1..], blks + fblks, h)
  {
    DropsJoin(trace, blks, ftrace, fblks);
    var tr, bs := trace + ftrace[1..], blks + fblks;
    forall k | 0 <= k < |bs|
      ensures NotedAll(tr[k].board, Down, bs[k], h)
    {
      if k < |blks| {
        assert tr[k] == trace[k] && bs[k] == blks[k];
        NotedWider(trace[k].board, Down, blks[k], g, h);
      } else {
        var i := k - |blks|;
        assert tr[k] == ftrace[i] && bs[k] == fblks[i];
        NotedWider(ftrace[i].board, Down, fblks[i], g2, h);
      }
    }
  }

  /** What is on the stack before a pop lies within the popped blocks and
      the stack after the fall, when what was left lies within the latter. */
  lemma PopWithin(tried: seq<nat>, grav: seq<nat>, g2: seq<nat>)
    requires grav != [] && grav[..|grav| - 1] <= g2
    ensures Within(tried + grav, tried + [grav[|grav| - 1]] + g2)
    ensures Within(g2, tried + [grav[|grav| - 1]] + g2)
  {
    var blk := grav[|grav| - 1];
    forall e | e in tried + grav
      ensures e in tried + [blk] + g2
    {
      if e !in tried && e != blk {
        assert grav == grav[..|grav| - 1] + [blk];
        PrefixIn(grav[..|grav| - 1], g2, e);
      }
    }
  }

  /** One pop of the gravity loop: block blk, the top of grav, fell along
      ftrace from the last snapshot and stopped, noting blocks on g2; what
      is left of the stack is a prefix of the stack after the fall. */
  lemma SettlingStep(grav0: seq<nat>, grav: seq<nat>, trace: seq<Snap>, blks: seq<nat>,
                     tried: seq<nat>, at: seq<nat>, g2: seq<nat>, ftrace: seq<Snap>, fblks: seq<nat>)
    requires Settling(grav0, grav, trace, blks, tried, at) && grav != []
    requires grav[..|grav| - 1] <= g2
    requires Drops(ftrace, fblks) && ftrace[0] == trace[|trace| - 1] && DropsNoted(ftrace, fblks, g2)
    requires forall k :: 0 <= k < |fblks| ==> fblks[k] == grav[|grav| - 1]
    requires grav[|grav| - 1] < |ftrace[|ftrace| - 1].blocks|
    requires !MoveOk(ftrace[|ftrace| - 1].board, ftrace[|ftrace| - 1].blocks, grav[|grav| - 1], Down)
    ensures Settling(grav0, g2, trace + ftrace[1..], blks + fblks, tried + [grav[|grav| - 1]],
                     at + [(|blks| + |fblks|) as nat])
    ensures (trace + ftrace[1..])[0] == trace[0]
    ensures (trace + ftrace[1..])[|blks| + |fblks|] == ftrace[|ftrace| - 1]
  {
    var blk := grav[|grav| - 1];
    DropsJoin(trace, blks, ftrace, fblks);
    var tr, bs, ts, ps := trace + ftrace[1..], blks + fblks, tried + [blk], at + [(|blks| + |fblks|) as nat];
    forall j | 0 <= j < |ps|
      ensures ps[j] < |tr| && ts[j] < |tr[ps[j]].blocks| && !MoveOk(tr[ps[j]].board, tr[ps[j]].blocks, ts[j], Down)
    {
      if j < |at| {
        assert ps[j] == at[j] && ts[j] == tried[j] && tr[at[j]] == trace[at[j]];
      }
    }
    forall k | 0 <= k < |bs|
      ensures bs[k] in ts
    {
      if k < |blks| {
        assert bs[k] == blks[k];
      } else {
        assert bs[k] == fblks[k - |blks|];
      }
    }
    forall j | 0 <= j < |grav0|
      ensures grav0[j] in ts || grav0[j] in g2
    {
      var e := grav0[j];
      if e !in tried && e != blk {
        assert grav == grav[..|grav| - 1] + [blk];
        PrefixIn(grav[..|grav| - 1], g2, e);
      }
    }
    PopWithin(tried, grav, g2);
    NotedJoin(trace, blks, tried + grav, ftrace, fblks, g2, ts + g2);
  }

  /** What game_do_move went through after the sideways move: the
      snapshots of the gravity loop, the blocks it dropped, the blocks it
      popped with the snapshot where each fall ended, and the source block
      of every entry of the rebuilt table. */
  datatype Run = Run(trace: seq<Snap>, blks: seq<nat>, tried: seq<nat>, at: seq<nat>, S: seq<nat>)

  /** d is what game_do_move writes to its destination for state s, block x
      and direction dir: s with x moved (trace[0]), every block noted on the
      gravity stack let fall in turn, and the settled board reconciled by
      update_block_connections. */
  ghost predicate DoneMove(s: Snap, x: nat, dir: Dir, noted: seq<nat>, r: Run, d: Snap)
  {
    |r.trace| > 0 && Moved(s, x, dir, r.trace[0]) && NotedAll(s.board, dir, x, noted)
    && Settles(noted, r.trace, r.blks, r.tried, r.at)
    && Reconciled(r.trace[|r.trace| - 1].board, r.trace[|r.trace| - 1].blocks, d.board, d.blocks, r.S, Iota(|r.S|))
  }

  /** A run with at least one move, less its last move, is a run. */
  lemma DropsPrefix(trace: seq<Snap>, blks: seq<nat>)
    requires Drops(trace, blks) && |blks| > 0
    ensures Drops(trace[..|trace| - 1], blks[..|blks| - 1])
  {
    var tr, bs := trace[..|trace| - 1], blks[..|blks| - 1];
    forall k | 0 <= k < |bs|
      ensures Moved(tr[k], bs[k], Down, tr[k + 1])
    {
      assert tr[k] == trace[k] && tr[k + 1] == trace[k + 1] && bs[k] == blks[k];
    }
  }

  /** Gravity keeps the number of blocks and lowers the potential by at
      least one for every move of a run. */
  lemma {:induction false} DropsLower(trace: seq<Snap>, blks: seq<nat>)
    requires Drops(trace, blks)
    ensures |trace[|trace| - 1].blocks| == |trace[0].blocks|
    ensures Potential(trace[|trace| - 1].board) + |blks| <= Potential(trace[0].board)
  {
    if |blks| > 0 {
      var n := |blks|;
      DropsPrefix(trace, blks);
      DropsLower(trace[..n], blks[..n - 1]);
      assert trace[..n][0] == trace[0] && trace[..n][n - 1] == trace[n - 1];
      assert Moved(trace[n - 1], blks[n - 1], Down, trace[n]);
      DownLowers(trace[n - 1].board, trace[n - 1].blocks, blks[n - 1]);
    }
  }

  /** What game_do_move writes is a valid state with no more blocks than
      before, lower in potential by at least the number of DOWN moves. */
  lemma DoneMoveOutcome(s: Snap, x: nat, dir: Dir, noted: seq<nat>, r: Run, d: Snap)
    requires IsHorizontal(dir) && DoneMove(s, x, dir, noted, r, d)
    ensures ValidState(d.board, d.blocks) && |d.blocks| <= |s.blocks|
    ensures Potential(d.board) + |r.blks| <= Potential(s.board)
  {
    SideKeeps(s.board, s.blocks, x, dir);
    DropsLower(r.trace, r.blks);
    var last := r.trace[|r.trace| - 1];
    ReconciledKeeps(last.board, last.blocks, d.board, d.blocks, r.S, Iota(|r.S|));
    ReconciledValid(last.board, last.blocks, d.board, d.blocks, r.S);
  }

  /** The block on cell t of b and the block resting on that cell, if any,
      are stuck in last. */
  ghost predicate CellSettled(b: seq<Cell>, t: nat, last: Snap)
    requires |b| == CellCount && t < CellCount && ValidState(last.board, last.blocks)
  {
    var a := AddDir(PosOf(t), Up);
    (b[t].Piece? ==> Stuck(last, b[t].block))
    && (InBounds(a) && b[Idx(a)].Piece? ==> Stuck(last, b[Idx(a)].block))
  }

  /** A move (not upwards) whose notes were all popped by a run that ended
      in last, with every popped block stuck there, left every cell it
      moved settled. */
  lemma NotedSettled(b: seq<Cell>, dir: Dir, blk: nat, g: seq<nat>, tried: seq<nat>, last: Snap)
    requires |b| == CellCount && dir != Up && NotedAll(b, dir, blk, g) && Within(g, tried)
    requires ValidState(last.board, last.blocks) && forall j :: 0 <= j < |tried| ==> Stuck(last, tried[j])
    ensures forall t :: 0 <= t < CellCount && CascadeMask(b, dir, blk)[t] ==> CellSettled(b, t, last)
  {
  }

  /** After game_do_move, every block the sideways move pushed, and every
      block resting on a pushed cell, can no longer move down in the board
      gravity settled on; the same holds for every move gravity made. */
  lemma DoneMoveSettled(s: Snap, x: nat, dir: Dir, noted: seq<nat>, r: Run, d: Snap)
    requires IsHorizontal(dir) && DoneMove(s, x, dir, noted, r, d)
    ensures forall t :: 0 <= t < CellCount && CascadeMask(s.board, dir, x)[t] ==>
              CellSettled(s.board, t, r.trace[|r.trace| - 1])
    ensures forall k, t :: 0 <= k < |r.blks| && 0 <= t < CellCount && CascadeMask(r.trace[k].board, Down, r.blks[k])[t] ==>
              CellSettled(r.trace[k].board, t, r.trace[|r.trace| - 1])
  {
    var last := r.trace[|r.trace| - 1];
    assert Within(noted, r.tried) by {
      forall e | e in noted
        ensures e in r.tried
      {
        var j :| 0 <= j < |noted| && noted[j] == e;
      }
    }
    NotedSettled(s.board, dir, x, noted, r.tried, last);
    assert r.tried + [] == r.tried;
    forall k | 0 <= k < |r.blks|
      ensures forall t :: 0 <= t < CellCount && CascadeMask(r.trace[k].board, Down, r.blks[k])[t] ==>
                CellSettled(r.trace[k].board, t, last)
    {
      NotedSettled(r.trace[k].board, Down, r.blks[k], r.tried, r.tried, last);
    }
  }

  /** One attempt to move block blk of the valid state s down, the stack
      going from grav to grav1: moved exactly when the move can be made; if
      not, the stack is kept; if so, t is s with blk moved down, valid, lower
      in potential, and the move noted its blocks on the grown stack. */
  ghost predicate DownStep(s: Snap, blk: nat, grav: seq<nat>, moved: bool, grav1: seq<nat>, t: Snap)
    requires ValidState(s.board, s.blocks) && blk < |s.blocks|
  {
    (moved <==> MoveOk(s.board, s.blocks, blk, Down))
    && (!moved ==> grav1 == grav)
    && (moved ==> Moved(s, blk, Down, t) && ValidState(t.board, t.blocks) && |t.blocks| == |s.blocks|
                  && Potential(t.board) < Potential(s.board)
                  && grav <= grav1 && ValidIndices(t.blocks, grav1)
                  && NotedAll(s.board, Down, blk, grav1))
  }

  /** One DOWN move of block blk from src into dst (move_block with a
      destination); before and after are src and dst as values. */
  method StepDown(src: GameState, blk: nat, dst: GameState, visited: array<bool>, grav: seq<nat>)
    returns (moved: bool, grav1: seq<nat>, ghost before: Snap, ghost after: Snap)
    requires src != dst && src.board != dst.board
    requires src.board.Length == CellCount && dst.board.Length == CellCount && visited.Length == CellCount
    requires ValidState(src.board[..], src.blocks) && blk < |src.blocks| && ValidIndices(src.blocks, grav)
    modifies dst, dst.board, visited
    ensures before == Snap(src.board[..], src.blocks) && after == Snap(dst.board[..], dst.blocks)
    ensures DownStep(before, blk, grav, moved, grav1, after)
  {
    before := Snap(src.board[..], src.blocks);
    moved, grav1 := MoveBlock(src, blk, Down, dst, visited, grav);
    after := Snap(dst.board[..], dst.blocks);
    if moved {
      DownLowers(src.board[..], src.blocks, blk);
    }
  }

  /** Block blk falling from s0: the run went along trace to f, every move
      dropped blk and noted its blocks on grav. */
  ghost predicate FallTrace(s0: Snap, blk: nat, trace: seq<Snap>, blks: seq<nat>, f: Snap, grav: seq<nat>)
  {
    Drops(trace, blks) && trace[0] == s0 && trace[|trace| - 1] == f
    && (forall k :: 0 <= k < |blks| ==> blks[k] == blk)
    && DropsNoted(trace, blks, grav)
  }

  /** The state of the fall loop at f, the stack having grown from grav0 to
      grav. When moved, blk could move once more, from f into bk; otherwise
      it cannot move down from f. f is valid and no higher than s0, and
      strictly lower unless blk is about to move again or the stack stayed
      as it was. */
  ghost predicate FallRest(s0: Snap, blk: nat, grav0: seq<nat>, grav: seq<nat>, f: Snap, bk: Snap, moved: bool)
  {
    ValidState(s0.board, s0.blocks) && ValidState(f.board, f.blocks)
    && |f.blocks| == |s0.blocks| && blk < |f.blocks|
    && ValidIndices(f.blocks, grav) && grav0 <= grav
    && (moved ==> Moved(f, blk, Down, bk) && ValidState(bk.board, bk.blocks) && |bk.blocks| == |s0.blocks|
                  && Potential(bk.board) < Potential(f.board) && ValidIndices(bk.blocks, grav)
                  && NotedAll(f.board, Down, blk, grav))
    && (!moved ==> !MoveOk(f.board, f.blocks, blk, Down))
    && Potential(f.board) <= Potential(s0.board)
    && (Potential(f.board) < Potential(s0.board) || moved || grav == grav0)
  }

  /** Block blk's fall from s0 as far as f (see FallTrace and FallRest). */
  ghost predicate Falling(s0: Snap, blk: nat, grav0: seq<nat>, trace: seq<Snap>, blks: seq<nat>,
                          grav: seq<nat>, f: Snap, bk: Snap, moved: bool)
  {
    FallTrace(s0, blk, trace, blks, f, grav) && FallRest(s0, blk, grav0, grav, f, bk, moved)
  }

  /** The move from f into bk, which noted its blocks on g, extends the
      fall's trace; the stack only grows, from g to g1. */
  lemma FallTraceNext(s0: Snap, blk: nat, trace: seq<Snap>, blks: seq<nat>, f: Snap, bk: Snap,
                      g: seq<nat>, g1: seq<nat>)
    requires FallTrace(s0, blk, trace, blks, f, g)
    requires Moved(f, blk, Down, bk) && ValidState(bk.board, bk.blocks) && NotedAll(f.board, Down, blk, g)
    requires g <= g1
    ensures FallTrace(s0, blk, trace + [bk], blks + [blk], bk, g1)
  {
    DropsExtend(trace, blks, blk, bk);
    SameAppend(blks, blk);
    var tr, bs := trace + [bk], blks + [blk];
    assert Within(g, g1) by {
      forall e | e in g
        ensures e in g1
      {
        PrefixIn(g, g1, e);
      }
    }
    forall k | 0 <= k < |bs|
      ensures NotedAll(tr[k].board, Down, bs[k], g1)
    {
      assert tr[k] == (trace + [bk])[k];
      if k < |blks| {
        assert tr[k] == trace[k] && bs[k] == blks[k];
      }
      NotedWider(tr[k].board, Down, blk, g, g1);
    }
  }

  lemma SameAppend(blks: seq<nat>, blk: nat)
    requires forall k :: 0 <= k < |blks| ==> blks[k] == blk
    ensures forall k :: 0 <= k < |blks| + 1 ==> (blks + [blk])[k] == blk
  {
  }

  /** One more turn of the fall loop: the move into bk is taken, and the
      next attempt, from bk into nb, either fails or is one more move. */
  lemma FallRestNext(s0: Snap, blk: nat, grav0: seq<nat>, grav: seq<nat>, f: Snap, bk: Snap,
                     moved: bool, grav1: seq<nat>, nb: Snap)
    requires FallRest(s0, blk, grav0, grav, f, bk, true)
    requires DownStep(bk, blk, grav, moved, grav1, nb)
    ensures FallRest(s0, blk, grav0, grav1, bk, nb, moved)
  {
    if moved {
      assert grav0 <= grav <= grav1;
    }
  }

  /** One turn of the fall loop (see FallTraceNext and FallRestNext). */
  lemma FallNext(s0: Snap, blk: nat, grav0: seq<nat>, trace: seq<Snap>, blks: seq<nat>, grav: seq<nat>,
                 f: Snap, bk: Snap, moved: bool, grav1: seq<nat>, nb: Snap)
    requires Falling(s0, blk, grav0, trace, blks, grav, f, bk, true)
    requires DownStep(bk, blk, grav, moved, grav1, nb)
    ensures Falling(s0, blk, grav0, trace + [bk], blks + [blk], grav1, bk, nb, moved)
  {
    assert grav <= grav1;
    FallTraceNext(s0, blk, trace, blks, f, bk, grav, grav1);
    FallRestNext(s0, blk, grav0, grav, f, bk, moved, grav1, nb);
  }

  /** Moves block blk DOWN for as long as it can, swapping the two scratch
      states after every move; returns the state now in front. trace holds
      the states it went through, from the first to the one in front. */
  method Fall(front0: GameState, back0: GameState, blk: nat, visited: array<bool>, grav0: seq<nat>)
    returns (front: GameState, back: GameState, grav: seq<nat>, ghost trace: seq<Snap>, ghost blks: seq<nat>)
    requires front0 != back0 && front0.board != back0.board
    requires front0.board.Length == CellCount && back0.board.Length == CellCount && visited.Length == CellCount
    requires ValidState(front0.board[..], front0.blocks) && blk < |front0.blocks|
    requires ValidIndices(front0.blocks, grav0)
    modifies front0, front0.board, back0, back0.board, visited
    ensures (front == front0 && back == back0) || (front == back0 && back == front0)
    ensures Falling(old(Snap(front0.board[..], front0.blocks)), blk, grav0, trace, blks, grav,
                    Snap(front.board[..], front.blocks), Snap(back.board[..], back.blocks), false)
  {
    ghost var s0 := Snap(front0.board[..], front0.blocks);
    front, back := front0, back0;
    trace, blks := [s0], [];
    var moved;
    ghost var bk, nb;
    moved, grav, bk, nb := StepDown(front, blk, back, visited, grav0);
    while moved
      invariant (front == front0 && back == back0) || (front == back0 && back == front0)
      invariant Falling(s0, blk, grav0, trace, blks, grav,
                        Snap(front.board[..], front.blocks), Snap(back.board[..], back.blocks), moved)
      decreases Potential(front.board[..])
    {
      ghost var f, g := Snap(front.board[..], front.blocks), grav;
      front, back := back, front;
      moved, grav, bk, nb := StepDown(front, blk, back, visited, grav);
      FallNext(s0, blk, grav0, trace, blks, g, f, bk, moved, grav, nb);
      trace, blks := trace + [bk], blks + [blk];
    }
  }

  /** The sideways move of block x from game into front. */
  method StepSide(game: GameState, x: nat, dir: Dir, front: GameState, visited: array<bool>)
    returns (ok: bool, grav: seq<nat>)
    requires IsHorizontal(dir) && game != front && game.board != front.board
    requires game.board.Length == CellCount && front.board.Length == CellCount && visited.Length == CellCount
    requires ValidState(game.board[..], game.blocks) && x < |game.blocks|
    modifies front, front.board, visited
    ensures ok <==> MoveOk(game.board[..], game.blocks, x, dir)
    ensures ok ==> Moved(Snap(game.board[..], game.blocks), x, dir, Snap(front.board[..], front.blocks))
    ensures ok ==> ValidState(front.board[..], front.blocks) && |front.blocks| == |game.blocks|
                   && Potential(front.board[..]) == Potential(game.board[..])
                   && ValidIndices(front.blocks, grav)
    ensures ok ==> NotedAll(game.board[..], dir, x, grav)
  {
    ok, grav := MoveBlock(game, x, dir, front, visited, []);
    if ok {
      SideKeeps(game.board[..], game.blocks, x, dir);
    }
  }

  /** The gravity loop part way through, from s0 with the stack grav0 at
      first: the state f in front is the last of trace, valid, with as
      many blocks as s0 and no higher; grav names blocks of f. */
  ghost predicate SettleState(s0: Snap, grav0: seq<nat>, grav: seq<nat>, trace: seq<Snap>, blks: seq<nat>,
                              tried: seq<nat>, at: seq<nat>, f: Snap)
  {
    Settling(grav0, grav, trace, blks, tried, at) && trace[0] == s0 && trace[|trace| - 1] == f
    && ValidState(f.board, f.blocks) && |f.blocks| == |s0.blocks| && ValidIndices(f.blocks, grav)
    && Potential(f.board) <= Potential(s0.board)
  }

  /** One turn of the gravity loop: the top of grav is popped and falls
      from f to f1; the loop goes on from the longer trace, and either the
      potential went down or the stack got shorter. */
  lemma SettleNext(s0: Snap, grav0: seq<nat>, grav: seq<nat>, trace: seq<Snap>, blks: seq<nat>,
                   tried: seq<nat>, at: seq<nat>, f: Snap,
                   ftrace: seq<Snap>, fblks: seq<nat>, grav1: seq<nat>, f1: Snap, b1: Snap)
    requires SettleState(s0, grav0, grav, trace, blks, tried, at, f) && grav != []
    requires Falling(f, grav[|grav| - 1], grav[..|grav| - 1], ftrace, fblks, grav1, f1, b1, false)
    ensures SettleState(s0, grav0, grav1, trace + ftrace[1..], blks + fblks, tried + [grav[|grav| - 1]],
                        at + [(|blks| + |fblks|) as nat], f1)
    ensures Potential(f1.board) < Potential(f.board)
            || (Potential(f1.board) == Potential(f.board) && |grav1| < |grav|)
  {
    SettlingStep(grav0, grav, trace, blks, tried, at, grav1, ftrace, fblks);
  }

  /** Pops the gravity stack until it is empty, letting each popped block
      fall; the settled state ends in front. trace holds the states the
      loop went through, from the first to the one in front. */
  method Settle(front0: GameState, back0: GameState, visited: array<bool>, grav0: seq<nat>)
    returns (front: GameState, back: GameState, ghost trace: seq<Snap>, ghost blks: seq<nat>,
             ghost tried: seq<nat>, ghost at: seq<nat>)
    requires front0 != back0 && front0.board != back0.board
    requires front0.board.Length == CellCount && back0.board.Length == CellCount && visited.Length == CellCount
    requires ValidState(front0.board[..], front0.blocks) && ValidIndices(front0.blocks, grav0)
    modifies front0, front0.board, back0, back0.board, visited
    ensures (front == front0 && back == back0) || (front == back0 && back == front0)
    ensures SettleState(old(Snap(front0.board[..], front0.blocks)), grav0, [], trace, blks, tried, at,
                        Snap(front.board[..], front.blocks))
    ensures Settles(grav0, trace, blks, tried, at)
  {
    ghost var s0 := Snap(front0.board[..], front0.blocks);
    front, back := front0, back0;
    trace, blks, tried, at := [s0], [], [], [];
    var grav := grav0;
    while grav != []
      invariant (front == front0 && back == back0) || (front == back0 && back == front0)
      invariant SettleState(s0, grav0, grav, trace, blks, tried, at, Snap(front.board[..], front.blocks))
      decreases Potential(front.board[..]), |grav|
    {
      ghost var f, g := Snap(front.board[..], front.blocks), grav;
      var blk := grav[|grav| - 1];
      grav := grav[..|grav| - 1];
      ghost var ftrace, fblks;
      front, back, grav, ftrace, fblks := Fall(front, back, blk, visited, grav);
      SettleNext(s0, grav0, g, trace, blks, tried, at, f, ftrace, fblks, grav,
                 Snap(front.board[..], front.blocks), Snap(back.board[..], back.blocks));
      trace, blks, tried, at := trace + ftrace[1..], blks + fblks, tried + [blk], at + [(|blks| + |fblks|) as nat];
    }
    SettledStable(grav0, trace, blks, tried, at);
  }

  /** Moves block x sideways, then lets every block noted on the gravity
      stack fall as far as it can, and finally rebuilds the block table of
      dest. front and back are the two scratch states. The result is false
      exactly when the sideways move cannot be made; dest is then left
      alone. With a destination, dest ends in what DoneMove describes: the
      moved state's gravity run reconciled by update_block_connections; it
      is valid and no higher (in potential) than the board before the
      move. */
  method GameDoMove(game: GameState, x: nat, dir: Dir, dest: GameState?, front0: GameState, back0: GameState)
    returns (ok: bool, ghost noted: seq<nat>, ghost run: Run)
    requires IsHorizontal(dir)
    requires game.board.Length == CellCount && front0.board.Length == CellCount && back0.board.Length == CellCount
    requires ValidState(game.board[..], game.blocks) && x < |game.blocks|
    requires game != front0 && game != back0 && front0 != back0
    requires game.board != front0.board && game.board != back0.board && front0.board != back0.board
    requires dest != null ==>
               dest.board.Length == CellCount && dest != game && dest != front0 && dest != back0
               && dest.board != game.board && dest.board != front0.board && dest.board != back0.board
    modifies front0, front0.board, back0, back0.board
    modifies if dest == null then {} else {dest, dest.board}
    ensures ok <==> MoveOk(game.board[..], game.blocks, x, dir)
    ensures ok ==> NotedAll(game.board[..], dir, x, noted)
    ensures dest != null && !ok ==> dest.board[..] == old(dest.board[..]) && dest.blocks == old(dest.blocks)
    ensures dest != null && ok ==>
              DoneMove(Snap(game.board[..], game.blocks), x, dir, noted, run, Snap(dest.board[..], dest.blocks))
    ensures dest != null && ok ==>
              ValidState(dest.board[..], dest.blocks) && |dest.blocks| <= |game.blocks|
              && Potential(dest.board[..]) <= Potential(game.board[..])
  {
    run := Run([], [], [], [], []);
    var visited := new bool[CellCount](_ => false);
    var grav;
    ok, grav := StepSide(game, x, dir, front0, visited);
    noted := grav;
    if !ok || dest == null {
      return;
    }
    ghost var trace, blks, tried, at, S := SettleInto(front0, back0, visited, grav, dest);
    run := Run(trace, blks, tried, at, S);
  }

  /** The second half of game_do_move once the sideways step succeeded: let
      everything fall, copy the settled board into dest and reconcile it. */
  method SettleInto(front0: GameState, back0: GameState, visited: array<bool>, grav: seq<nat>, dest: GameState)
    returns (ghost trace: seq<Snap>, ghost blks: seq<nat>, ghost tried: seq<nat>, ghost at: seq<nat>, ghost S: seq<nat>)
    requires front0 != back0 && front0.board != back0.board
    requires front0.board.Length == CellCount && back0.board.Length == CellCount && visited.Length == CellCount
    requires dest.board.Length == CellCount && dest != front0 && dest != back0
             && dest.board != front0.board && dest.board != back0.board
    requires ValidState(front0.board[..], front0.blocks) && ValidIndices(front0.blocks, grav)
    modifies front0, front0.board, back0, back0.board, visited, dest, dest.board
    ensures |trace| > 0 && trace[0] == old(Snap(front0.board[..], front0.blocks))
    ensures Settles(grav, trace, blks, tried, at)
    ensures Reconciled(trace[|trace| - 1].board, trace[|trace| - 1].blocks, dest.board[..], dest.blocks, S, Iota(|S|))
    ensures ValidState(dest.board[..], dest.blocks) && |dest.blocks| <= old(|front0.blocks|)
    ensures Potential(dest.board[..]) <= old(Potential(front0.board[..]))
  {
    var front, back;
    front, back, trace, blks, tried, at := Settle(front0, back0, visited, grav);
    CopyBoard(dest, front);
    dest.blocks := front.blocks;
    ghost var settled, settledBlocks := dest.board[..], dest.blocks;
    S := UpdateBlockConnections(dest);
    ReconciledKeeps(settled, settledBlocks, dest.board[..], dest.blocks, S, Iota(|S|));
  }
}
