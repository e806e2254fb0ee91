/**
 * The termination measure of the gravity loop in game_do_move: the sum, over
 * the piece cells, of how many rows the cell lies above the bottom row. A
 * DOWN move lowers it by the number of cells that move, a sideways move keeps
 * it.
 */
module Gravity {
  import opened Board
  import opened Translator

  /** The number of rows between cell q and the bottom row. */
  function Lift(q: int): int
  {
    Height - 1 - q / Width
  }

  ghost function Sum(f: int -> int, n: nat): int
  {
    if n == 0 then 0 else Sum(f, n - 1) + f(n - 1)
  }

  ghost function PieceLift(b: seq<Cell>): int -> int
  {
    q => if 0 <= q < |b| && b[q].Piece? then Lift(q) else 0
  }

  ghost function MovedLift(v: seq<bool>): int -> int
  {
    q => if 0 <= q < |v| && v[q] then Lift(q) else 0
  }

  ghost function StillLift(b: seq<Cell>, v: seq<bool>): int -> int
  {
    q => if 0 <= q < |b| && q < |v| && !v[q] && b[q].Piece? then Lift(q) else 0
  }

  ghost function Moves(v: seq<bool>): int -> int
  {
    q => if 0 <= q < |v| && v[q] then 1 else 0
  }

  ghost function CountTrue(v: seq<bool>): int
  {
    Sum(Moves(v), |v|)
  }

  /** The lift, over the cells, of whatever arrives from one row up. */
  ghost function ArrivedDown(v: seq<bool>): int -> int
  {
    q => if Width <= q < |v| && v[q - Width] then Lift(q) else 0
  }

  /** The lift a moving cell keeps after moving one row down. */
  ghost function DroppedLift(v: seq<bool>): int -> int
  {
    q => if 0 <= q < |v| && v[q] then Lift(q) - 1 else 0
  }

  /** The lift of whatever arrives from one column over. */
  ghost function ArrivedSide(v: seq<bool>, dir: Dir): int -> int
  {
    q => var p := q - Dx(dir);
         if 0 <= q < |v| && 0 <= p < |v| && p / Width == q / Width && v[p] then Lift(q) else 0
  }

  /** The potential of a board: the total lift of its pieces. */
  ghost function Potential(b: seq<Cell>): (r: nat)
    requires |b| == CellCount
    ensures r == Sum(PieceLift(b), CellCount)
  {
    SumNonNeg(PieceLift(b), CellCount);
    Sum(PieceLift(b), CellCount)
  }

  // ---------------------------------------------------------------------
  // Sums

  lemma {:induction false} SumNonNeg(f: int -> int, n: nat)
    requires forall q :: 0 <= q < n ==> f(q) >= 0
    ensures Sum(f, n) >= 0
  {
    if n > 0 {
      SumNonNeg(f, n - 1);
    }
  }

  lemma {:induction false} SumAdd(f: int -> int, g: int -> int, h: int -> int, n: nat)
    requires forall q :: 0 <= q < n ==> f(q) == g(q) + h(q)
    ensures Sum(f, n) == Sum(g, n) + Sum(h, n)
  {
    if n > 0 {
      SumAdd(f, g, h, n - 1);
    }
  }

  /** Terms beyond n that are zero add nothing. */
  lemma {:induction false} SumTail(f: int -> int, n: nat, m: nat)
    requires n <= m && forall q :: n <= q < m ==> f(q) == 0
    ensures Sum(f, m) == Sum(f, n)
  {
    if n < m {
      SumTail(f, n, m - 1);
    }
  }

  lemma {:induction false} SumSame(f: int -> int, g: int -> int, n: nat)
    requires forall q :: 0 <= q < n ==> f(q) == g(q)
    ensures Sum(f, n) == Sum(g, n)
  {
    if n > 0 {
      SumSame(f, g, n - 1);
    }
  }

  /** A sum whose first o terms vanish is the sum of the terms shifted by o. */
  lemma {:induction false} SumShift(f: int -> int, g: int -> int, o: nat, n: nat)
    requires forall q :: 0 <= q < o ==> f(q) == 0
    requires forall p :: 0 <= p < n ==> f(p + o) == g(p)
    ensures Sum(f, n + o) == Sum(g, n)
  {
    if n == 0 {
      SumTail(f, 0, o);
    } else {
      SumShift(f, g, o, n - 1);
      assert f(n - 1 + o) == g(n - 1);
    }
  }

  /** A sum of non-negative terms is at least each of its terms. */
  lemma {:induction false} SumAtLeast(f: int -> int, n: nat, t: nat)
    requires t < n && forall q :: 0 <= q < n ==> f(q) >= 0
    ensures Sum(f, n) >= f(t)
  {
    if t < n - 1 {
      SumAtLeast(f, n - 1, t);
    } else {
      SumNonNeg(f, n - 1);
    }
  }

  /** A mask with a moving cell counts at least one. */
  lemma CountTrueAt(v: seq<bool>, t: nat)
    requires t < |v| && v[t]
    ensures CountTrue(v) >= 1
  {
    SumAtLeast(Moves(v), |v|, t);
  }

  // ---------------------------------------------------------------------
  // Geometry of the flat index

  /** One row up from cell q, when there is one. */
  lemma BackDown(q: nat)
    requires q < CellCount
    ensures InBounds(Back(PosOf(q), Down)) <==> q >= Width
    ensures q >= Width ==> Idx(Back(PosOf(q), Down)) == q - Width
    ensures q >= Width ==> Lift(q - Width) == Lift(q) + 1
  {
  }

  /** One row down from cell t, when there is one. */
  lemma AheadDown(t: nat)
    requires t < CellCount
    ensures InBounds(AddDir(PosOf(t), Down)) <==> t < CellCount - Width
    ensures t < CellCount - Width ==> Idx(AddDir(PosOf(t), Down)) == t + Width
  {
  }

  /** One column over from cell q, when there is one. */
  lemma BackSide(q: nat, dir: Dir)
    requires q < CellCount && IsHorizontal(dir)
    ensures var p := q - Dx(dir);
            InBounds(Back(PosOf(q), dir)) <==> (0 <= p < CellCount && p / Width == q / Width)
    ensures var p := q - Dx(dir);
            InBounds(Back(PosOf(q), dir)) ==> Idx(Back(PosOf(q), dir)) == p
  {
  }

  lemma AheadSide(t: nat, dir: Dir)
    requires t < CellCount && IsHorizontal(dir)
    ensures var q := t + Dx(dir);
            InBounds(AddDir(PosOf(t), dir)) <==> (0 <= q < CellCount && q / Width == t / Width)
    ensures var q := t + Dx(dir);
            InBounds(AddDir(PosOf(t), dir)) ==> Idx(AddDir(PosOf(t), dir)) == q
  {
  }

  // ---------------------------------------------------------------------
  // The potential across a move

  /** Before a move, the potential splits into the lift of moving cells and
      that of pieces that stay. */
  lemma SplitBefore(src: seq<Cell>, v: seq<bool>, dir: Dir)
    requires |src| == CellCount && |v| == CellCount && MoveMask(src, v, dir)
    ensures Potential(src) == Sum(MovedLift(v), CellCount) + Sum(StillLift(src, v), CellCount)
  {
    SumAdd(PieceLift(src), MovedLift(v), StillLift(src, v), CellCount);
  }

  /** After a DOWN move, the potential splits into the lift of the cells that
      arrived from above and that of the pieces that stayed. */
  lemma SplitAfterDown(src: seq<Cell>, v: seq<bool>)
    requires |src| == CellCount && |v| == CellCount && MoveMask(src, v, Down)
    ensures Potential(Shifted(src, v, Down)) == Sum(ArrivedDown(v), CellCount) + Sum(StillLift(src, v), CellCount)
  {
    var f, g, h := PieceLift(Shifted(src, v, Down)), ArrivedDown(v), StillLift(src, v);
    forall q | 0 <= q < CellCount
      ensures f(q) == g(q) + h(q)
    {
      LiftAfterDown(src, v, q);
    }
    SumAdd(f, g, h, CellCount);
  }

  /** Cell q after a DOWN move holds a piece that arrived from above or one
      that stayed, never both. */
  lemma LiftAfterDown(src: seq<Cell>, v: seq<bool>, q: nat)
    requires |src| == CellCount && |v| == CellCount && MoveMask(src, v, Down) && q < CellCount
    ensures PieceLift(Shifted(src, v, Down))(q) == ArrivedDown(v)(q) + StillLift(src, v)(q)
  {
    BackDown(q);
    if q >= Width && v[q - Width] {
      var t := q - Width;
      AheadDown(t);
      assert src[q].Empty? || v[q];
    }
  }

  /** No cell of the bottom row moves. */
  predicate BottomStill(v: seq<bool>)
    requires |v| == CellCount
  {
    forall t :: CellCount - Width <= t < CellCount ==> !v[t]
  }

  /** A DOWN move leaves the bottom row in place. */
  lemma BottomStays(src: seq<Cell>, v: seq<bool>)
    requires |src| == CellCount && |v| == CellCount && MoveMask(src, v, Down)
    ensures BottomStill(v)
  {
    forall t | CellCount - Width <= t < CellCount
      ensures !v[t]
    {
      AheadDown(t);
    }
  }

  lemma ArrivedShift(v: seq<bool>)
    requires |v| == CellCount
    ensures Sum(ArrivedDown(v), CellCount) == Sum(DroppedLift(v), CellCount - Width)
  {
    forall p | 0 <= p < CellCount - Width
      ensures ArrivedDown(v)(p + Width) == DroppedLift(v)(p)
    {
      BackDown(p + Width);
    }
    SumShift(ArrivedDown(v), DroppedLift(v), Width, CellCount - Width);
  }

  /** The cells arriving from above carry one row less than they had. */
  lemma ArrivedIsDropped(v: seq<bool>)
    requires |v| == CellCount && BottomStill(v)
    ensures Sum(ArrivedDown(v), CellCount) == Sum(MovedLift(v), CellCount) - CountTrue(v)
  {
    var n := CellCount - Width;
    ArrivedShift(v);
    SumTail(DroppedLift(v), n, CellCount);
    SumAdd(MovedLift(v), DroppedLift(v), Moves(v), CellCount);
  }

  /** A DOWN move lowers the potential by the number of cells that move. */
  lemma DownPotential(src: seq<Cell>, v: seq<bool>)
    requires |src| == CellCount && |v| == CellCount && MoveMask(src, v, Down)
    ensures Potential(Shifted(src, v, Down)) + CountTrue(v) == Potential(src)
  {
    SplitBefore(src, v, Down);
    SplitAfterDown(src, v);
    BottomStays(src, v);
    ArrivedIsDropped(v);
  }

  /** Every moving cell stays in its row. */
  predicate InRow(v: seq<bool>, dir: Dir)
    requires |v| == CellCount
  {
    forall t :: 0 <= t < CellCount && v[t] ==> 0 <= t + Dx(dir) < CellCount && (t + Dx(dir)) / Width == t / Width
  }

  lemma InRowOfMask(src: seq<Cell>, v: seq<bool>, dir: Dir)
    requires |src| == CellCount && |v| == CellCount && IsHorizontal(dir) && MoveMask(src, v, dir)
    ensures InRow(v, dir)
  {
    forall t | 0 <= t < CellCount && v[t]
      ensures 0 <= t + Dx(dir) < CellCount && (t + Dx(dir)) / Width == t / Width
    {
      AheadSide(t, dir);
    }
  }

  lemma SplitAfterSide(src: seq<Cell>, v: seq<bool>, dir: Dir)
    requires |src| == CellCount && |v| == CellCount && IsHorizontal(dir) && MoveMask(src, v, dir)
    ensures Potential(Shifted(src, v, dir)) == Sum(ArrivedSide(v, dir), CellCount) + Sum(StillLift(src, v), CellCount)
  {
    var d := Shifted(src, v, dir);
    forall q | 0 <= q < CellCount
      ensures PieceLift(d)(q) == ArrivedSide(v, dir)(q) + StillLift(src, v)(q)
    {
      BackSide(q, dir);
      var p := q - Dx(dir);
      if 0 <= p < CellCount && p / Width == q / Width && v[p] {
        AheadSide(p, dir);
        assert src[q].Empty? || v[q];
      }
    }
    SumAdd(PieceLift(d), ArrivedSide(v, dir), StillLift(src, v), CellCount);
  }

  /** Cells moved within their row keep their lift. */
  lemma ArrivedIsMovedSide(v: seq<bool>, dir: Dir)
    requires |v| == CellCount && IsHorizontal(dir) && InRow(v, dir)
    ensures Sum(ArrivedSide(v, dir), CellCount) == Sum(MovedLift(v), CellCount)
  {
    var n := CellCount - 1;
    if dir == Right {
      forall p | 0 <= p < n
        ensures ArrivedSide(v, dir)(p + 1) == MovedLift(v)(p)
      {
      }
      SumShift(ArrivedSide(v, dir), MovedLift(v), 1, n);
      SumTail(MovedLift(v), n, CellCount);
    } else {
      forall p | 0 <= p < n
        ensures MovedLift(v)(p + 1) == ArrivedSide(v, dir)(p)
      {
      }
      SumShift(MovedLift(v), ArrivedSide(v, dir), 1, n);
      SumTail(ArrivedSide(v, dir), n, CellCount);
    }
  }

  /** A sideways move keeps the potential. */
  lemma SidePotential(src: seq<Cell>, v: seq<bool>, dir: Dir)
    requires |src| == CellCount && |v| == CellCount && IsHorizontal(dir) && MoveMask(src, v, dir)
    ensures Potential(Shifted(src, v, dir)) == Potential(src)
  {
    SplitBefore(src, v, dir);
    SplitAfterSide(src, v, dir);
    InRowOfMask(src, v, dir);
    ArrivedIsMovedSide(v, dir);
  }

  /** Relabelling pieces leaves the potential as it was. */
  lemma SamePiecesPotential(b: seq<Cell>, b1: seq<Cell>)
    requires |b| == CellCount && |b1| == CellCount
    requires forall t :: 0 <= t < CellCount ==> b[t].Piece? == b1[t].Piece?
    ensures Potential(b1) == Potential(b)
  {
    SumSame(PieceLift(b1), PieceLift(b), CellCount);
  }
}
