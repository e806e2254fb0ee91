/**
 * Counting measures shared by the engine's stack-based flood fills.
 *
 * Every flood fill pops a position, marks it visited and pushes unvisited
 * neighbours; a position may sit on the stack several times. Each step either
 * marks a new cell (the number of unvisited cells drops) or pops an entry that
 * is already visited while pushing only unvisited ones (the number of visited
 * entries on the stack drops).
 */
module Flood {
  import opened Board

  function CountFalse(v: seq<bool>): nat
  {
    if v == [] then 0 else CountFalse(v[..|v| - 1]) + (if v[|v| - 1] then 0 else 1)
  }

  /** Marking an unvisited cell lowers the number of unvisited cells. */
  lemma {:induction false} CountFalseMark(v: seq<bool>, i: nat)
    requires i < |v| && !v[i]
    ensures CountFalse(v[i := true]) < CountFalse(v)
  {
    var n := |v| - 1;
    if i == n {
      assert v[i := true][..n] == v[..n];
    } else {
      assert v[i := true][..n] == v[..n][i := true];
      CountFalseMark(v[..n], i);
    }
  }

  /** Visiting more cells never raises the number of unvisited ones. */
  lemma {:induction false} CountFalseMono(v: seq<bool>, w: seq<bool>)
    requires |v| == |w| && forall k :: 0 <= k < |v| && v[k] ==> w[k]
    ensures CountFalse(w) <= CountFalse(v)
  {
    if v != [] {
      var n := |v| - 1;
      CountFalseMono(v[..n], w[..n]);
    }
  }

  /** Visiting one more cell lowers it. */
  lemma {:induction false} CountFalseGrow(v: seq<bool>, w: seq<bool>, i: nat)
    requires |v| == |w| && forall k :: 0 <= k < |v| && v[k] ==> w[k]
    requires i < |v| && w[i] && !v[i]
    ensures CountFalse(w) < CountFalse(v)
  {
    var n := |v| - 1;
    if i == n {
      CountFalseMono(v[..n], w[..n]);
    } else {
      CountFalseGrow(v[..n], w[..n], i);
    }
  }

  /** The number of stack entries whose cell is already visited. */
  function VisitedEntries(v: seq<bool>, s: seq<Pos>): nat
    requires |v| == CellCount
  {
    if s == [] then 0
    else VisitedEntries(v, s[..|s| - 1]) + (if InBounds(s[|s| - 1]) && v[Idx(s[|s| - 1])] then 1 else 0)
  }

  /** Pushing only unvisited cells adds no visited entries. */
  lemma {:induction false} VisitedEntriesPushFresh(v: seq<bool>, s: seq<Pos>, t: seq<Pos>)
    requires |v| == CellCount
    requires forall k :: 0 <= k < |t| ==> InBounds(t[k]) && !v[Idx(t[k])]
    ensures VisitedEntries(v, s + t) == VisitedEntries(v, s)
  {
    if t != [] {
      var n := |t| - 1;
      assert (s + t)[..|s + t| - 1] == s + t[..n];
      VisitedEntriesPushFresh(v, s, t[..n]);
    } else {
      assert s + t == s;
    }
  }

  /** Popping the last entry, marking it and pushing only unvisited cells
      lowers the flood measure. */
  lemma PopMeasure(v: seq<bool>, stack: seq<Pos>, pushed: seq<Pos>)
    requires |v| == CellCount && |stack| > 0 && InBounds(stack[|stack| - 1])
    requires forall k :: 0 <= k < |pushed| ==>
               InBounds(pushed[k]) && !v[Idx(stack[|stack| - 1]) := true][Idx(pushed[k])]
    ensures var v1 := v[Idx(stack[|stack| - 1]) := true];
            CountFalse(v1) < CountFalse(v)
            || (CountFalse(v1) == CountFalse(v)
                && VisitedEntries(v1, stack[..|stack| - 1] + pushed) < VisitedEntries(v, stack))
  {
    var i := Idx(stack[|stack| - 1]);
    var v1 := v[i := true];
    VisitedEntriesPushFresh(v1, stack[..|stack| - 1], pushed);
    if v[i] {
      assert v1 == v;
    } else {
      CountFalseMark(v, i);
    }
  }
}
