/** Dynamic time warping of tokens against audio frames, with the path traced back. */
module Dtw {
  datatype Cost = Fin(value: real) | Inf

  predicate Less(a: Cost, b: Cost) {
    a.Fin? && (b.Inf? || a.value < b.value)
  }

  function Plus(x: real, c: Cost): Cost {
    if c.Fin? then Fin(x + c.value) else Inf
  }

  type Point = (nat, nat)

  predicate Rect(x: seq<seq<real>>) {
    |x| > 0 && |x[0]| > 0 && forall i :: 0 <= i < |x| ==> |x[i]| == |x[0]|
  }

  // ----- what the tables hold

  /** Which neighbour the code takes: 0 for both back, 1 for the row, 2 for the column. */
  function Choose(c0: Cost, c1: Cost, c2: Cost): int {
    if Less(c0, c1) && Less(c0, c2) then 0 else if Less(c1, c0) && Less(c1, c2) then 1 else 2
  }

  function Pick(t: int, c0: Cost, c1: Cost, c2: Cost): Cost {
    if t == 0 then c0 else if t == 1 then c1 else c2
  }

  /** The entry of the cost table; the table has a border of infinite costs. */
  function D(x: seq<seq<real>>, i: nat, j: nat): Cost
    requires Rect(x) && i <= |x| && j <= |x[0]|
  {
    if i == 0 && j == 0 then Fin(0.0)
    else if i == 0 || j == 0 then Inf
    else
      var c0, c1, c2 := D(x, i - 1, j - 1), D(x, i - 1, j), D(x, i, j - 1);
      Plus(x[i - 1][j - 1], Pick(Choose(c0, c1, c2), c0, c1, c2))
  }

  function Trace(x: seq<seq<real>>, i: nat, j: nat): int
    requires Rect(x) && 0 < i <= |x| && 0 < j <= |x[0]|
  {
    Choose(D(x, i - 1, j - 1), D(x, i - 1, j), D(x, i, j - 1))
  }

  /** Inside the border costs are finite, and the trace never leads onto the border but to its corner. */
  lemma {:induction false} Inside(x: seq<seq<real>>, i: nat, j: nat)
    requires Rect(x) && 0 < i <= |x| && 0 < j <= |x[0]|
    ensures D(x, i, j).Fin?
    ensures i == 1 && j == 1 ==> Trace(x, i, j) == 0
    ensures i == 1 && j > 1 ==> Trace(x, i, j) == 2
    ensures i > 1 && j == 1 ==> Trace(x, i, j) == 1
    decreases i + j
  {
    if i > 1 {
      Inside(x, i - 1, j);
    }
    if j > 1 {
      Inside(x, i, j - 1);
    }
    if i > 1 && j > 1 {
      Inside(x, i - 1, j - 1);
    }
  }

  lemma Border(x: seq<seq<real>>)
    requires Rect(x)
    ensures D(x, 0, 0) == Fin(0.0)
    ensures forall j :: 0 < j <= |x[0]| ==> D(x, 0, j) == Inf
    ensures forall i :: 0 < i <= |x| ==> D(x, i, 0) == Inf
  {
  }

  lemma Inner(x: seq<seq<real>>, i: nat, j: nat)
    requires Rect(x) && 0 < i <= |x| && 0 < j <= |x[0]|
    ensures var c0, c1, c2 := D(x, i - 1, j - 1), D(x, i - 1, j), D(x, i, j - 1);
            Trace(x, i, j) == Choose(c0, c1, c2) &&
                D(x, i, j) == Plus(x[i - 1][j - 1], Pick(Trace(x, i, j), c0, c1, c2))
  {
  }

  // ----- paths

  predicate Step(a: Point, b: Point) {
    b == (a.0 + 1, a.1 + 1) || b == (a.0 + 1, a.1) || b == (a.0, a.1 + 1)
  }

  /** A monotone path from the first cell to cell `to`. */
  ghost predicate IsPath(p: seq<Point>, to: Point) {
    && |p| > 0 && p[0] == (0, 0) && p[|p| - 1] == to
    && forall k :: 0 < k < |p| ==> Step(p[k - 1], p[k])
  }

  lemma {:induction false} PathWithin(p: seq<Point>, to: Point, k: nat)
    requires IsPath(p, to) && k < |p|
    ensures p[k].0 <= to.0 && p[k].1 <= to.1
    decreases |p| - k
  {
    if k + 1 < |p| {
      PathWithin(p, to, k + 1);
      assert Step(p[k], p[k + 1]);
    }
  }

  ghost function PathSum(x: seq<seq<real>>, p: seq<Point>): real {
    if p == [] then 0.0
    else
      var (i, j) := p[|p| - 1];
      PathSum(x, p[..|p| - 1]) + if i < |x| && j < |x[i]| then x[i][j] else 0.0
  }

  lemma PathFront(p: seq<Point>, to: Point)
    requires IsPath(p, to) && |p| > 1
    ensures IsPath(p[..|p| - 1], p[|p| - 2]) && Step(p[|p| - 2], to)
  {
  }

  lemma PathSnoc(p: seq<Point>, to: Point, next: Point)
    requires IsPath(p, to) && Step(to, next)
    ensures IsPath(p + [next], next)
  {
  }

  // ----- the path traced back

  function Back(x: seq<seq<real>>, i: nat, j: nat): seq<Point>
    requires Rect(x) && i <= |x| && j <= |x[0]|
    decreases i + j
  {
    if i == 0 || j == 0 then []
    else
      var t := Trace(x, i, j);
      (if t == 0 then Back(x, i - 1, j - 1) else if t == 1 then Back(x, i - 1, j)
          else Back(x, i, j - 1)) + [(i - 1, j - 1)]
  }

  /** The traced path is a path, it fits the rows reserved for it, and its costs sum up to the
      final cell. */
  lemma {:induction false} BackPath(x: seq<seq<real>>, i: nat, j: nat)
    requires Rect(x) && 0 < i <= |x| && 0 < j <= |x[0]|
    ensures IsPath(Back(x, i, j), (i - 1, j - 1))
    ensures |Back(x, i, j)| <= i + j - 1
    ensures D(x, i, j) == Fin(PathSum(x, Back(x, i, j)))
    decreases i + j
  {
    hide D, Trace, Back;
    BackStep(x, i, j);
    BackCost(x, i, j);
    var i1, j1 := Before(x, i, j).0, Before(x, i, j).1;
    var p := Back(x, i1, j1);
    SumSnoc(x, p, (i - 1, j - 1));
    if i1 == 0 {
      BackCorner(x);
      Border(x);
      Inside(x, i, j);
    } else {
      BackPath(x, i1, j1);
      PathSnoc(p, (i1 - 1, j1 - 1), (i - 1, j - 1));
    }
  }

  /** The entry that the trace leads to. */
  function Before(x: seq<seq<real>>, i: nat, j: nat): Point
    requires Rect(x) && 0 < i <= |x| && 0 < j <= |x[0]|
  {
    var t := Trace(x, i, j);
    (if t == 2 then i else i - 1, if t == 1 then j else j - 1)
  }

  lemma BackStep(x: seq<seq<real>>, i: nat, j: nat)
    requires Rect(x) && 0 < i <= |x| && 0 < j <= |x[0]|
    ensures var (i1, j1) := Before(x, i, j);
            && 0 <= Trace(x, i, j) <= 2 && ((i1 > 0 && j1 > 0) || (i1 == 0 && j1 == 0 && i == 1 && j == 1))
            && i1 + j1 < i + j && (i1 > 0 ==> Step((i1 - 1, j1 - 1), (i - 1, j - 1)))
    ensures Back(x, i, j) == Back(x, Before(x, i, j).0, Before(x, i, j).1) + [(i - 1, j - 1)]
  {
    hide D, Trace, Back;
    Inside(x, i, j);
    Inner(x, i, j);
    BackUnfold(x, i, j);
  }

  lemma BackUnfold(x: seq<seq<real>>, i: nat, j: nat)
    requires Rect(x) && 0 < i <= |x| && 0 < j <= |x[0]|
    ensures Back(x, i, j) == Back(x, Before(x, i, j).0, Before(x, i, j).1) + [(i - 1, j - 1)]
  {
    hide D, Trace;
    Inner(x, i, j);
  }

  lemma BackCost(x: seq<seq<real>>, i: nat, j: nat)
    requires Rect(x) && 0 < i <= |x| && 0 < j <= |x[0]|
    ensures D(x, i, j) == Plus(x[i - 1][j - 1], D(x, Before(x, i, j).0, Before(x, i, j).1))
  {
    hide D, Trace;
    Inner(x, i, j);
  }

  lemma BackCorner(x: seq<seq<real>>)
    requires Rect(x)
    ensures Back(x, 0, 0) == []
  {
  }

  lemma SumSnoc(x: seq<seq<real>>, p: seq<Point>, a: Point)
    requires a.0 < |x| && a.1 < |x[a.0]|
    ensures PathSum(x, p + [a]) == PathSum(x, p) + x[a.0][a.1] && PathSum(x, []) == 0.0
  {
    assert (p + [a])[..|p|] == p;
  }

  // ----- optimal paths

  function Min(a: real, b: real): real {
    if a < b then a else b
  }

  /** The least cost of any path to cell (i, j). */
  function Opt(x: seq<seq<real>>, i: nat, j: nat): real
    requires Rect(x) && i < |x| && j < |x[0]|
  {
    x[i][j] +
    if i == 0 && j == 0 then 0.0
    else if i == 0 then Opt(x, i, j - 1)
    else if j == 0 then Opt(x, i - 1, j)
    else Min(Opt(x, i - 1, j - 1), Min(Opt(x, i - 1, j), Opt(x, i, j - 1)))
  }

  lemma {:induction false} OptLeast(x: seq<seq<real>>, p: seq<Point>, to: Point)
    requires Rect(x) && to.0 < |x| && to.1 < |x[0]| && IsPath(p, to)
    ensures Opt(x, to.0, to.1) <= PathSum(x, p)
    decreases |p|
  {
    if |p| == 1 {
      assert p[..0] == [];
      assert PathSum(x, []) == 0.0;
    } else {
      PathFront(p, to);
      PathWithin(p, to, |p| - 2);
      OptLeast(x, p[..|p| - 1], p[|p| - 2]);
    }
  }

  lemma {:induction false} OptAttained(x: seq<seq<real>>, i: nat, j: nat) returns (p: seq<Point>)
    requires Rect(x) && i < |x| && j < |x[0]|
    ensures IsPath(p, (i, j)) && PathSum(x, p) == Opt(x, i, j)
    decreases i + j
  {
    if i == 0 && j == 0 {
      p := [(0, 0)];
      assert p[..0] == [];
      assert PathSum(x, []) == 0.0;
      return;
    }
    var least := Opt(x, i, j) - x[i][j];
    var a, b;
    if i > 0 && (j == 0 || least == Opt(x, i - 1, j)) {
      a, b := i - 1, j;
    } else if j > 0 && (i == 0 || least == Opt(x, i, j - 1)) {
      a, b := i, j - 1;
    } else {
      a, b := i - 1, j - 1;
    }
    var q := OptAttained(x, a, b);
    PathSnoc(q, (a, b), (i, j));
    p := q + [(i, j)];
    assert p[..|p| - 1] == q;
  }

  /** The least cost is never missed from below. */
  lemma NeverBelow(x: seq<seq<real>>, i: nat, j: nat)
    requires Rect(x) && i < |x| && j < |x[0]|
    ensures D(x, i + 1, j + 1).Fin? && Opt(x, i, j) <= D(x, i + 1, j + 1).value
  {
    BackPath(x, i + 1, j + 1);
    OptLeast(x, Back(x, i + 1, j + 1), (i, j));
  }

  ghost predicate Optimal(x: seq<seq<real>>, i: nat, j: nat)
    requires Rect(x) && i < |x| && j < |x[0]|
  {
    D(x, i + 1, j + 1) == Fin(Opt(x, i, j))
  }

  /** The tie that the code resolves wrongly: both-back and row are equally good and better than
      column, but neither is strictly the best. */
  ghost predicate Tie(x: seq<seq<real>>, i: nat, j: nat)
    requires Rect(x) && 0 < i < |x| && 0 < j < |x[0]|
  {
    Opt(x, i - 1, j - 1) == Opt(x, i - 1, j) < Opt(x, i, j - 1)
  }

  ghost predicate NoTie(x: seq<seq<real>>, n: nat, m: nat)
    requires Rect(x) && n <= |x| && m <= |x[0]|
  {
    forall i, j :: 0 < i < n && 0 < j < m ==> !Tie(x, i, j)
  }

  ghost predicate AllOptimal(x: seq<seq<real>>, n: nat, m: nat)
    requires Rect(x) && n <= |x| && m <= |x[0]|
  {
    forall i, j :: 0 <= i < n && 0 <= j < m ==> Optimal(x, i, j)
  }

  lemma {:induction false} NoTieOptimal(x: seq<seq<real>>, i: nat, j: nat)
    requires Rect(x) && i < |x| && j < |x[0]| && NoTie(x, i + 1, j + 1)
    ensures Optimal(x, i, j)
    decreases i + j
  {
    hide D;
    Inner(x, i + 1, j + 1);
    Border(x);
    if i > 0 {
      NoTieOptimal(x, i - 1, j);
    }
    if j > 0 {
      NoTieOptimal(x, i, j - 1);
    }
    if i > 0 && j > 0 {
      NoTieOptimal(x, i - 1, j - 1);
      assert !Tie(x, i, j);
    }
  }

  /** The least cost is found for every corner of a rectangle exactly when it has no such tie. */
  lemma OptimalIffNoTie(x: seq<seq<real>>, n: nat, m: nat)
    requires Rect(x) && n <= |x| && m <= |x[0]|
    ensures AllOptimal(x, n, m) <==> NoTie(x, n, m)
  {
    if NoTie(x, n, m) {
      forall i, j | 0 <= i < n && 0 <= j < m
        ensures Optimal(x, i, j)
      {
        NoTieOptimal(x, i, j);
      }
    }
    if AllOptimal(x, n, m) {
      forall i, j | 0 < i < n && 0 < j < m
        ensures !Tie(x, i, j)
      {
        assert Optimal(x, i, j) && Optimal(x, i - 1, j - 1) && Optimal(x, i - 1, j) && Optimal(x, i, j - 1);
      }
    }
  }

  /** Without such a tie the traced path is the cheapest of all paths. */
  lemma BackCheapest(x: seq<seq<real>>, p: seq<Point>)
    requires Rect(x) && NoTie(x, |x|, |x[0]|) && IsPath(p, (|x| - 1, |x[0]| - 1))
    ensures PathSum(x, Back(x, |x|, |x[0]|)) <= PathSum(x, p)
  {
    NoTieOptimal(x, |x| - 1, |x[0]| - 1);
    BackPath(x, |x|, |x[0]|);
    OptLeast(x, p, (|x| - 1, |x[0]| - 1));
  }

  /** With one it need not be: the code goes through the cell of cost 1. */
  lemma TieIsCostly()
    ensures var x := [[0.0, 0.0], [1.0, 0.0]];
            Rect(x) && Tie(x, 1, 1) && D(x, 2, 2) == Fin(1.0) && Opt(x, 1, 1) == 0.0
  {
    var x := [[0.0, 0.0], [1.0, 0.0]];
    assert D(x, 1, 1) == Fin(0.0);
    assert D(x, 1, 2) == Fin(0.0);
    assert D(x, 2, 1) == Fin(1.0);
    assert Opt(x, 0, 0) == 0.0;
    assert Opt(x, 0, 1) == 0.0;
    assert Opt(x, 1, 0) == 1.0;
  }

  // ----- the methods

  method FillTables(x: seq<seq<real>>) returns (trace: array2<int>, cost: array2<Cost>)
    requires Rect(x)
    ensures fresh(trace) && trace.Length0 == |x| + 1 && trace.Length1 == |x[0]| + 1
    ensures cost.Length0 == |x| + 1 && cost.Length1 == |x[0]| + 1
    ensures forall i, j :: 0 <= i <= |x| && 0 <= j <= |x[0]| ==> cost[i, j] == D(x, i, j)
    ensures forall i, j :: 0 < i <= |x| && 0 < j <= |x[0]| ==> trace[i, j] == Trace(x, i, j)
  {
    hide Plus, D, Trace, Less;
    Border(x);
    var n, m := |x|, |x[0]|;
    cost := new Cost[n + 1, m + 1]((_, _) => Inf);
    trace := new int[n + 1, m + 1]((_, _) => -1);
    cost[0, 0] := Fin(0.0);
    for j := 1 to m + 1
      modifies cost, trace
      invariant forall a, b :: 0 <= a <= n && 0 <= b <= m && (a == 0 || b < j) ==> cost[a, b] == D(x, a, b)
      invariant forall a, b :: 0 <= a <= n && j <= b <= m ==> cost[a, b] == Inf
      invariant forall a, b :: 0 < a <= n && 0 < b < j ==> trace[a, b] == Trace(x, a, b)
    {
      for i := 1 to n + 1
        modifies cost, trace
        invariant forall a, b :: 0 <= a <= n && 0 <= b <= m && (a == 0 || b < j || (b == j && a < i)) ==>
                    cost[a, b] == D(x, a, b)
        invariant forall a, b :: 0 <= a <= n && j < b <= m ==> cost[a, b] == Inf
        invariant forall a, b :: 0 < a <= n && 0 < b <= j && (b < j || a < i) ==> trace[a, b] == Trace(x, a, b)
      {
        var c0, c1, c2 := cost[i - 1, j - 1], cost[i - 1, j], cost[i, j - 1];
        var c, t;
        if Less(c0, c1) && Less(c0, c2) {
          c, t := c0, 0;
        } else if Less(c1, c0) && Less(c1, c2) {
          c, t := c1, 1;
        } else {
          c, t := c2, 2;
        }
        Inner(x, i, j);
        cost[i, j] := Plus(x[i - 1][j - 1], c);
        trace[i, j] := t;
      }
    }
  }

  /** The trace table inside its border. */
  ghost predicate Traced(x: seq<seq<real>>, trace: array2<int>)
    requires Rect(x)
    reads trace
  {
    && trace.Length0 == |x| + 1 && trace.Length1 == |x[0]| + 1
    && forall i, j :: 0 < i <= |x| && 0 < j <= |x[0]| ==> trace[i, j] == Trace(x, i, j)
  }

  method SetBorder(x: seq<seq<real>>, trace: array2<int>)
    requires Rect(x) && Traced(x, trace)
    modifies trace
    ensures Traced(x, trace)
  {
    hide Trace;
    for i := 0 to trace.Length1
      invariant Traced(x, trace)
    {
      trace[0, i] := 2;
    }
    for i := 0 to trace.Length0
      invariant Traced(x, trace)
    {
      trace[i, 0] := 1;
    }
  }

  /** Write the path into the last rows of `bt`: the cells before `row` are left free. */
  method Walk(x: seq<seq<real>>, trace: array2<int>, bt: array2<int>) returns (free: nat)
    requires Rect(x) && Traced(x, trace) && bt.Length0 == |x| + |x[0]| - 1 && bt.Length1 == 2 && bt != trace
    modifies bt
    ensures free + |Back(x, |x|, |x[0]|)| == bt.Length0
    ensures forall k :: free <= k < bt.Length0 ==> (bt[k, 0], bt[k, 1]) == Back(x, |x|, |x[0]|)[k - free]
  {
    hide Trace, Back;
    var i, j := |x|, |x[0]|;
    ghost var path := Back(x, i, j);
    free := bt.Length0;
    while i > 0 || j > 0
      invariant i <= |x| && j <= |x[0]| && ((i > 0 && j > 0) || (i == 0 && j == 0))
      invariant free <= bt.Length0 && (i > 0 ==> i + j - 1 <= free)
      invariant |Back(x, i, j)| + (bt.Length0 - free) == |path| && Back(x, i, j) == path[..|Back(x, i, j)|]
      invariant forall k :: free <= k < bt.Length0 ==> (bt[k, 0], bt[k, 1]) == path[|Back(x, i, j)| + k - free]
      decreases i + j
    {
      BackStep(x, i, j);
      free := free - 1;
      bt[free, 0] := i - 1;
      bt[free, 1] := j - 1;
      var t := trace[i, j];
      if t == 0 {
        i, j := i - 1, j - 1;
      } else if t == 1 {
        i := i - 1;
      } else {
        j := j - 1;
      }
    }
    BackCorner(x);
  }

  /** The alignment: its columns are the points of the traced path. */
  method DtwAndBacktrace(x: seq<seq<real>>) returns (r: array2<int>)
    requires Rect(x)
    ensures r.Length0 == 2 && r.Length1 == |Back(x, |x|, |x[0]|)|
    ensures forall k :: 0 <= k < r.Length1 ==> (r[0, k], r[1, k]) == Back(x, |x|, |x[0]|)[k]
  {
    hide Trace, Back, D;
    var trace, cost := FillTables(x);
    var bt := new int[|x| + |x[0]| - 1, 2];
    SetBorder(x, trace);
    var free := Walk(x, trace, bt);
    var cols := bt.Length0 - free;
    r := new int[2, cols];
    for i := 0 to 2
      modifies r
      invariant forall a, k :: 0 <= a < i && 0 <= k < cols ==> r[a, k] == bt[free + k, a]
    {
      for k := 0 to cols
        modifies r
        invariant forall a, l :: 0 <= a < i && 0 <= l < cols ==> r[a, l] == bt[free + l, a]
        invariant forall l :: 0 <= l < k ==> r[i, l] == bt[free + l, i]
      {
        r[i, k] := bt[free + k, i];
      }
    }
    forall k | 0 <= k < cols
      ensures (r[0, k], r[1, k]) == Back(x, |x|, |x[0]|)[k]
    {
      assert (bt[free + k, 0], bt[free + k, 1]) == Back(x, |x|, |x[0]|)[free + k - free];
    }
  }
}
