/** Floor 1 of a Vorbis packet: unwrapping the curve and drawing it (sections 7.2.4, 9.2.6 and 9.2.7
    of the Vorbis I specification). */
module Floor {
  import opened Arith

  function Abs(a: int): nat {
    if a < 0 then -a else a
  }

  /** Division as the machine does it: towards zero. */
  function Quot(a: int, b: int): int
    requires b > 0
  {
    if a < 0 then -((-a) / b) else a / b
  }

  function Range(mult: nat): (r: nat)
    requires 1 <= mult <= 4
    ensures (r - 1) * mult < 256 <= r * mult
  {
    if mult == 1 then 256 else if mult == 2 then 128 else if mult == 3 then 86 else 64
  }

  // ----- neighbours

  /** The nearest earlier points on both sides of point `n`, where there are any. */
  method Neighbors(x: seq<nat>, n: nat, low0: nat, high0: nat) returns (low: nat, high: nat)
    requires n < |x| && forall i :: 0 <= i <= n ==> x[i] < 65536
    ensures if exists i :: 0 <= i < n && x[i] < x[n]
            then low < n && x[low] < x[n] && forall i :: 0 <= i < n && x[i] < x[n] ==> x[i] <= x[low]
            else low == low0
    ensures if exists i :: 0 <= i < n && x[i] > x[n]
            then high < n && x[high] > x[n] && forall i :: 0 <= i < n && x[i] > x[n] ==> x[i] >= x[high]
            else high == high0
  {
    low, high := low0, high0;
    var below: int, above: int := -1, 65536;
    for i := 0 to n
      invariant if exists k :: 0 <= k < i && x[k] < x[n]
                then low < i && x[low] == below < x[n] && forall k :: 0 <= k < i && x[k] < x[n] ==> x[k] <= below
                else low == low0 && below == -1
      invariant if exists k :: 0 <= k < i && x[k] > x[n]
                then high < i && x[high] == above > x[n] && forall k :: 0 <= k < i && x[k] > x[n] ==> x[k] >= above
                else high == high0 && above == 65536
    {
      if x[i] > below && x[i] < x[n] {
        low, below := i, x[i];
      }
      if x[i] < above && x[i] > x[n] {
        high, above := i, x[i];
      }
    }
  }

  /** The points of a floor: the two ends first, all others between them. */
  ghost predicate PointsOk(x: seq<nat>) {
    && |x| >= 2 && x[0] == 0 && 0 < x[1] < 65536
    && (forall i :: 2 <= i < |x| ==> x[i] < x[1])
    && (forall i, j :: 0 <= i < j < |x| ==> x[i] != x[j])
  }

  /** Both neighbours of every point but the ends come earlier and enclose it. */
  ghost predicate Encloses(x: seq<nat>, nb: seq<(nat, nat)>) {
    && |nb| == |x|
    && forall j :: 2 <= j < |x| ==> nb[j].0 < j && nb[j].1 < j && x[nb[j].0] < x[j] < x[nb[j].1]
  }

  /** The neighbours of point `j` come earlier and enclose it, and no earlier point lies between. */
  ghost predicate Near(x: seq<nat>, j: nat, low: nat, high: nat)
    requires j < |x|
  {
    && low < j && high < j && x[low] < x[j] < x[high]
    && forall i :: 0 <= i < j ==> (x[i] < x[j] ==> x[i] <= x[low]) && (x[i] > x[j] ==> x[i] >= x[high])
  }

  method AllNeighbors(x: seq<nat>) returns (nb: seq<(nat, nat)>)
    requires PointsOk(x)
    ensures Encloses(x, nb) && forall j :: 2 <= j < |x| ==> Near(x, j, nb[j].0, nb[j].1)
  {
    hide Near;
    nb := [(0, 0), (0, 0)];
    for j := 2 to |x|
      invariant |nb| == j && forall k :: 2 <= k < j ==> Near(x, k, nb[k].0, nb[k].1)
    {
      var low, high := NearPoint(x, j);
      nb := nb + [(low, high)];
    }
    forall j | 2 <= j < |x|
      ensures nb[j].0 < j && nb[j].1 < j && x[nb[j].0] < x[j] < x[nb[j].1]
    {
      NearEncloses(x, j, nb[j].0, nb[j].1);
    }
  }

  method NearPoint(x: seq<nat>, j: nat) returns (low: nat, high: nat)
    requires PointsOk(x) && 2 <= j < |x|
    ensures Near(x, j, low, high)
  {
    assert x[0] < x[j] && x[1] > x[j];
    low, high := Neighbors(x, j, 0, 0);
  }

  lemma NearEncloses(x: seq<nat>, j: nat, low: nat, high: nat)
    requires j < |x| && Near(x, j, low, high)
    ensures low < j && high < j && x[low] < x[j] < x[high]
  {
  }

  // ----- prediction

  /** The point above `x` on the line from (x0, y0) to (x1, y1). */
  function PredictPoint(x: int, x0: int, x1: int, y0: int, y1: int): int
    requires x0 < x1
  {
    var dy := y1 - y0;
    var off := Quot(Abs(dy) * (x - x0), x1 - x0);
    if dy < 0 then y0 - off else y0 + off
  }

  /** Between the ends of the line its points are between the heights of the ends. */
  lemma PredictBetween(x: int, x0: int, x1: int, y0: int, y1: int)
    requires x0 < x1 && x0 <= x <= x1
    ensures var y := PredictPoint(x, x0, x1, y0, y1);
            if y0 <= y1 then y0 <= y <= y1 else y1 <= y <= y0
  {
    var a := Abs(y1 - y0);
    MulMonotone(x - x0, x1 - x0, a);
    DivBound(a * (x - x0), x1 - x0, a);
  }

  /** They are on the exact line but for the part of a step that is cut off. */
  lemma PredictOnLine(x: int, x0: int, x1: int, y0: int, y1: int)
    requires x0 < x1 && x0 <= x <= x1
    ensures var exact, drawn := (y1 - y0) * (x - x0), (PredictPoint(x, x0, x1, y0, y1) - y0) * (x1 - x0);
            if y0 <= y1 then drawn <= exact < drawn + (x1 - x0) else drawn - (x1 - x0) < exact <= drawn
  {
    hide Quot;
    var dy, k, adx := y1 - y0, x - x0, x1 - x0;
    var a := Abs(dy) * k;
    assert a >= 0 && dy * k == if dy < 0 then -a else a;
    var off := Quot(a, adx);
    QuotRem(a, adx);
    assert -off * adx == -(off * adx);
    assert PredictPoint(x, x0, x1, y0, y1) - y0 == if dy < 0 then -off else off;
  }

  lemma QuotRem(a: int, b: int)
    requires a >= 0 && b > 0
    ensures Quot(a, b) * b <= a < Quot(a, b) * b + b
  {
    assert a == a / b * b + a % b;
  }

  // ----- unwrapping

  /** The height that a decoded value stands for, given its prediction. */
  function Unwrap(range: int, pred: int, val: int): int {
    var highroom, lowroom := range - pred, pred;
    var room := if highroom < lowroom then highroom * 2 else lowroom * 2;
    if val == 0 then pred
    else if val >= room then
      if highroom > lowroom then val - lowroom + pred else pred - val + highroom - 1
    else if val % 2 == 1 then pred - (val + 1) / 2 else pred + val / 2
  }

  /** The decoded value that stands for a height. */
  function Wrap(range: int, pred: int, y: int): int {
    var highroom, lowroom := range - pred, pred;
    if highroom > lowroom then
      (if y >= 2 * pred then y else if y < pred then 2 * (pred - y) - 1 else 2 * (y - pred))
    else
      (if y < pred - highroom then range - 1 - y else if y < pred then 2 * (pred - y) - 1 else 2 * (y - pred))
  }

  /** Unwrapping is a bijection of the heights, and leaves them only for a value that is out of range. */
  lemma UnwrapBijective(range: int, pred: int, val: int)
    requires 0 <= pred < range && 0 <= val
    ensures 0 <= Unwrap(range, pred, val) < range <==> val < range
    ensures val < range ==> Wrap(range, pred, Unwrap(range, pred, val)) == val
  {
    assert val % 2 == 1 ==> (val + 1) / 2 * 2 == val + 1;
  }

  /** Small values alternate: an odd one is below the prediction, an even one above. Once the smaller side is
      used up, values count on from the end of the larger one. */
  lemma UnwrapAlternates(range: int, pred: int, k: int)
    requires 0 <= pred < range && k > 0
    ensures k <= pred && k <= range - pred ==> Unwrap(range, pred, 2 * k - 1) == pred - k
    ensures k < pred && k < range - pred ==> Unwrap(range, pred, 2 * k) == pred + k
    ensures 2 * pred <= k && pred < range - pred ==> Unwrap(range, pred, k) == k
    ensures 2 * (range - pred) <= k && range - pred <= pred ==> Unwrap(range, pred, k) == range - 1 - k
    ensures Unwrap(range, pred, 0) == pred
  {
  }

  lemma WrapBijective(range: int, pred: int, y: int)
    requires 0 <= pred < range && 0 <= y < range
    ensures 0 <= Wrap(range, pred, y) < range && Unwrap(range, pred, Wrap(range, pred, y)) == y
  {
    if y < pred {
      assert (2 * (pred - y) - 1) % 2 == 1;
    }
  }

  ghost predicate InRange(s: seq<int>, range: int) {
    forall i :: 0 <= i < |s| ==> 0 <= s[i] < range
  }

  /** What the neighbours predict for point `j`. */
  function Pred(x: seq<nat>, nb: seq<(nat, nat)>, y: seq<int>, j: nat): int
    requires Encloses(x, nb) && 2 <= j < |x| && j <= |y|
  {
    PredictPoint(x[j], x[nb[j].0], x[nb[j].1], y[nb[j].0], y[nb[j].1])
  }

  lemma PredInRange(x: seq<nat>, nb: seq<(nat, nat)>, y: seq<int>, j: nat, range: int)
    requires Encloses(x, nb) && 2 <= j < |x| && j <= |y| && InRange(y[..j], range)
    ensures 0 <= Pred(x, nb, y, j) < range
  {
    var lo, hi := nb[j].0, nb[j].1;
    assert y[..j][lo] == y[lo] && y[..j][hi] == y[hi];
    PredictBetween(x[j], x[lo], x[hi], y[lo], y[hi]);
  }

  /** The heights of the first `n` points, from the decoded values. */
  ghost function Curve(x: seq<nat>, nb: seq<(nat, nat)>, range: int, v: seq<int>, n: nat): (y: seq<int>)
    requires Encloses(x, nb) && |v| == |x| && n <= |x|
    ensures |y| == n
  {
    if n <= 2 then v[..n]
    else
      var y := Curve(x, nb, range, v, n - 1);
      y + [Unwrap(range, Pred(x, nb, y, n - 1), v[n - 1])]
  }

  /** The decoded values of the first `n` points, from the heights. */
  ghost function Values(x: seq<nat>, nb: seq<(nat, nat)>, range: int, y: seq<int>, n: nat): (v: seq<int>)
    requires Encloses(x, nb) && |y| == |x| && n <= |x|
    ensures |v| == n
  {
    if n <= 2 then y[..n]
    else Values(x, nb, range, y, n - 1) + [Wrap(range, Pred(x, nb, y, n - 1), y[n - 1])]
  }

  lemma PredPrefix(x: seq<nat>, nb: seq<(nat, nat)>, y: seq<int>, z: seq<int>, j: nat)
    requires Encloses(x, nb) && 2 <= j < |x| && j <= |y| && j <= |z| && y[..j] == z[..j]
    ensures Pred(x, nb, y, j) == Pred(x, nb, z, j)
  {
    var lo, hi := nb[j].0, nb[j].1;
    assert y[..j][lo] == z[..j][lo] && y[..j][hi] == z[..j][hi];
  }

  /** Values in range give heights in range. */
  lemma {:induction false} CurveInRange(x: seq<nat>, nb: seq<(nat, nat)>, range: int, v: seq<int>, n: nat)
    requires Encloses(x, nb) && |v| == |x| && n <= |x| && InRange(v, range)
    ensures InRange(Curve(x, nb, range, v, n), range)
  {
    hide Unwrap, Pred;
    if n > 2 {
      CurveInRange(x, nb, range, v, n - 1);
      var y := Curve(x, nb, range, v, n - 1);
      assert y[..n - 1] == y;
      PredInRange(x, nb, y, n - 1, range);
      UnwrapBijective(range, Pred(x, nb, y, n - 1), v[n - 1]);
    }
  }

  /** Every curve in range has its values, and they give the curve back. */
  lemma {:induction false} CurveOfValues(x: seq<nat>, nb: seq<(nat, nat)>, range: int, y: seq<int>, v: seq<int>, n: nat)
    requires Encloses(x, nb) && |y| == |v| == |x| && n <= |x| && InRange(y, range)
    requires v[..n] == Values(x, nb, range, y, n)
    ensures InRange(v[..n], range) && Curve(x, nb, range, v, n) == y[..n]
  {
    hide Unwrap, Wrap, Pred;
    if n > 2 {
      var m := n - 1;
      assert v[..n] == v[..m] + [v[m]];
      CurveOfValues(x, nb, range, y, v, m);
      assert InRange(y[..m], range);
      PredInRange(x, nb, y, m, range);
      WrapBijective(range, Pred(x, nb, y, m), y[m]);
      assert y[..m][..m] == y[..m];
      PredPrefix(x, nb, y, y[..m], m);
      assert y[..n] == y[..m] + [y[m]];
    }
  }

  /** Different values give different curves. */
  lemma {:induction false} ValuesOfCurve(x: seq<nat>, nb: seq<(nat, nat)>, range: int, v: seq<int>, y: seq<int>, n: nat)
    requires Encloses(x, nb) && |y| == |v| == |x| && n <= |x| && InRange(v, range)
    requires y[..n] == Curve(x, nb, range, v, n)
    ensures Values(x, nb, range, y, n) == v[..n]
  {
    hide Unwrap, Wrap, Pred;
    if n > 2 {
      var m := n - 1;
      var c := Curve(x, nb, range, v, m);
      assert y[..n] == y[..m] + [y[m]];
      assert y[..m] == c;
      ValuesOfCurve(x, nb, range, v, y, m);
      CurveInRange(x, nb, range, v, m);
      PredInRange(x, nb, y, m, range);
      assert c[..m] == y[..m];
      PredPrefix(x, nb, c, y, m);
      UnwrapBijective(range, Pred(x, nb, y, m), v[m]);
      assert v[..n] == v[..m] + [v[m]];
    }
  }

  /** Point `j` is to be drawn: it is an end, it differs from its prediction, or a later point that
      does so leans on it. */
  ghost predicate Drawn(nb: seq<(nat, nat)>, v: seq<int>, n: nat, j: nat)
    requires n <= |nb| == |v| && j < |v|
  {
    j < 2 || (j < n && v[j] != 0) || exists k :: 2 <= k < n && v[k] != 0 && (nb[k].0 == j || nb[k].1 == j)
  }

  lemma DrawnEnds(nb: seq<(nat, nat)>, v: seq<int>)
    requires |nb| == |v| >= 2
    ensures Drawn(nb, v, 2, 0) && Drawn(nb, v, 2, 1)
  {
  }

  lemma DrawnStep(nb: seq<(nat, nat)>, v: seq<int>, j: nat)
    requires 2 <= j < |nb| == |v| && forall k :: 2 <= k < |nb| ==> nb[k].0 < k && nb[k].1 < k
    ensures Drawn(nb, v, j + 1, j) <==> v[j] != 0
    ensures forall k :: 0 <= k < j ==>
              (Drawn(nb, v, j + 1, k) <==> Drawn(nb, v, j, k) || (v[j] != 0 && (nb[j].0 == k || nb[j].1 == k)))
  {
    forall k | 0 <= k < j
      ensures Drawn(nb, v, j + 1, k) <==> Drawn(nb, v, j, k) || (v[j] != 0 && (nb[j].0 == k || nb[j].1 == k))
    {
      if v[j] != 0 && (nb[j].0 == k || nb[j].1 == k) {
        assert Drawn(nb, v, j + 1, k);
      } else if Drawn(nb, v, j + 1, k) && 2 <= k && v[k] == 0 {
        var i :| 2 <= i < j + 1 && v[i] != 0 && (nb[i].0 == k || nb[i].1 == k);
        assert i < j;
      }
    }
  }

  method UnwrapPoint(range: int, pred: int, val: int) returns (y: int)
    ensures y == Unwrap(range, pred, val)
  {
    var highroom, lowroom := range - pred, pred;
    var room := if highroom < lowroom then highroom * 2 else lowroom * 2;
    if val != 0 {
      if val >= room {
        if highroom > lowroom {
          y := val - lowroom + pred;
        } else {
          y := pred - val + highroom - 1;
        }
      } else if val % 2 == 1 {
        y := pred - (val + 1) / 2;
      } else {
        y := pred + val / 2;
      }
    } else {
      y := pred;
    }
  }

  /** Point `j` and, if it differs from its prediction, the points it leans on. */
  method Mark(nb: seq<(nat, nat)>, ghost v: seq<int>, step2: array<bool>, j: nat, differs: bool)
    requires 2 <= j < |nb| == |v| == step2.Length && forall k :: 2 <= k < |nb| ==> nb[k].0 < k && nb[k].1 < k
    requires (differs <==> v[j] != 0) && forall k :: 0 <= k < j ==> (step2[k] <==> Drawn(nb, v, j, k))
    modifies step2
    ensures forall k :: 0 <= k < j + 1 ==> (step2[k] <==> Drawn(nb, v, j + 1, k))
  {
    hide Drawn;
    ghost var was := step2[..];
    if differs {
      step2[nb[j].0] := true;
      step2[nb[j].1] := true;
      step2[j] := true;
    } else {
      step2[j] := false;
    }
    DrawnStep(nb, v, j);
    forall k | 0 <= k < j
      ensures step2[k] <==> Drawn(nb, v, j + 1, k)
    {
      assert was[k] <==> Drawn(nb, v, j, k);
    }
  }

  method UnwrapFloor(x: seq<nat>, nb: seq<(nat, nat)>, range: int, finalY: array<int>) returns (step2: array<bool>)
    requires Encloses(x, nb) && finalY.Length == |x| >= 2
    modifies finalY
    ensures finalY[..] == Curve(x, nb, range, old(finalY[..]), |x|)
    ensures fresh(step2) && step2.Length == |x|
    ensures forall j :: 0 <= j < |x| ==> (step2[j] <==> Drawn(nb, old(finalY[..]), |x|, j))
  {
    hide PredictPoint, Unwrap, Drawn;
    ghost var v := finalY[..];
    step2 := new bool[|x|](_ => false);
    step2[0], step2[1] := true, true;
    assert finalY[..2] == v[..2];
    DrawnEnds(nb, v);
    for j := 2 to |x|
      modifies finalY, step2
      invariant finalY[..j] == Curve(x, nb, range, v, j) && forall k :: j <= k < |x| ==> finalY[k] == v[k]
      invariant forall k :: 0 <= k < j ==> (step2[k] <==> Drawn(nb, v, j, k))
    {
      ghost var y := Curve(x, nb, range, v, j);
      var low, high := nb[j].0, nb[j].1;
      assert finalY[low] == finalY[..j][low] && finalY[high] == finalY[..j][high];
      var pred := PredictPoint(x[j], x[low], x[high], finalY[low], finalY[high]);
      var val := finalY[j];
      Mark(nb, v, step2, j, val != 0);
      finalY[j] := UnwrapPoint(range, pred, val);
      assert finalY[j] == Unwrap(range, Pred(x, nb, y, j), v[j]);
      assert finalY[..j + 1] == finalY[..j] + [finalY[j]];
      assert finalY[..j] == y;
    }
    assert finalY[..] == finalY[..|x|];
  }

  // ----- drawing

  /** What drawing does to a number of the spectrum. */
  function Times(a: real, factor: real): real {
    a * factor
  }

  /** Draw the line from (x0, y0) up to x1: every point gets the factor at the height that the
      closed form gives for it. */
  method DrawLine(output: array<real>, x0: nat, y0: int, x1: nat, y1: int, n: nat, table: seq<real>)
    requires x0 < x1 && n <= output.Length && |table| == 256
    modifies output
    ensures forall x :: x0 <= x < x1 && x < n ==>
              output[x] == Times(old(output[x]), table[PredictPoint(x, x0, x1, y0, y1) % 256])
    ensures forall x :: 0 <= x < output.Length && !(x0 <= x < x1 && x < n) ==> output[x] == old(output[x])
  {
    hide Times, PredictPoint, OnLine, Quot, Abs;
    var dy, adx := y1 - y0, x1 - x0;
    var base := Quot(dy, adx);
    var sy := if dy < 0 then base - 1 else base + 1;
    var ady := Abs(dy) - Abs(base) * adx;
    var end := if x1 > n then n else x1;
    var x, y, err := x0, y0, 0;
    if x < end {
      LineStart(x0, y0, x1, y1);
      LineClosed(x0, y0, x1, y1, x, y, err);
      output[x] := Times(output[x], table[y % 256]);
      x := x + 1;
      while x < end
        invariant x0 < x <= end && OnLine(x0, y0, x1, y1, x - 1, y, err)
        invariant forall k :: x0 <= k < x ==>
                    output[k] == Times(old(output[k]), table[PredictPoint(k, x0, x1, y0, y1) % 256])
        invariant forall k :: 0 <= k < output.Length && !(x0 <= k < x) ==> output[k] == old(output[k])
      {
        LineStep(x0, y0, x1, y1, x - 1, y, err);
        err := err + ady;
        if err >= adx {
          err := err - adx;
          y := y + sy;
        } else {
          y := y + base;
        }
        LineClosed(x0, y0, x1, y1, x, y, err);
        output[x] := Times(output[x], table[y % 256]);
        x := x + 1;
      }
    }
  }

  /** The state of the drawing at `x`: the line has gone up or down `base` with every step and one
      more with `carry` of them, and `err` is what is left over. */
  ghost predicate OnLine(x0: nat, y0: int, x1: nat, y1: int, x: nat, y: int, err: int)
    requires x0 < x1 && x0 <= x
  {
    var dy, adx, k := y1 - y0, x1 - x0, x - x0;
    var base: int := Abs(dy) / adx;
    0 <= err < adx &&
    exists carry :: Carried(Abs(dy) - base * adx, k, carry, adx, err) && y == LineHeight(y0, dy, base, k, carry)
  }

  ghost predicate Carried(ady: int, k: int, carry: int, adx: int, err: int) {
    ady * k == carry * adx + err
  }

  ghost function LineHeight(y0: int, dy: int, base: int, k: int, carry: int): int {
    if dy < 0 then y0 - (base * k + carry) else y0 + (base * k + carry)
  }

  /** The slope as the code computes it. */
  lemma Slope(dy: int, adx: nat)
    requires adx > 0
    ensures Quot(dy, adx) == (if dy < 0 then -(Abs(dy) / adx) else Abs(dy) / adx) && Abs(Quot(dy, adx)) == Abs(dy) / adx
    ensures 0 <= Abs(dy) - Abs(dy) / adx * adx < adx
  {
    var a := Abs(dy);
    assert a == a / adx * adx + a % adx;
    MulMonotone(1, adx, a);
    DivBound(a, adx, a);
  }

  lemma LineStart(x0: nat, y0: int, x1: nat, y1: int)
    requires x0 < x1
    ensures OnLine(x0, y0, x1, y1, x0, y0, 0)
  {
    var dy, adx := y1 - y0, x1 - x0;
    Slope(dy, adx);
    var base := Abs(dy) / adx;
    assert Carried(Abs(dy) - base * adx, 0, 0, adx, 0);
    assert LineHeight(y0, dy, base, 0, 0) == y0;
  }

  lemma CarryStep(ady: int, k: int, carry: int, adx: int, err: int)
    requires Carried(ady, k, carry, adx, err)
    ensures Carried(ady, k + 1, carry, adx, err + ady) && Carried(ady, k + 1, carry + 1, adx, err + ady - adx)
  {
    assert ady * (k + 1) == ady * k + ady;
    assert (carry + 1) * adx == carry * adx + adx;
  }

  lemma HeightStep(y0: int, dy: int, base: int, k: int, carry: int)
    ensures LineHeight(y0, dy, base, k + 1, carry) == LineHeight(y0, dy, base, k, carry) + (if dy < 0 then -base
            else base)
    ensures LineHeight(y0, dy, base, k + 1, carry + 1) == LineHeight(y0, dy, base, k, carry) + (if dy < 0 then
            -base - 1 else base + 1)
  {
    assert base * (k + 1) == base * k + base;
  }

  lemma LineStep(x0: nat, y0: int, x1: nat, y1: int, x: nat, y: int, err: int)
    requires x0 < x1 && x0 <= x && OnLine(x0, y0, x1, y1, x, y, err)
    ensures var dy, adx := y1 - y0, x1 - x0;
            var base := Quot(dy, adx);
            var err1 := err + (Abs(dy) - Abs(base) * adx);
            if err1 >= adx then OnLine(x0, y0, x1, y1, x + 1, y + (if dy < 0 then base - 1 else base + 1), err1 - adx)
            else OnLine(x0, y0, x1, y1, x + 1, y + base, err1)
  {
    hide Carried, LineHeight, Quot, Abs;
    var dy, adx, k := y1 - y0, x1 - x0, x - x0;
    Slope(dy, adx);
    var base := Abs(dy) / adx;
    var ady := Abs(dy) - base * adx;
    var carry :| Carried(ady, k, carry, adx, err) && y == LineHeight(y0, dy, base, k, carry);
    CarryStep(ady, k, carry, adx, err);
    HeightStep(y0, dy, base, k, carry);
    if err + ady >= adx {
      assert Carried(ady, k + 1, carry + 1, adx, err + ady - adx);
    } else {
      assert Carried(ady, k + 1, carry, adx, err + ady);
    }
  }

  /** On the line the height is that of the closed form. */
  lemma LineClosed(x0: nat, y0: int, x1: nat, y1: int, x: nat, y: int, err: int)
    requires x0 < x1 && x0 <= x && OnLine(x0, y0, x1, y1, x, y, err)
    ensures PredictPoint(x, x0, x1, y0, y1) == y
  {
    var adx, k := x1 - x0, x - x0;
    var a := Abs(y1 - y0);
    var base := a / adx;
    var carry :| Carried(a - base * adx, k, carry, adx, err) && y == LineHeight(y0, y1 - y0, base, k, carry);
    assert a * k == (base * k + carry) * adx + err by {
      assert (a - base * adx) * k == a * k - base * adx * k;
      assert base * adx * k == base * k * adx;
      assert (base * k + carry) * adx == base * k * adx + carry * adx;
    }
    assert a * k >= 0;
    ModUnique(a * k, adx, base * k + carry, err);
  }

  // ----- the whole floor

  /** The points in the order of their places. */
  ghost predicate Ordered(x: seq<nat>, order: seq<nat>) {
    && |order| == |x| > 0 && x[0] == 0 && order[0] == 0
    && (forall q :: 0 <= q < |order| ==> order[q] < |x|)
    && (forall p, q :: 0 <= p < q < |order| ==> x[order[p]] < x[order[q]])
  }

  /** The points that are left out have a negative height. */
  ghost predicate HeightsOk(y: seq<int>, mult: nat)
    requires 1 <= mult <= 4
  {
    |y| > 0 && y[0] >= 0 && forall j :: 0 <= j < |y| ==> -1 <= y[j] < Range(mult)
  }

  /** The last of the first `q` places whose point is drawn. */
  ghost function Last(order: seq<nat>, y: seq<int>, q: nat): (l: nat)
    requires 1 <= q <= |order| && (forall p :: 0 <= p < |order| ==> order[p] < |y|) && y[order[0]] >= 0
    ensures l < q && y[order[l]] >= 0 && forall p :: l < p < q ==> y[order[p]] < 0
  {
    if q == 1 || y[order[q - 1]] >= 0 then q - 1 else Last(order, y, q - 1)
  }

  /** The height at `px` of the line through the drawn points among the first `q` places, and level
      after the last of them. */
  ghost function Height(x: seq<nat>, order: seq<nat>, y: seq<int>, mult: nat, q: nat, px: nat): int
    requires Ordered(x, order) && |y| == |x| && y[0] >= 0 && 1 <= q <= |order|
  {
    var j := order[q - 1];
    if q == 1 then y[j] * mult
    else if y[j] < 0 then Height(x, order, y, mult, q - 1, px)
    else if px >= x[j] then y[j] * mult
    else
      var l := order[Last(order, y, q - 1)];
      if px >= x[l] then PredictPoint(px, x[l], x[j], y[l] * mult, y[j] * mult)
      else Height(x, order, y, mult, q - 1, px)
  }

  lemma Scaled(y: int, mult: nat)
    requires 1 <= mult <= 4 && 0 <= y < Range(mult)
    ensures 0 <= y * mult < 256
  {
  }

  /** The height is an index into the table of 256 factors. */
  lemma {:induction false} HeightInTable(x: seq<nat>, order: seq<nat>, y: seq<int>, mult: nat, q: nat, px: nat)
    requires Ordered(x, order) && |y| == |x| && 1 <= q <= |order| && 1 <= mult <= 4 && HeightsOk(y, mult)
    ensures 0 <= Height(x, order, y, mult, q, px) < 256
  {
    hide Times, PredictPoint, Range;
    var j := order[q - 1];
    if y[j] >= 0 {
      Scaled(y[j], mult);
    }
    if q > 1 {
      HeightInTable(x, order, y, mult, q - 1, px);
      var l := order[Last(order, y, q - 1)];
      Scaled(y[l], mult);
      if x[l] <= px < x[j] {
        PredictBetween(px, x[l], x[j], y[l] * mult, y[j] * mult);
      }
    }
  }

  /** The line meets every drawn point. */
  lemma {:induction false} HeightMeets(x: seq<nat>, order: seq<nat>, y: seq<int>, mult: nat, q: nat, p: nat)
    requires Ordered(x, order) && |y| == |x| && y[0] >= 0 && p < q <= |order| && y[order[p]] >= 0
    ensures Height(x, order, y, mult, q, x[order[p]]) == y[order[p]] * mult
  {
    hide PredictPoint;
    if p < q - 1 {
      HeightMeets(x, order, y, mult, q - 1, p);
      var l := Last(order, y, q - 1);
      if p == l && y[order[q - 1]] >= 0 {
        var a, j := order[p], order[q - 1];
        LineStart(x[a], y[a] * mult, x[j], y[j] * mult);
        LineClosed(x[a], y[a] * mult, x[j], y[j] * mult, x[a], y[a] * mult, 0);
      }
    }
  }

  /** The places before `end` have been multiplied by the height of the line there. */
  ghost predicate Shaped(was: seq<real>, now: seq<real>, x: seq<nat>, order: seq<nat>, y: seq<int>, mult: nat,
                         table: seq<real>,
                         q: nat, end: nat)
    requires Ordered(x, order) && |y| == |x| && 1 <= q <= |order| && y[0] >= 0 && |table| == 256
  {
    && |now| == |was|
    && (forall px :: 0 <= px < |was| && px < end ==>
          now[px] == Times(was[px], table[Height(x, order, y, mult, q, px) % 256]))
    && (forall px :: end <= px < |was| ==> now[px] == was[px])
  }

  /** Draw the lines between the drawn points. */
  method DrawLines(x: seq<nat>, order: seq<nat>, finalY: array<int>, mult: nat, target: array<real>, n2: nat,
                   table: seq<real>)
    returns (lx: nat, ly: int)
    requires Ordered(x, order) && finalY.Length == |x| && finalY[0] >= 0
    requires n2 <= target.Length && |table| == 256
    modifies target
    ensures var l := order[Last(order, finalY[..], |order|)];
            lx == x[l] && ly == finalY[l] * mult
    ensures Shaped(old(target[..]), target[..], x, order, finalY[..], mult, table, |order|, Least(lx, n2))
  {
    hide Times, PredictPoint, Range, Height;
    ghost var y := finalY[..];
    ghost var was := target[..];
    lx, ly := 0, finalY[0] * mult;
    for q := 1 to |order|
      invariant lx == x[order[Last(order, y, q)]] && ly == y[order[Last(order, y, q)]] * mult
      invariant Shaped(was, target[..], x, order, y, mult, table, q, Least(lx, n2))
    {
      var j := order[q];
      HeightStepAll(x, order, y, mult, q);
      if finalY[j] >= 0 {
        var hx, hy := x[j], finalY[j] * mult;
        ghost var now := target[..];
        if lx != hx {
          DrawLine(target, lx, ly, hx, hy, n2, table);
        }
        ShapedStep(was, now, target[..], x, order, y, mult, table, q, n2);
        lx, ly := hx, hy;
      } else {
        ShapedSkip(was, target[..], x, order, y, mult, table, q, Least(lx, n2));
      }
    }
  }

  lemma ShapedStep(was: seq<real>, now: seq<real>, next: seq<real>, x: seq<nat>, order: seq<nat>, y: seq<int>,
                   mult: nat,
                   table: seq<real>, q: nat, n2: nat)
    requires Ordered(x, order) && |y| == |x| && 1 <= q < |order| && y[0] >= 0 && |table| == 256
    requires n2 <= |was| && y[order[q]] >= 0 && |next| == |was|
    requires var j, l := order[q], order[Last(order, y, q)];
             && Shaped(was, now, x, order, y, mult, table, q, Least(x[l], n2)) && x[l] < x[j]
             && (forall px :: x[l] <= px < x[j] && px < n2 ==>
                 next[px] == Times(now[px], table[PredictPoint(px, x[l], x[j], y[l] * mult, y[j] * mult) % 256]))
             && (forall px :: 0 <= px < |was| && !(x[l] <= px < x[j] && px < n2) ==> next[px] == now[px])
    ensures Shaped(was, next, x, order, y, mult, table, q + 1, Least(x[order[q]], n2))
  {
    hide Times, PredictPoint, Range, Height;
    HeightStepAll(x, order, y, mult, q);
  }

  lemma ShapedSkip(was: seq<real>, now: seq<real>, x: seq<nat>, order: seq<nat>, y: seq<int>, mult: nat,
                   table: seq<real>, q: nat, end: nat)
    requires Ordered(x, order) && |y| == |x| && 1 <= q < |order| && y[0] >= 0 && |table| == 256
    requires y[order[q]] < 0 && Shaped(was, now, x, order, y, mult, table, q, end)
    ensures Shaped(was, now, x, order, y, mult, table, q + 1, end)
  {
    hide Times, PredictPoint, Range, Last;
    var q1 := q + 1;
    forall px | 0 <= px < |was| && px < end
      ensures Height(x, order, y, mult, q1, px) == Height(x, order, y, mult, q, px)
    {
    }
  }

  /** Multiply the spectrum by the floor curve: every place once. The level after the last drawn point
      is looked up without taking it modulo 256; `ok` says whether the table has it. */
  method DoFloor(x: seq<nat>, order: seq<nat>, finalY: array<int>, mult: nat, target: array<real>, n2: nat,
                 table: seq<real>)
    returns (ok: bool)
    requires Ordered(x, order) && finalY.Length == |x| && finalY[0] >= 0
    requires n2 <= target.Length && |table| == 256
    modifies target
    ensures var l := order[Last(order, finalY[..], |order|)]; ok <==> x[l] >= n2 || finalY[l] * mult < 256
    ensures var l := order[Last(order, finalY[..], |order|)];
            var end := if ok then n2 else Least(x[l], n2);
            Shaped(old(target[..]), target[..], x, order, finalY[..], mult, table, |order|, end)
  {
    hide Times, PredictPoint, Range, Height, Shaped;
    ghost var y := finalY[..];
    ghost var was := target[..];
    var lx, ly := DrawLines(x, order, finalY, mult, target, n2, table);
    if lx < n2 {
      NotNegative(y[order[Last(order, y, |order|)]], mult);
      if ly >= 256 {
        return false;
      }
      for j := lx to n2
        invariant Shaped(was, target[..], x, order, y, mult, table, |order|, j)
      {
        LevelAt(x, order, y, mult, |order|, j);
        ghost var now := target[..];
        target[j] := Times(target[j], table[ly]);
        assert target[..] == now[j := Times(now[j], table[ly])];
        ShapedOne(was, now, x, order, y, mult, table, |order|, j);
      }
    }
    ok := true;
  }

  /** A place is multiplied by the factor that the table has for its height, and all others stay. */
  lemma ShapedPlace(was: seq<real>, now: seq<real>, x: seq<nat>, order: seq<nat>, y: seq<int>, mult: nat,
                    table: seq<real>, end: nat, px: nat)
    requires Ordered(x, order) && |y| == |x| && 1 <= mult <= 4 && HeightsOk(y, mult) && |table| == 256
    requires Shaped(was, now, x, order, y, mult, table, |order|, end) && px < |was|
    ensures var h := Height(x, order, y, mult, |order|, px);
            0 <= h < 256 && now[px] == if px < end then was[px] * table[h] else was[px]
  {
    hide Height;
    HeightInTable(x, order, y, mult, |order|, px);
  }

  lemma NotNegative(y: int, mult: nat)
    requires y >= 0
    ensures y * mult >= 0
  {
  }

  lemma ShapedOne(was: seq<real>, now: seq<real>, x: seq<nat>, order: seq<nat>, y: seq<int>, mult: nat,
                  table: seq<real>, q: nat, j: nat)
    requires Ordered(x, order) && |y| == |x| && 1 <= q <= |order| && y[0] >= 0 && |table| == 256
    requires j < |was| && Shaped(was, now, x, order, y, mult, table, q, j)
    ensures Shaped(was, now[j := Times(now[j], table[Height(x, order, y, mult, q, j) % 256])], x, order, y, mult,
            table, q, j + 1)
  {
    hide Times, PredictPoint, Range, Height;
  }

  /** One more place leaves the line before the last drawn point as it is. */
  lemma HeightStepAll(x: seq<nat>, order: seq<nat>, y: seq<int>, mult: nat, q: nat)
    requires Ordered(x, order) && |y| == |x| && y[0] >= 0 && 1 <= q < |order|
    ensures var j, l := order[q], order[Last(order, y, q)];
            x[l] < x[j] &&
            (forall px: nat :: px < x[l] ==>
                Height(x, order, y, mult, q + 1, px) == Height(x, order, y, mult, q, px)) &&
            (y[j] >= 0 ==> forall px: nat :: x[l] <= px < x[j] ==>
               Height(x, order, y, mult, q + 1, px) == PredictPoint(px, x[l], x[j], y[l] * mult, y[j] * mult))
  {
    hide PredictPoint;
  }

  lemma {:induction false} LevelAt(x: seq<nat>, order: seq<nat>, y: seq<int>, mult: nat, q: nat, px: nat)
    requires Ordered(x, order) && |y| == |x| && y[0] >= 0 && 1 <= q <= |order| && px >= x[order[Last(order, y, q)]]
    ensures Height(x, order, y, mult, q, px) == y[order[Last(order, y, q)]] * mult
  {
    if q > 1 && y[order[q - 1]] < 0 {
      LevelAt(x, order, y, mult, q - 1, px);
    }
  }

  /** The heights of the drawn points, and -1 for all others. */
  ghost function Kept(nb: seq<(nat, nat)>, v: seq<int>, y: seq<int>): (k: seq<int>)
    requires |nb| == |v| == |y|
    ensures |k| == |y| && forall j :: 0 <= j < |y| ==> k[j] == if Drawn(nb, v, |nb|, j) then y[j] else -1
  {
    seq(|y|, j requires 0 <= j < |y| => if Drawn(nb, v, |nb|, j) then y[j] else -1)
  }

  lemma KeptOk(x: seq<nat>, nb: seq<(nat, nat)>, mult: nat, v: seq<int>)
    requires Encloses(x, nb) && |v| == |x| >= 2 && 1 <= mult <= 4 && InRange(v, Range(mult))
    ensures HeightsOk(Kept(nb, v, Curve(x, nb, Range(mult), v, |x|)), mult)
  {
    hide Curve, Range;
    CurveInRange(x, nb, Range(mult), v, |x|);
    assert Drawn(nb, v, |nb|, 0);
  }

  /** Values in range give heights that index the table, and a last level that it has. */
  lemma KeptInTable(x: seq<nat>, nb: seq<(nat, nat)>, order: seq<nat>, mult: nat, v: seq<int>, px: nat)
    requires Encloses(x, nb) && Ordered(x, order) && |v| == |x| >= 2 && 1 <= mult <= 4 && InRange(v, Range(mult))
    ensures var y := Kept(nb, v, Curve(x, nb, Range(mult), v, |x|));
            && y[0] >= 0 && y[order[Last(order, y, |order|)]] * mult < 256
            && 0 <= Height(x, order, y, mult, |order|, px) < 256
  {
    hide Curve, Range, Height;
    KeptOk(x, nb, mult, v);
    var y := Kept(nb, v, Curve(x, nb, Range(mult), v, |x|));
    HeightInTable(x, order, y, mult, |order|, px);
    Scaled(y[order[Last(order, y, |order|)]], mult);
  }

  /** From the decoded values of a floor to the shaped spectrum; values in range never fail. */
  method RenderFloor(x: seq<nat>, nb: seq<(nat, nat)>, order: seq<nat>, mult: nat, finalY: array<int>,
                     target: array<real>, n2: nat, table: seq<real>) returns (ok: bool)
    requires Encloses(x, nb) && Ordered(x, order) && finalY.Length == |x| >= 2 && 1 <= mult <= 4 && finalY[0] >= 0
    requires n2 <= target.Length && |table| == 256
    modifies finalY, target
    ensures InRange(old(finalY[..]), Range(mult)) ==> ok
    ensures var v := old(finalY[..]);
            var y := Kept(nb, v, Curve(x, nb, Range(mult), v, |x|));
            y[0] >= 0 && (ok ==> Shaped(old(target[..]), target[..], x, order, y, mult, table, |order|, n2))
  {
    hide Curve, Range, Shaped, Drawn, Height;
    ghost var v := finalY[..];
    FirstKept(x, nb, Range(mult), v);
    var step2 := UnwrapFloor(x, nb, Range(mult), finalY);
    ghost var y := finalY[..];
    for j := 0 to finalY.Length
      modifies finalY
      invariant forall k :: 0 <= k < |x| ==> finalY[k] == if k < j && !step2[k] then -1 else y[k]
    {
      if !step2[j] {
        finalY[j] := -1;
      }
    }
    assert finalY[..] == Kept(nb, v, y);
    if InRange(v, Range(mult)) {
      KeptInTable(x, nb, order, mult, v, 0);
    }
    assert target[..] == old(target[..]);
    ok := DoFloor(x, order, finalY, mult, target, n2, table);
  }

  lemma FirstKept(x: seq<nat>, nb: seq<(nat, nat)>, range: int, v: seq<int>)
    requires Encloses(x, nb) && |v| == |x| >= 2
    ensures Kept(nb, v, Curve(x, nb, range, v, |x|))[0] == v[0]
  {
    hide Unwrap, Pred;
    assert Drawn(nb, v, |nb|, 0);
    CurveFirst(x, nb, range, v, |x|);
  }

  lemma {:induction false} CurveFirst(x: seq<nat>, nb: seq<(nat, nat)>, range: int, v: seq<int>, n: nat)
    requires Encloses(x, nb) && |v| == |x| && 0 < n <= |x|
    ensures Curve(x, nb, range, v, n)[0] == v[0]
  {
    hide Unwrap, Pred;
    if n > 2 {
      CurveFirst(x, nb, range, v, n - 1);
    }
  }
}
