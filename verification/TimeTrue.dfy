/** What the cut audio and its table of times mean: every sample is where it belongs, and every time inside
    a segment leads back into the segment. */
module TimeTrue {
  import opened Arith
  import opened VadEar
  import opened Vad
  import opened TimeMap

  // ----- the audio

  ghost predicate Started(segs: seq<Segment>) {
    forall k :: 0 <= k < |segs| ==> 0 <= segs[k].start
  }

  lemma {:induction false} FilteredLength(segs: seq<Segment>, samples: seq<real>, overlap: nat, i: nat)
    requires i <= |segs| && Started(segs)
    ensures |Filtered(segs, samples, overlap, i)| == Offset(segs, |samples|, overlap, i)
  {
    if i > 0 {
      hide Offset, Filtered, Pause;
      FilteredLength(segs, samples, overlap, i - 1);
      Next(segs, samples, overlap, i - 1);
      PauseSome(segs, i - 1);
    } else {
      Begin(segs, samples, overlap);
    }
  }

  lemma PauseSome(segs: seq<Segment>, i: nat)
    ensures Pause(segs, i) >= 0
  {
  }

  /** At `at` there are the samples from `from` to `to`, and then some zeros. */
  ghost predicate Copied(all: seq<real>, at: nat, samples: seq<real>, from: int, to: int, zeros: nat) {
    && 0 <= from <= to <= |samples| && at + (to - from) + zeros <= |all|
    && all[at..at + (to - from)] == samples[from..to]
    && forall k :: at + (to - from) <= k < at + (to - from) + zeros ==> all[k] == 0.0
  }

  lemma CopiedLonger(before: seq<real>, more: seq<real>, at: nat, samples: seq<real>, from: int, to: int, zeros: nat)
    requires Copied(before, at, samples, from, to, zeros)
    ensures Copied(before + more, at, samples, from, to, zeros)
  {
    var all := before + more;
    assert all[at..at + (to - from)] == before[at..at + (to - from)];
  }

  lemma CopiedLast(before: seq<real>, samples: seq<real>, from: int, to: int, zeros: nat)
    requires 0 <= from <= to <= |samples|
    ensures Copied(before + (samples[from..to] + seq(zeros, _ => 0.0)), |before|, samples, from, to, zeros)
  {
    var all := before + (samples[from..to] + seq(zeros, _ => 0.0));
    assert all[|before|..|before| + (to - from)] == samples[from..to];
  }

  lemma {:induction false} CopyThere(segs: seq<Segment>, samples: seq<real>, overlap: nat, i: nat, m: nat)
    requires i < m <= |segs| && Started(segs) && Length(segs, |samples|, overlap, i) > 0
    ensures Pause(segs, i) >= 0
    ensures Copied(Filtered(segs, samples, overlap, m), Offset(segs, |samples|, overlap, i), samples,
                   StartOf(segs, |samples|, i), EndOf(segs, |samples|, overlap, i), Pause(segs, i))
    decreases m
  {
    hide Offset, Filtered, Copied, Pause, Length, StartOf, EndOf;
    var n, j := |samples|, m - 1;
    var before := Filtered(segs, samples, overlap, j);
    PauseSome(segs, i);
    PauseSome(segs, j);
    Next(segs, samples, overlap, j);
    FilteredLength(segs, samples, overlap, j);
    var from, to := StartOf(segs, n, i), EndOf(segs, n, overlap, i);
    if i < j {
      CopyThere(segs, samples, overlap, i, j);
      if Length(segs, n, overlap, j) > 0 {
        CopyInside(segs, n, overlap, j);
        var more := samples[StartOf(segs, n, j)..EndOf(segs, n, overlap, j)] + seq(Pause(segs, j), _ => 0.0);
        CopiedLonger(before, more, Offset(segs, n, overlap, i), samples, from, to, Pause(segs, i));
      }
    } else {
      CopyInside(segs, n, overlap, i);
      CopiedLast(before, samples, from, to, Pause(segs, i));
    }
  }

  lemma CopyInside(segs: seq<Segment>, n: int, overlap: nat, i: nat)
    requires i < |segs| && Started(segs) && Length(segs, n, overlap, i) > 0
    ensures 0 <= StartOf(segs, n, i) < EndOf(segs, n, overlap, i) < n
  {
  }

  /** The copy of a segment: its samples, from its start to its end with the overlap but inside the audio, and
      after every segment but the last 1600 zeros. */
  lemma SegmentThere(segs: seq<Segment>, samples: seq<real>, overlap: nat, i: nat)
    requires i < |segs| && Started(segs)
    ensures var last := i == |segs| - 1;
            var from := Least(160 * segs[i].start, |samples| - 1);
            var to := Least(160 * segs[i].end + (if last then 0 else overlap), |samples| - 1);
            to > from ==>
              Copied(Filtered(segs, samples, overlap, |segs|), Offset(segs, |samples|, overlap, i), samples, from, to,
                     if last then 0 else 1600)
  {
    hide Offset, Filtered, Copied;
    if Length(segs, |samples|, overlap, i) > 0 {
      CopyThere(segs, samples, overlap, i, |segs|);
    }
  }

  // ----- the table

  /** Where segment `i` is in the cut audio, in centiseconds. */
  ghost function Begins(segs: seq<Segment>, n: int, overlap: nat, i: nat): int
    requires i <= |segs|
  {
    ToCs(Offset(segs, n, overlap, i))
  }

  ghost function Finishes(segs: seq<Segment>, n: int, overlap: nat, i: nat): int
    requires i < |segs|
  {
    ToCs(Offset(segs, n, overlap, i) + Length(segs, n, overlap, i))
  }

  /** `p` is on the line from `a` to `b`, to the centisecond below. */
  ghost predicate OnLine(a: Point, b: Point, p: Point) {
    && a.time <= p.time <= b.time && a.orig <= p.orig <= b.orig
    && (p.orig - a.orig) * (b.time - a.time) <= (p.time - a.time) * (b.orig - a.orig)
    && (a.time < b.time ==>
          (p.time - a.time) * (b.orig - a.orig) < (p.orig - a.orig + 1) * (b.time - a.time))
  }

  lemma {:induction false} MiddleOnLine(vs: int, ve: int, os: int, oe: int, count: nat)
    requires os <= oe && (count > 0 ==> vs < ve)
    ensures forall p :: p in Middle(vs, ve, os, oe, count) ==>
              OnLine(Point(vs, os), Point(ve, oe), p) && vs < p.time < ve
  {
    if count > 0 {
      MiddleOnLine(vs, ve, os, oe, count - 1);
      var time := vs + count * 20;
      if time < ve {
        var d, x := ve - vs, (time - vs) * (oe - os);
        Scale(time - vs, d, d, oe - os);
        assert x == x / d * d + x % d;
        Distribute(x / d, 1, d);
        assert OnLine(Point(vs, os), Point(ve, oe), Point(time, os + x / d));
      }
    }
  }

  /** Every 200 ms inside a segment of more than a second there is a point, up to the last but one. */
  lemma {:induction false} MiddleThere(vs: int, ve: int, os: int, oe: int, count: nat, j: nat)
    requires 0 < j <= count && vs + 20 * j < ve
    ensures exists p :: p in Middle(vs, ve, os, oe, count) && p.time == vs + 20 * j
    decreases count
  {
    if j < count {
      MiddleThere(vs, ve, os, oe, count - 1, j);
      var p :| p in Middle(vs, ve, os, oe, count - 1) && p.time == vs + 20 * j;
      assert p in Middle(vs, ve, os, oe, count);
    } else {
      var time := vs + count * 20;
      var p := Point(time, os + (time - vs) * (oe - os) / (ve - vs));
      assert Middle(vs, ve, os, oe, count)[|Middle(vs, ve, os, oe, count)| - 1] == p;
    }
  }

  /** A segment of more than a second in the cut audio has a point every 200 ms. */
  lemma TableDense(segs: seq<Segment>, n: int, overlap: nat, i: nat, j: nat)
    requires i < |segs| && Length(segs, n, overlap, i) > 0
    requires var from, to := Begins(segs, n, overlap, i), Finishes(segs, n, overlap, i);
             to - from > 100 && 0 < j && from + 20 * j + 20 <= to
    ensures exists p :: p in Points(segs, n, overlap, i) && p.time == Begins(segs, n, overlap, i) + 20 * j
  {
    hide Offset, Length, Middle;
    var from, to := Begins(segs, n, overlap, i), Finishes(segs, n, overlap, i);
    NextPoints(segs, n, overlap, i);
    var count := MiddleCount(from, to);
    MiddleThere(from, to, segs[i].start, segs[i].end, count, j);
    var p :| p in Middle(from, to, segs[i].start, segs[i].end, count) && p.time == from + 20 * j;
    assert p in Points(segs, n, overlap, i);
  }

  ghost function First(segs: seq<Segment>, n: int, overlap: nat, i: nat): Point
    requires i < |segs|
  {
    Point(Begins(segs, n, overlap, i), segs[i].start)
  }

  ghost function Last(segs: seq<Segment>, n: int, overlap: nat, i: nat): Point
    requires i < |segs|
  {
    Point(Finishes(segs, n, overlap, i), segs[i].end)
  }

  /** Something is copied of every segment. */
  ghost predicate Full(segs: seq<Segment>, n: int, overlap: nat) {
    forall i :: 0 <= i < |segs| ==> Length(segs, n, overlap, i) > 0
  }

  lemma SegmentTimes(segs: seq<Segment>, n: int, overlap: nat, audio: int, i: nat)
    requires Apart(segs, 0, audio) && Full(segs, n, overlap) && i < |segs|
    ensures OnLine(First(segs, n, overlap, i), Last(segs, n, overlap, i), First(segs, n, overlap, i))
    ensures OnLine(First(segs, n, overlap, i), Last(segs, n, overlap, i), Last(segs, n, overlap, i))
    ensures i + 1 < |segs| ==> Finishes(segs, n, overlap, i) + 10 == Begins(segs, n, overlap, i + 1)
  {
    hide Offset, Length;
    var a, b := First(segs, n, overlap, i), Last(segs, n, overlap, i);
    assert a.time <= b.time && a.orig <= b.orig;
    NextOffset(segs, n, overlap, i);
    Distribute(b.orig - a.orig, 1, b.time - a.time);
  }

  lemma {:induction false} InOrder(segs: seq<Segment>, n: int, overlap: nat, audio: int, i: nat, j: nat)
    requires Apart(segs, 0, audio) && Full(segs, n, overlap) && i < j < |segs|
    ensures Finishes(segs, n, overlap, i) < Begins(segs, n, overlap, j)
    decreases j
  {
    hide Begins, Finishes, Apart, Full;
    if i + 1 < j {
      InOrder(segs, n, overlap, audio, i, j - 1);
      SegmentTimes(segs, n, overlap, audio, j - 1);
    } else {
      SegmentTimes(segs, n, overlap, audio, i);
    }
  }

  /** Every point of a segment is on its line, or begins the next one. */
  lemma PointsOnLine(segs: seq<Segment>, n: int, overlap: nat, audio: int, i: nat, p: Point)
    requires Apart(segs, 0, audio) && Full(segs, n, overlap) && i < |segs| && p in Points(segs, n, overlap, i)
    ensures OnLine(First(segs, n, overlap, i), Last(segs, n, overlap, i), p) ||
            (i + 1 < |segs| && p == First(segs, n, overlap, i + 1))
  {
    hide Offset, Length, Middle, OnLine, Apart;
    var a, b := First(segs, n, overlap, i), Last(segs, n, overlap, i);
    NextPoints(segs, n, overlap, i);
    NextOffset(segs, n, overlap, i);
    SegmentTimes(segs, n, overlap, audio, i);
    Ordered(segs, audio, i);
    MiddleSome(a.time, b.time);
    MiddleOnLine(a.time, b.time, a.orig, b.orig, MiddleCount(a.time, b.time));
  }

  lemma Ordered(segs: seq<Segment>, audio: int, i: nat)
    requires Apart(segs, 0, audio) && i < |segs|
    ensures segs[i].start <= segs[i].end
  {
  }

  /** Every point of the table is on the line of a segment. */
  lemma {:induction false} TableOnLines(segs: seq<Segment>, n: int, overlap: nat, audio: int, m: nat, p: Point)
    returns (i: nat)
    requires Apart(segs, 0, audio) && Full(segs, n, overlap) && m <= |segs| && p in Table(segs, n, overlap, m)
    ensures i < |segs| && OnLine(First(segs, n, overlap, i), Last(segs, n, overlap, i), p)
    decreases m
  {
    hide Points, First, Last, OnLine, Apart, Full;
    var j := m - 1;
    if p in Table(segs, n, overlap, j) {
      i := TableOnLines(segs, n, overlap, audio, j, p);
    } else {
      PointsOnLine(segs, n, overlap, audio, j, p);
      if OnLine(First(segs, n, overlap, j), Last(segs, n, overlap, j), p) {
        i := j;
      } else {
        i := j + 1;
        SegmentTimes(segs, n, overlap, audio, i);
      }
    }
  }

  lemma {:induction false} EndsInTable(segs: seq<Segment>, n: int, overlap: nat, i: nat, m: nat)
    requires i < m <= |segs| && Length(segs, n, overlap, i) > 0
    ensures First(segs, n, overlap, i) in Table(segs, n, overlap, m)
    ensures Last(segs, n, overlap, i) in Table(segs, n, overlap, m)
    decreases m
  {
    hide Points, First, Last, Length;
    if i < m - 1 {
      EndsInTable(segs, n, overlap, i, m - 1);
    } else {
      EndsInPoints(segs, n, overlap, i);
    }
  }

  lemma EndsInPoints(segs: seq<Segment>, n: int, overlap: nat, i: nat)
    requires i < |segs| && Length(segs, n, overlap, i) > 0
    ensures First(segs, n, overlap, i) in Points(segs, n, overlap, i)
    ensures Last(segs, n, overlap, i) in Points(segs, n, overlap, i)
  {
    hide Middle, Offset, Length;
    NextPoints(segs, n, overlap, i);
    var ps := Points(segs, n, overlap, i);
    assert ps[0] == First(segs, n, overlap, i) && ps[1] == Last(segs, n, overlap, i);
  }

  /** Removing duplicates keeps every time. */
  lemma {:induction false} UniqueTimes(s: seq<Point>, p: Point)
    requires p in s
    ensures exists q :: q in Unique(s) && q.time == p.time
    decreases |s|
  {
    if |s| > 1 {
      var r, z := s[..|s| - 1], s[|s| - 1];
      var u := Unique(r);
      if p in r {
        UniqueTimes(r, p);
        var q :| q in u && q.time == p.time;
        assert q in Unique(s);
      } else {
        assert p == z;
        assert Unique(s)[|Unique(s)| - 1].time == p.time;
      }
    } else {
      assert Unique(s) == s;
    }
  }

  // ----- the way back

  lemma Combine(x1: int, y1: int, x2: int, y2: int, t: int, y: int, d: int, e: int)
    requires x1 < t < x2 && d > 0
    requires y1 * d <= x1 * e < (y1 + 1) * d && y2 * d <= x2 * e < (y2 + 1) * d
    requires y * (x2 - x1) <= y1 * (x2 - x1) + (t - x1) * (y2 - y1) < (y + 1) * (x2 - x1)
    ensures y * d <= t * e < (y + 2) * d
  {
    Weighed(x1, y1, x2, y2, t);
    Below(x1, y1, x2, y2, t, y, d, e);
    Above(x1, y1, x2, y2, t, y, d, e);
  }

  lemma Weighed(x1: int, y1: int, x2: int, y2: int, t: int)
    ensures y1 * (x2 - x1) + (t - x1) * (y2 - y1) == y1 * (x2 - t) + y2 * (t - x1)
  {
    var p, q := x2 - t, t - x1;
    assert y1 * (p + q) == y1 * p + y1 * q;
    assert q * (y2 - y1) == y2 * q - y1 * q;
  }

  lemma Regroup(a: int, p: int, b: int, q: int, d: int)
    ensures (a * p + b * q) * d == (a * d) * p + (b * d) * q
  {
    Distribute(a * p, b * q, d);
    Associate(a, p, d);
    Associate(a, d, p);
    Associate(b, q, d);
    Associate(b, d, q);
  }

  lemma Swap(a: int, b: int, c: int)
    ensures a * b * c == a * c * b
  {
    Associate(a, b, c);
    Associate(a, c, b);
  }

  lemma Below(x1: int, y1: int, x2: int, y2: int, t: int, y: int, d: int, e: int)
    requires x1 < t < x2 && d > 0 && y1 * d <= x1 * e && y2 * d <= x2 * e
    requires y * (x2 - x1) <= y1 * (x2 - t) + y2 * (t - x1)
    ensures y * d <= t * e
  {
    var p, q, dt := x2 - t, t - x1, x2 - x1;
    Scaled(y * dt, y1 * p + y2 * q, d);
    Regroup(y1, p, y2, q, d);
    Swap(y, dt, d);
    Mixed(x1, y1 * d, x2, y2 * d, t, e, 0);
    Cancel(y * d, t * e, dt);
  }

  lemma Above(x1: int, y1: int, x2: int, y2: int, t: int, y: int, d: int, e: int)
    requires x1 < t < x2 && d > 0 && x1 * e < (y1 + 1) * d && x2 * e < (y2 + 1) * d
    requires y1 * (x2 - t) + y2 * (t - x1) < (y + 1) * (x2 - x1)
    ensures t * e < (y + 2) * d
  {
    var p, q, dt := x2 - t, t - x1, x2 - x1;
    assert (y1 + 1) * p + (y2 + 1) * q < (y + 2) * dt by {
      Distribute(y1, 1, p);
      Distribute(y2, 1, q);
      Distribute(y + 1, 1, dt);
    }
    Scaled((y1 + 1) * p + (y2 + 1) * q, (y + 2) * dt, d);
    Regroup(y1 + 1, p, y2 + 1, q, d);
    Swap(y + 2, dt, d);
    Mixed(x1, (y1 + 1) * d, x2, (y2 + 1) * d, t, e, 1);
    Smaller(t * e, (y + 2) * d, dt);
  }

  lemma Scaled(a: int, b: int, d: int)
    requires a <= b && d > 0
    ensures a * d <= b * d
  {
    MulMonotone(a, b, d);
  }

  lemma Cancel(a: int, b: int, d: int)
    requires a * d <= b * d && d > 0
    ensures a <= b
  {
    if b < a {
      MulMonotone(b + 1, a, d);
      Distribute(b, 1, d);
    }
  }

  lemma Smaller(a: int, b: int, d: int)
    requires a * d < b * d && d > 0
    ensures a < b
  {
    MulCancel(a, b, d);
  }

  /** A line between two places is as the two weigh it. */
  lemma LineSum(x1: int, x2: int, t: int, e: int)
    ensures x1 * e * (x2 - t) + x2 * e * (t - x1) == t * e * (x2 - x1)
  {
    var a, b, c := x1 * e, x2 * e, t * e;
    assert a * (x2 - t) == a * x2 - a * t && b * (t - x1) == b * t - b * x1 && c * (x2 - x1) == c * x2 - c * x1;
    Cross(x1, x2, e);
    Cross(x1, t, e);
    Cross(x2, t, e);
  }

  lemma Cross(x: int, y: int, e: int)
    ensures x * e * y == y * e * x
  {
    Associate(x, e, y);
    Associate(y, e, x);
    Associate(x, y, e);
    Associate(y, x, e);
  }

  /** What is on the line or below it at both places is so between, and what is above it too. */
  lemma Mixed(x1: int, z1: int, x2: int, z2: int, t: int, e: int, strict: int)
    requires x1 < t < x2
    requires if strict == 0 then z1 <= x1 * e && z2 <= x2 * e else x1 * e < z1 && x2 * e < z2
    ensures if strict == 0 then z1 * (x2 - t) + z2 * (t - x1) <= t * e * (x2 - x1)
            else t * e * (x2 - x1) < z1 * (x2 - t) + z2 * (t - x1)
  {
    var p, q, a, b := x2 - t, t - x1, x1 * e, x2 * e;
    LineSum(x1, x2, t, e);
    if strict == 0 {
      MulMonotone(z1, a, p);
      MulMonotone(z2, b, q);
    } else {
      MulMonotone(a + 1, z1, p);
      MulMonotone(b + 1, z2, q);
      Distribute(a, 1, p);
      Distribute(b, 1, q);
    }
  }

  /** A time inside the copy of a segment leads back into the segment: to the time that lies in proportion
      between its start and its end, or less than two centiseconds before it. */
  lemma TimeInside(segs: seq<Segment>, n: int, overlap: nat, audio: int, sorted: seq<Point>, i: nat, t: int)
    requires Apart(segs, 0, audio) && Full(segs, n, overlap) && i < |segs|
    requires multiset(sorted) == multiset(Table(segs, n, overlap, |segs|)) && SortedByTime(sorted)
    requires Begins(segs, n, overlap, i) < t < Finishes(segs, n, overlap, i)
    ensures var y, from, to := Original(Unique(sorted), t), Begins(segs, n, overlap, i), Finishes(segs, n, overlap, i);
            var start, end := segs[i].start, segs[i].end;
            (y - start) * (to - from) <= (t - from) * (end - start) < (y - start + 2) * (to - from)
  {
    hide Table, Apart, Full, Begins, Finishes, OnLine, Original, Unique, LowerBound;
    var u := Unique(sorted);
    var a, b := First(segs, n, overlap, i), Last(segs, n, overlap, i);
    MapThere(segs, n, overlap, audio, sorted);
    var k := Around(segs, n, overlap, audio, sorted, i, t);
    OnThisLine(segs, n, overlap, audio, sorted, i, u[k]);
    OnThisLine(segs, n, overlap, audio, sorted, i, u[k + 1]);
    LineThere(a, b, u, k, t);
  }

  lemma MapThere(segs: seq<Segment>, n: int, overlap: nat, audio: int, sorted: seq<Point>)
    requires Apart(segs, 0, audio) && segs != []
    requires multiset(sorted) == multiset(Table(segs, n, overlap, |segs|)) && SortedByTime(sorted)
    ensures IsMap(Unique(sorted)) && Consistent(sorted) && (forall p :: p in Unique(sorted) ==> p in sorted)
    ensures forall p :: p in sorted <==> p in Table(segs, n, overlap, |segs|)
  {
    hide Table, Unique, Apart, Consistent;
    TableConsistent(segs, n, overlap, audio, |segs|);
    ConsistentPermuted(Table(segs, n, overlap, |segs|), sorted);
    UniqueIsMap(sorted);
  }

  /** The entries around a time inside a segment are inside it too. */
  lemma Around(segs: seq<Segment>, n: int, overlap: nat, audio: int, sorted: seq<Point>, i: nat, t: int)
    returns (k: nat)
    requires Apart(segs, 0, audio) && Full(segs, n, overlap) && i < |segs|
    requires multiset(sorted) == multiset(Table(segs, n, overlap, |segs|)) && SortedByTime(sorted)
    requires First(segs, n, overlap, i).time < t < Last(segs, n, overlap, i).time
    ensures var u := Unique(sorted);
            && k + 1 < |u| && u[k].time < t <= u[k + 1].time
            && First(segs, n, overlap, i).time <= u[k].time && u[k + 1].time <= Last(segs, n, overlap, i).time
  {
    hide Table, Apart, First, Last, Unique;
    var u := Unique(sorted);
    var a, b := First(segs, n, overlap, i), Last(segs, n, overlap, i);
    MapThere(segs, n, overlap, audio, sorted);
    EndsInTable(segs, n, overlap, i, |segs|);
    var ia := IndexOf(sorted, a);
    var ib := IndexOf(sorted, b);
    k := Neighbours(u, t, ia, ib);
  }

  lemma IndexOf(sorted: seq<Point>, p: Point) returns (i: nat)
    requires p in sorted
    ensures i < |Unique(sorted)| && Unique(sorted)[i].time == p.time
  {
    hide Unique;
    UniqueTimes(sorted, p);
    var q :| q in Unique(sorted) && q.time == p.time;
    i :| 0 <= i < |Unique(sorted)| && Unique(sorted)[i] == q;
  }

  lemma Neighbours(u: seq<Point>, t: int, a: nat, b: nat) returns (k: nat)
    requires IsMap(u) && a < |u| && b < |u| && u[a].time < t < u[b].time
    ensures k + 1 < |u| && u[k].time < t <= u[k + 1].time && u[a].time <= u[k].time && u[k + 1].time <= u[b].time
  {
    var m := LowerBound(u, t);
    assert a < m <= b;
    k := m - 1;
  }

  lemma OnThisLine(segs: seq<Segment>, n: int, overlap: nat, audio: int, sorted: seq<Point>, i: nat, p: Point)
    requires Apart(segs, 0, audio) && Full(segs, n, overlap) && i < |segs| && p in Unique(sorted)
    requires multiset(sorted) == multiset(Table(segs, n, overlap, |segs|)) && SortedByTime(sorted)
    requires First(segs, n, overlap, i).time <= p.time <= Last(segs, n, overlap, i).time
    ensures OnLine(First(segs, n, overlap, i), Last(segs, n, overlap, i), p)
  {
    hide Table, Apart, Unique, Begins, Finishes, Full;
    MapThere(segs, n, overlap, audio, sorted);
    var j := TableOnLines(segs, n, overlap, audio, |segs|, p);
    if j < i {
      InOrder(segs, n, overlap, audio, j, i);
    } else if i < j {
      InOrder(segs, n, overlap, audio, i, j);
    }
  }

  /** What is looked up between two entries on a line is on the line, or less than two below it. */
  lemma LineThere(a: Point, b: Point, u: seq<Point>, k: nat, t: int)
    requires IsMap(u) && k + 1 < |u| && u[k].time < t <= u[k + 1].time && a.time < t < b.time
    requires OnLine(a, b, u[k]) && OnLine(a, b, u[k + 1])
    ensures var y := Original(u, t);
            (y - a.orig) * (b.time - a.time) <= (t - a.time) * (b.orig - a.orig) <
            (y - a.orig + 2) * (b.time - a.time)
  {
    hide Original, LowerBound;
    var d, e := b.time - a.time, b.orig - a.orig;
    var p, q := u[k], u[k + 1];
    if t == q.time {
      OriginalExact(u, k + 1);
      Distribute(q.orig - a.orig + 1, 1, d);
    } else {
      OriginalLinear(u, k, t);
      var y := Original(u, t);
      var dt := q.time - p.time;
      Distribute(p.orig - a.orig, a.orig, dt);
      Distribute(y - a.orig, a.orig, dt);
      Distribute(y - a.orig + 1, a.orig, dt);
      Combine(p.time - a.time, p.orig - a.orig, q.time - a.time, q.orig - a.orig, t - a.time, y - a.orig, d, e);
    }
  }
}
