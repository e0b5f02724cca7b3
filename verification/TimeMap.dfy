/** The audio that is left after cutting out silence, and the way back to the original times. */
module TimeMap {
  import opened Arith
  import opened Vad
  import opened VadEar

  const SILENCE: int := 1600                // 100 ms of samples between segments

  datatype Point = Point(time: int, orig: int)

  // ----- how much is copied

  /** The end of segment `i` with its overlap, inside the audio of `n` samples. */
  function EndOf(segs: seq<Segment>, n: int, overlap: nat, i: nat): int
    requires i < |segs|
  {
    Least(ToSamples(segs[i].end) + (if i < |segs| - 1 then overlap else 0), n - 1)
  }

  function StartOf(segs: seq<Segment>, n: int, i: nat): int
    requires i < |segs|
  {
    Least(ToSamples(segs[i].start), n - 1)
  }

  function Length(segs: seq<Segment>, n: int, overlap: nat, i: nat): int
    requires i < |segs|
  {
    EndOf(segs, n, overlap, i) - StartOf(segs, n, i)
  }

  /** What the first pass counts: it does not limit the start. */
  function Counted(segs: seq<Segment>, n: int, overlap: nat, i: nat): int
    requires i <= |segs|
  {
    if i == 0 then 0
    else Counted(segs, n, overlap, i - 1) + EndOf(segs, n, overlap, i - 1) - ToSamples(segs[i - 1].start)
  }

  function Needed(segs: seq<Segment>, n: int, overlap: nat): int {
    Counted(segs, n, overlap, |segs|) + if |segs| > 1 then (|segs| - 1) * SILENCE else 0
  }

  function Pause(segs: seq<Segment>, i: nat): int {
    if i < |segs| - 1 then SILENCE else 0
  }

  /** How far the second pass gets with the first `i` segments. */
  function Offset(segs: seq<Segment>, n: int, overlap: nat, i: nat): (r: nat)
    requires i <= |segs|
  {
    if i == 0 then 0
    else
      var len := Length(segs, n, overlap, i - 1);
      Offset(segs, n, overlap, i - 1) + if len > 0 then len + Pause(segs, i - 1) else 0
  }

  /** By how much the starts of the first `i` segments are past the last sample. */
  function Excess(segs: seq<Segment>, n: int, i: nat): nat
    requires i <= |segs|
  {
    if i == 0 then 0
    else Excess(segs, n, i - 1) + (ToSamples(segs[i - 1].start) - StartOf(segs, n, i - 1))
  }

  /** The silence reserved after segments that are then left out. */
  function Unused(segs: seq<Segment>, n: int, overlap: nat, i: nat): nat
    requires i <= |segs|
  {
    if i == 0 then 0
    else Unused(segs, n, overlap, i - 1) + if Length(segs, n, overlap, i - 1) > 0 then 0 else Pause(segs, i - 1)
  }

  lemma {:induction false} Balance(segs: seq<Segment>, n: int, overlap: nat, audio: int, i: nat)
    requires Apart(segs, 0, audio) && i <= |segs|
    ensures Counted(segs, n, overlap, i) + (if i < |segs| then i else if i == 0 then 0 else i - 1) * SILENCE ==
            Offset(segs, n, overlap, i) + Unused(segs, n, overlap, i) - Excess(segs, n, i)
  {
    if i > 0 {
      Balance(segs, n, overlap, audio, i - 1);
      assert Length(segs, n, overlap, i - 1) >= 0;
    }
  }

  /** The copied audio fits the buffer exactly when the starts past the end do not outweigh the
      silence that is not needed. */
  lemma FitsIff(segs: seq<Segment>, n: int, overlap: nat, audio: int)
    requires Apart(segs, 0, audio)
    ensures Offset(segs, n, overlap, |segs|) <= Needed(segs, n, overlap) <==>
            Excess(segs, n, |segs|) <= Unused(segs, n, overlap, |segs|)
  {
    Balance(segs, n, overlap, audio, |segs|);
  }

  /** When all segments start inside the audio, it fits. */
  lemma {:induction false} InsideFits(segs: seq<Segment>, n: int, overlap: nat, audio: int)
    requires Apart(segs, 0, audio) && forall i :: 0 <= i < |segs| ==> ToSamples(segs[i].start) < n
    ensures Offset(segs, n, overlap, |segs|) <= Needed(segs, n, overlap)
  {
    NoExcess(segs, n, |segs|);
    FitsIff(segs, n, overlap, audio);
  }

  lemma {:induction false} NoExcess(segs: seq<Segment>, n: int, i: nat)
    requires i <= |segs| && forall k :: 0 <= k < |segs| ==> ToSamples(segs[k].start) < n
    ensures Excess(segs, n, i) == 0
  {
    if i > 0 {
      NoExcess(segs, n, i - 1);
    }
  }

  // ----- segments of the detector

  /** Segments of the detector: from `raw`, at least 200 ms apart, that start in windows of the audio. */
  ghost predicate FromDetector(p: Params, window: nat, probs: seq<real>, raw: seq<Segment>, segs: seq<Segment>,
                               n: int) {
    && window > 0 && |probs| > 0 && At(window, |probs| - 1) < n && RawOk(p, window, probs, raw)
    && segs == Final(p, raw, At(window, |probs|)) && Apart(segs, 0, ToCs(At(window, |probs|)))
  }

  lemma RawStart(p: Params, window: nat, probs: seq<real>, raw: seq<Segment>, k: nat)
    requires window > 0 && |probs| > 0 && RawOk(p, window, probs, raw) && k < |raw|
    ensures 0 <= raw[k].start <= At(window, |probs| - 1) && (k > 0 ==> raw[k - 1].end + MERGE_GAP <= raw[k].start)
    ensures k + 1 < |raw| ==> raw[k].start + MERGE_GAP <= At(window, |probs| - 1)
  {
    StartInWindow(p, window, probs, raw[k].start);
    if k + 1 < |raw| {
      StartInWindow(p, window, probs, raw[k + 1].start);
      assert raw[k + 1 - 1].end + MERGE_GAP <= raw[k + 1].start;
    }
  }

  lemma StartInWindow(p: Params, window: nat, probs: seq<real>, x: int)
    requires SpeechAt(p, window, probs, x)
    ensures |probs| > 0 && x <= At(window, |probs| - 1)
  {
    var i :| 0 <= i < |probs| && probs[i] >= p.threshold && x == At(window, i);
    if i < |probs| - 1 {
      AtStep(window, i, |probs| - 1);
    }
  }

  /** Only the last segment can start after the audio, and by no more than half a centisecond; with a pad
      of at least 5 ms not even that one. */
  lemma StartsInside(p: Params, window: nat, probs: seq<real>, raw: seq<Segment>, segs: seq<Segment>, n: int, k: nat)
    requires FromDetector(p, window, probs, raw, segs, n) && k < |segs|
    ensures ToSamples(segs[k].start) <= n - 1 + 80
    ensures k + 1 < |segs| || p.padMs >= 5 ==> ToSamples(segs[k].start) < n
  {
    hide At, SpeechAt;
    var audio, pad := At(window, |probs|), Samples(p.padMs);
    RawStart(p, window, probs, raw, k);
    var x := PadStart(raw, k, pad);
    assert segs[k].start == ToCs(x);
    CsNear(x, x);
  }

  lemma {:induction false} ExcessLast(segs: seq<Segment>, n: int, i: nat)
    requires i < |segs| && forall k :: 0 <= k < |segs| - 1 ==> ToSamples(segs[k].start) < n
    ensures Excess(segs, n, i) == 0
  {
    if i > 0 {
      ExcessLast(segs, n, i - 1);
    }
  }

  lemma {:induction false} UnusedAny(segs: seq<Segment>, n: int, overlap: nat, i: nat)
    requires i <= |segs|
    ensures Unused(segs, n, overlap, i) == 0 || Unused(segs, n, overlap, i) >= SILENCE
    ensures Unused(segs, n, overlap, i) > 0 <==>
              exists k :: 0 <= k < i && k < |segs| - 1 && Length(segs, n, overlap, k) <= 0
  {
    hide Length;
    if i > 0 {
      UnusedAny(segs, n, overlap, i - 1);
    }
  }

  /** For segments of the detector the audio fits exactly when the last of them starts inside the audio,
      or an earlier one is empty. */
  lemma DetectorFitsIff(p: Params, window: nat, probs: seq<real>, raw: seq<Segment>, segs: seq<Segment>, n: int,
                        overlap: nat)
    requires FromDetector(p, window, probs, raw, segs, n) && segs != []
    ensures Offset(segs, n, overlap, |segs|) <= Needed(segs, n, overlap) <==>
            || ToSamples(segs[|segs| - 1].start) < n
            || exists k :: 0 <= k < |segs| - 1 && Length(segs, n, overlap, k) <= 0
  {
    hide Needed, Offset, Length, RawOk, Final, ToSamples;
    var m := |segs| - 1;
    FitsIff(segs, n, overlap, ToCs(At(window, |probs|)));
    forall k | 0 <= k < |segs|
      ensures ToSamples(segs[k].start) <= n - 1 + 80 && (k < m ==> ToSamples(segs[k].start) < n)
    {
      StartsInside(p, window, probs, raw, segs, n, k);
    }
    ExcessLast(segs, n, m);
    UnusedAny(segs, n, overlap, |segs|);
  }

  /** With a pad of at least 5 ms it always fits. */
  lemma DetectorFits(p: Params, window: nat, probs: seq<real>, raw: seq<Segment>, segs: seq<Segment>, n: int,
                     overlap: nat)
    requires FromDetector(p, window, probs, raw, segs, n) && p.padMs >= 5
    ensures Offset(segs, n, overlap, |segs|) <= Needed(segs, n, overlap)
  {
    hide Needed, Offset, RawOk, Final, ToSamples;
    forall k | 0 <= k < |segs|
      ensures ToSamples(segs[k].start) < n
    {
      StartsInside(p, window, probs, raw, segs, n, k);
    }
    InsideFits(segs, n, overlap, ToCs(At(window, |probs|)));
  }

  // ----- the audio

  /** The speech of the first `i` segments, with silence between. */
  ghost function Filtered(segs: seq<Segment>, samples: seq<real>, overlap: nat, i: nat): seq<real>
    requires i <= |segs| && forall k :: 0 <= k < |segs| ==> 0 <= segs[k].start
  {
    if i == 0 then []
    else
      var n := |samples|;
      var len := Length(segs, n, overlap, i - 1);
      Filtered(segs, samples, overlap, i - 1) +
      if len > 0 then
        samples[StartOf(segs, n, i - 1)..EndOf(segs, n, overlap, i - 1)] + seq(Pause(segs, i - 1), _ => 0.0)
      else []
  }

  // ----- the table

  /** The points inside a long segment: the first `count` of them. */
  ghost function Middle(vs: int, ve: int, os: int, oe: int, count: nat): seq<Point>
    requires count > 0 ==> vs < ve
  {
    if count == 0 then []
    else
      var time := vs + count * 20;
      Middle(vs, ve, os, oe, count - 1) +
      if time >= ve then [] else [Point(time, os + (time - vs) * (oe - os) / (ve - vs))]
  }

  function MiddleCount(vs: int, ve: int): nat {
    if ve - vs > 100 then (ve - vs) / 20 - 1 else 0
  }

  /** All points of segment `i`, when the audio before it has `offset` samples. */
  ghost function Points(segs: seq<Segment>, n: int, overlap: nat, i: nat): seq<Point>
    requires i < |segs|
  {
    var offset, len := Offset(segs, n, overlap, i), Length(segs, n, overlap, i);
    if len <= 0 then []
    else
      var vs, ve := ToCs(offset), ToCs(offset + len);
      [Point(vs, segs[i].start), Point(ve, segs[i].end)] + Middle(vs, ve, segs[i].start, segs[i].end,
          MiddleCount(vs, ve)) +
      if i < |segs| - 1
      then [Point(ve, segs[i].end), Point(ToCs(offset + len + SILENCE), segs[i + 1].start)]
      else []
  }

  ghost function Table(segs: seq<Segment>, n: int, overlap: nat, i: nat): seq<Point>
    requires i <= |segs|
  {
    if i == 0 then [] else Table(segs, n, overlap, i - 1) + Points(segs, n, overlap, i - 1)
  }

  /** Later points have later originals. Points of one time may differ. */
  ghost predicate Consistent(s: seq<Point>) {
    forall i, j :: 0 <= i < |s| && 0 <= j < |s| && s[i].time < s[j].time ==> s[i].orig <= s[j].orig
  }

  ghost predicate Within(s: seq<Point>, lo: Point, hi: Point) {
    forall i :: 0 <= i < |s| ==> lo.time <= s[i].time <= hi.time && lo.orig <= s[i].orig <= hi.orig
  }

  lemma ConsistentJoin(s: seq<Point>, t: seq<Point>, lo: Point, mid: Point, hi: Point)
    requires Consistent(s) && Consistent(t) && Within(s, lo, mid) && Within(t, mid, hi)
    requires lo.time <= mid.time <= hi.time && lo.orig <= mid.orig <= hi.orig
    ensures Consistent(s + t) && Within(s + t, lo, hi)
  {
  }

  lemma Scale(e: int, d: int, total: int, span: int)
    requires 0 <= e <= d <= total && total > 0 && span >= 0
    ensures 0 <= e * span / total <= d * span / total <= span
  {
    MulMonotone(e, d, span);
    MulMonotone(d, total, span);
    DivMonotone(e * span, d * span, total);
    DivBound(d * span, total, span);
    DivBound(e * span, total, span);
  }

  lemma {:induction false} MiddleConsistent(vs: int, ve: int, os: int, oe: int, count: nat)
    requires os <= oe && (count > 0 ==> vs < ve)
    ensures Consistent(Middle(vs, ve, os, oe, count))
    ensures Within(Middle(vs, ve, os, oe, count), Point(vs, os), Point(ve, oe))
    ensures forall i :: 0 <= i < |Middle(vs, ve, os, oe, count)| ==>
              var m := Middle(vs, ve, os, oe, count)[i];
              vs <= m.time <= vs + count * 20 && m.time < ve && m.orig == os + (m.time - vs) * (oe - os) / (ve - vs)
  {
    if count > 0 {
      MiddleConsistent(vs, ve, os, oe, count - 1);
      var m := Middle(vs, ve, os, oe, count - 1);
      var t := vs + count * 20;
      if t < ve {
        forall i | 0 <= i < |m|
          ensures m[i].orig <= os + (t - vs) * (oe - os) / (ve - vs)
        {
          Scale(m[i].time - vs, t - vs, ve - vs, oe - os);
        }
        Scale(t - vs, ve - vs, ve - vs, oe - os);
      }
    }
  }

  lemma HeadConsistent(a: Point, b: Point, m: seq<Point>)
    requires a.time <= b.time && a.orig <= b.orig && Consistent(m) && Within(m, a, b)
    ensures Consistent([a, b] + m) && Within([a, b] + m, a, b)
  {
  }

  /** Where the table has got to after the first `i` segments. */
  ghost function Reached(segs: seq<Segment>, n: int, overlap: nat, i: nat): Point
    requires i <= |segs| && segs != []
  {
    Point(ToCs(Offset(segs, n, overlap, i)), if i < |segs| then segs[i].start else segs[i - 1].end)
  }

  lemma PointsConsistent(segs: seq<Segment>, n: int, overlap: nat, audio: int, i: nat)
    requires Apart(segs, 0, audio) && i < |segs|
    ensures var a, b := Reached(segs, n, overlap, i), Reached(segs, n, overlap, i + 1);
            a.time <= b.time && a.orig <= b.orig && Consistent(Points(segs, n, overlap, i)) &&
                Within(Points(segs, n, overlap, i), a, b)
  {
    hide Middle, Length, Consistent, Within, ToCs, Points, Offset, MiddleCount;
    NextPoints(segs, n, overlap, i);
    NextNone(segs, n, overlap, i);
    NextOffset(segs, n, overlap, i);
    var offset, len := Offset(segs, n, overlap, i), Length(segs, n, overlap, i);
    var os, oe := segs[i].start, segs[i].end;
    assert i < |segs| - 1 ==> segs[i + 1 - 1].end <= segs[i + 1].start;
    EmptyConsistent(Reached(segs, n, overlap, i), Reached(segs, n, overlap, i + 1));
    if len > 0 {
      var vs, ve := ToCs(offset), ToCs(offset + len);
      CsNear(offset, offset + len);
      CsNear(offset + len, offset + len + SILENCE);
      MiddleSome(vs, ve);
      var m := Middle(vs, ve, os, oe, MiddleCount(vs, ve));
      MiddleConsistent(vs, ve, os, oe, MiddleCount(vs, ve));
      HeadConsistent(Point(vs, os), Point(ve, oe), m);
      var h := [Point(vs, os), Point(ve, oe)] + m;
      if i < |segs| - 1 {
        var end := Point(ToCs(offset + len + SILENCE), segs[i + 1].start);
        EmptyConsistent(Point(ve, oe), end);
        HeadConsistent(Point(ve, oe), end, []);
        assert [Point(ve, oe), end] + [] == [Point(ve, oe), end];
        ConsistentJoin(h, [Point(ve, oe), end], Point(vs, os), Point(ve, oe), end);
      } else {
        assert h + [] == h;
      }
    }
  }

  lemma NextOffset(segs: seq<Segment>, n: int, overlap: nat, i: nat)
    requires i < |segs|
    ensures var len := Length(segs, n, overlap, i);
            Offset(segs, n, overlap, i + 1) ==
            Offset(segs, n, overlap, i) + (if len > 0 then len + Pause(segs, i) else 0)
  {
  }

  lemma MiddleSome(vs: int, ve: int)
    ensures MiddleCount(vs, ve) > 0 ==> vs < ve
  {
  }

  lemma EmptyConsistent(a: Point, b: Point)
    ensures Consistent([]) && Within([], a, b)
  {
  }

  /** Whatever order equal times are in, the table leads from the first start to the last end. */
  lemma {:induction false} TableConsistent(segs: seq<Segment>, n: int, overlap: nat, audio: int, i: nat)
    requires Apart(segs, 0, audio) && segs != [] && i <= |segs|
    ensures Consistent(Table(segs, n, overlap, i))
    ensures var a, b := Point(0, segs[0].start), Reached(segs, n, overlap, i);
            a.time <= b.time && a.orig <= b.orig && Within(Table(segs, n, overlap, i), a, b)
  {
    hide Points, Consistent, Within;
    if i == 0 {
      EmptyConsistent(Point(0, segs[0].start), Reached(segs, n, overlap, i));
    } else {
      TableConsistent(segs, n, overlap, audio, i - 1);
      PointsConsistent(segs, n, overlap, audio, i - 1);
      ConsistentJoin(Table(segs, n, overlap, i - 1), Points(segs, n, overlap, i - 1), Point(0, segs[0].start),
                     Reached(segs, n, overlap, i - 1), Reached(segs, n, overlap, i));
    }
  }

  // ----- sorting and removing duplicates

  ghost predicate SortedByTime(s: seq<Point>) {
    forall i, j :: 0 <= i < j < |s| ==> s[i].time <= s[j].time
  }

  /** Of points with the same time the first one stays. */
  ghost function Unique(s: seq<Point>): (u: seq<Point>)
    ensures s != [] ==> u != []
  {
    if |s| <= 1 then s
    else
      var u, p := Unique(s[..|s| - 1]), s[|s| - 1];
      if u[|u| - 1].time == p.time then u else u + [p]
  }

  /** A time map: times strictly increasing, originals not decreasing. */
  ghost predicate IsMap(s: seq<Point>) {
    forall i, j :: 0 <= i < j < |s| ==> s[i].time < s[j].time && s[i].orig <= s[j].orig
  }

  lemma {:induction false} UniqueIsMap(s: seq<Point>)
    requires SortedByTime(s) && Consistent(s)
    ensures IsMap(Unique(s)) && (s != [] ==> Unique(s)[|Unique(s)| - 1].time == s[|s| - 1].time)
    ensures forall p :: p in Unique(s) ==> p in s
  {
    if |s| > 1 {
      hide IsMap;
      var r, p := s[..|s| - 1], s[|s| - 1];
      UniqueIsMap(r);
      var u := Unique(r);
      if u[|u| - 1].time != p.time {
        assert r[|r| - 1].time <= p.time;
        forall q | q in u
          ensures q.time <= p.time && (q.time < p.time ==> q.orig <= p.orig)
        {
          var k :| 0 <= k < |r| && r[k] == q;
          assert s[k] == q && s[|s| - 1] == p;
        }
        MapLonger(u, p);
        assert Unique(s) == u + [p];
      }
    }
  }

  lemma MapLonger(u: seq<Point>, p: Point)
    requires u != [] && IsMap(u) && u[|u| - 1].time < p.time
    requires forall q :: q in u ==> q.time < p.time ==> q.orig <= p.orig
    ensures IsMap(u + [p])
  {
    forall i | 0 <= i < |u|
      ensures u[i].time < p.time && u[i].orig <= p.orig
    {
      assert u[i] in u && u[i].time <= u[|u| - 1].time;
    }
  }

  /** Sorting does not matter for consistency. */
  lemma ConsistentPermuted(s: seq<Point>, t: seq<Point>)
    requires Consistent(s) && multiset(t) == multiset(s)
    ensures Consistent(t) && forall p :: p in t <==> p in s
  {
    forall p
      ensures p in t <==> p in s
    {
      assert p in multiset(t) <==> p in multiset(s);
    }
    forall i, j | 0 <= i < |t| && 0 <= j < |t| && t[i].time < t[j].time
      ensures t[i].orig <= t[j].orig
    {
      assert t[i] in s && t[j] in s;
    }
  }

  /** The finished table is a time map into the original audio, whatever order the sort leaves equal
      times in. */
  lemma FinalTable(segs: seq<Segment>, n: int, overlap: nat, audio: int, sorted: seq<Point>)
    requires Apart(segs, 0, audio) && segs != []
    requires multiset(sorted) == multiset(Table(segs, n, overlap, |segs|)) && SortedByTime(sorted)
    ensures IsMap(Unique(sorted))
    ensures Within(Unique(sorted), Point(0, segs[0].start), Reached(segs, n, overlap, |segs|))
  {
    hide Table;
    var t := Table(segs, n, overlap, |segs|);
    TableConsistent(segs, n, overlap, audio, |segs|);
    ConsistentPermuted(t, sorted);
    UniqueIsMap(sorted);
    var u := Unique(sorted);
    forall i | 0 <= i < |u|
      ensures 0 <= u[i].time <= Reached(segs, n, overlap, |segs|).time
      ensures segs[0].start <= u[i].orig <= Reached(segs, n, overlap, |segs|).orig
    {
      assert u[i] in u;
      assert u[i] in t;
    }
  }

  // ----- looking up

  /** The first entry whose time is not before `time`. */
  function LowerBound(table: seq<Point>, time: int): (k: nat)
    ensures k <= |table| && (forall i :: 0 <= i < k ==> table[i].time < time) && (k < |table| ==> table[k].time >= time)
  {
    if table == [] || table[0].time >= time then 0 else 1 + LowerBound(table[1..], time)
  }

  /** Division towards zero. */
  function Quotient(x: int, d: int): int
    requires d != 0
  {
    var q := (if x < 0 then -x else x) / (if d < 0 then -d else d);
    if (x < 0) == (d < 0) then q else -q
  }

  function Interpolate(a: Point, b: Point, time: int): int {
    if b.time == a.time then a.orig
    else a.orig + Quotient((time - a.time) * (b.orig - a.orig), b.time - a.time)
  }

  /** The original time of a time in the processed audio. */
  function Original(table: seq<Point>, time: int): int {
    if table == [] then time
    else if time <= table[0].time then table[0].orig
    else if time >= table[|table| - 1].time then table[|table| - 1].orig
    else
      var k := LowerBound(table, time);
      if table[k].time == time then table[k].orig else Interpolate(table[k - 1], table[k], time)
  }

  lemma InterpolateBetween(a: Point, b: Point, t: int, u: int)
    requires a.time <= t <= u <= b.time && a.time < b.time && a.orig <= b.orig
    ensures a.orig <= Interpolate(a, b, t) <= Interpolate(a, b, u) <= b.orig
  {
    Scale(t - a.time, u - a.time, b.time - a.time, b.orig - a.orig);
    MulMonotone(t - a.time, u - a.time, b.orig - a.orig);
  }

  /** A time between two entries is mapped between their originals. */
  lemma OriginalBetween(table: seq<Point>, time: int)
    requires IsMap(table) && table != [] && table[0].time < time < table[|table| - 1].time
    ensures var k := LowerBound(table, time);
            0 < k < |table| && table[k - 1].time < time <= table[k].time &&
                table[k - 1].orig <= Original(table, time) <= table[k].orig
  {
    hide Interpolate;
    var k := LowerBound(table, time);
    assert k > 0;
    if table[k].time != time {
      InterpolateBetween(table[k - 1], table[k], time, time);
    }
  }

  /** The mapping is monotone, and hits every entry of the table. */
  lemma OriginalMonotone(table: seq<Point>, t: int, u: int)
    requires IsMap(table) && table != [] && t <= u
    ensures table[0].orig <= Original(table, t) <= Original(table, u) <= table[|table| - 1].orig
  {
    hide Interpolate;
    var last := |table| - 1;
    assert table[0].orig <= table[last].orig;
    if table[0].time < t < table[last].time {
      OriginalBetween(table, t);
    }
    if table[0].time < u < table[last].time {
      OriginalBetween(table, u);
    }
    if table[0].time < t && u < table[last].time {
      var j, k := LowerBound(table, t), LowerBound(table, u);
      if j == k {
        if table[k].time != u {
          InterpolateBetween(table[k - 1], table[k], t, u);
        }
      } else {
        assert j < k;
        assert table[j].orig <= table[k - 1].orig;
      }
    }
  }

  lemma OriginalExact(table: seq<Point>, k: nat)
    requires IsMap(table) && k < |table|
    ensures Original(table, table[k].time) == table[k].orig
  {
    hide Interpolate;
    if 0 < k < |table| - 1 {
      OriginalBetween(table, table[k].time);
      var j := LowerBound(table, table[k].time);
      assert j == k;
    }
  }

  /** Between two entries a time is mapped in proportion, to the centisecond below. */
  lemma OriginalLinear(table: seq<Point>, k: nat, time: int)
    requires IsMap(table) && k + 1 < |table| && table[k].time < time < table[k + 1].time
    ensures var a, b, y := table[k], table[k + 1], Original(table, time);
            var dt := b.time - a.time;
            y * dt <= a.orig * dt + (time - a.time) * (b.orig - a.orig) < (y + 1) * dt
  {
    hide Interpolate;
    var a, b := table[k], table[k + 1];
    assert LowerBound(table, time) == k + 1;
    assert table[0].time <= a.time && b.time <= table[|table| - 1].time && a.orig <= b.orig;
    assert Original(table, time) == Interpolate(a, b, time);
    Proportion(a, b, time);
  }

  lemma Proportion(a: Point, b: Point, time: int)
    requires a.time < time < b.time && a.orig <= b.orig
    ensures var y, dt := Interpolate(a, b, time), b.time - a.time;
            y * dt <= a.orig * dt + (time - a.time) * (b.orig - a.orig) < (y + 1) * dt
  {
    var x, dt := (time - a.time) * (b.orig - a.orig), b.time - a.time;
    MulMonotone(0, time - a.time, b.orig - a.orig);
    var q := x / dt;
    assert x == q * dt + x % dt;
    Distribute(a.orig, q, dt);
    Distribute(a.orig + q, 1, dt);
  }

  /** Outside the table the first and the last entry hold, and without a table a time is its own original. */
  lemma OriginalOutside(table: seq<Point>, time: int)
    ensures table == [] ==> Original(table, time) == time
    ensures table != [] && time <= table[0].time ==> Original(table, time) == table[0].orig
    ensures IsMap(table) && table != [] && time >= table[|table| - 1].time ==>
              Original(table, time) == table[|table| - 1].orig
  {
    if IsMap(table) && |table| > 1 {
      assert table[0].time < table[|table| - 1].time;
    }
  }

  // ----- the methods

  method CountSamples(segs: seq<Segment>, n: int, overlap: nat) returns (total: int)
    ensures total == Needed(segs, n, overlap)
  {
    var filtered := 0;
    for i := 0 to |segs|
      invariant filtered == Counted(segs, n, overlap, i)
    {
      var start, end := ToSamples(segs[i].start), ToSamples(segs[i].end);
      if i < |segs| - 1 {
        end := end + overlap;
      }
      end := Least(end, n - 1);
      filtered := filtered + (end - start);
    }
    total := filtered + if |segs| > 1 then (|segs| - 1) * SILENCE else 0;
  }

  method AddMiddle(table0: seq<Point>, vs: int, ve: int, os: int, oe: int) returns (table: seq<Point>)
    ensures table == table0 + Middle(vs, ve, os, oe, MiddleCount(vs, ve))
  {
    table := table0;
    if ve - vs > 100 {
      var count := (ve - vs) / 20 - 1;
      var j := 1;
      while j <= count
        invariant 1 <= j <= count + 1 && table == table0 + Middle(vs, ve, os, oe, j - 1)
        decreases count - j
      {
        var time := vs + j * 20;
        if time < ve {
          table := table + [Point(time, os + (time - vs) * (oe - os) / (ve - vs))];
        }
        j := j + 1;
      }
    }
  }

  /** Copy `len` samples to `offset`, and then put `gap` zeros. */
  method CopyOut(out: array<real>, offset: nat, samples: seq<real>, start: nat, len: nat, gap: nat)
    requires offset + len + gap <= out.Length && start + len <= |samples|
    modifies out
    ensures out[..offset + len + gap] == old(out[..offset]) + (samples[start..start + len] + seq(gap, _ => 0.0))
  {
    for k := 0 to len
      invariant out[..offset + k] == old(out[..offset]) + samples[start..start + k]
    {
      out[offset + k] := samples[start + k];
      Extend(out[..], offset + k);
    }
    for k := 0 to gap
      invariant out[..offset + len + k] == old(out[..offset]) + (samples[start..start + len] + seq(k, _ => 0.0))
    {
      out[offset + len + k] := 0.0;
      Extend(out[..], offset + len + k);
      assert seq(k + 1, _ => 0.0) == seq(k, _ => 0.0) + [0.0];
    }
  }

  lemma Extend(s: seq<real>, k: nat)
    requires k < |s|
    ensures s[..k + 1] == s[..k] + [s[k]]
  {
  }

  lemma {:induction false} OffsetGrows(segs: seq<Segment>, n: int, overlap: nat, i: nat, j: nat)
    requires i <= j <= |segs|
    ensures Offset(segs, n, overlap, i) <= Offset(segs, n, overlap, j)
  {
    if i < j {
      OffsetGrows(segs, n, overlap, i, j - 1);
    }
  }

  /** The points of one segment that is not left out. */
  method SegmentPoints(segs: seq<Segment>, n: int, ghost overlap: nat, i: nat, offset: nat, len: nat)
    returns (points: seq<Point>)
    requires i < |segs| && offset == Offset(segs, n, overlap, i) && len == Length(segs, n, overlap, i) > 0
    ensures points == Points(segs, n, overlap, i)
  {
    hide Middle, Points, Offset, Length;
    NextPoints(segs, n, overlap, i);
    var vs, ve := ToCs(offset), ToCs(offset + len);
    points := AddMiddle([Point(vs, segs[i].start), Point(ve, segs[i].end)], vs, ve, segs[i].start, segs[i].end);
    if i < |segs| - 1 {
      points := points + [Point(ToCs(offset + len), segs[i].end),
          Point(ToCs(offset + len + SILENCE), segs[i + 1].start)];
    }
  }

  lemma NextNone(segs: seq<Segment>, n: int, overlap: nat, i: nat)
    requires i < |segs|
    ensures Length(segs, n, overlap, i) <= 0 ==> Points(segs, n, overlap, i) == []
  {
  }

  /** The speech with short silences, and the table of times, before it is sorted; `fits` says whether
      the copy stays inside the buffer. */
  method Build(segs: seq<Segment>, samples: seq<real>, overlap: nat, ghost audio: int)
    returns (fits: bool, out: array<real>, length: nat, table: seq<Point>)
    requires Apart(segs, 0, audio)
    ensures fits <==> Offset(segs, |samples|, overlap, |segs|) <= Needed(segs, |samples|, overlap)
    ensures fits ==>
              && length == Offset(segs, |samples|, overlap, |segs|) <= out.Length == Needed(segs, |samples|, overlap)
              && out[..length] == Filtered(segs, samples, overlap, |segs|)
              && table == Table(segs, |samples|, overlap, |segs|)
  {
    hide Needed, Middle, Table, Points, Filtered, Offset;
    var n := |samples|;
    var total := CountSamples(segs, n, overlap);
    Begin(segs, samples, overlap);
    out := new real[if total < 0 then 0 else total](_ => 0.0);
    length, table := 0, [];
    if total < 0 {
      OffsetGrows(segs, n, overlap, 0, |segs|);
      return false, out, length, table;
    }
    for i := 0 to |segs|
      invariant length == Offset(segs, n, overlap, i) <= out.Length
      invariant out[..length] == Filtered(segs, samples, overlap, i)
      invariant table == Table(segs, n, overlap, i)
      modifies out
    {
      OffsetGrows(segs, n, overlap, i + 1, |segs|);
      Next(segs, samples, overlap, i);
      NextNone(segs, n, overlap, i);
      var start, end := ToSamples(segs[i].start), ToSamples(segs[i].end);
      var last := i == |segs| - 1;
      if !last {
        end := end + overlap;
      }
      start, end := Least(start, n - 1), Least(end, n - 1);
      var len := end - start;
      if len > 0 {
        var points := SegmentPoints(segs, n, overlap, i, length, len);
        var gap := if last then 0 else SILENCE;
        if length + len + gap > out.Length {
          return false, out, length, table;    // past the buffer
        }
        CopyOut(out, length, samples, start, len, gap);
        length := length + len + gap;
        table := table + points;
      }
    }
    fits := true;
  }

  /** From probabilities to the cut audio. With a pad of at least 5 ms it fits its buffer. */
  method CutSilence(p: Params, window: nat, probs: seq<real>, samples: seq<real>, overlap: nat)
    returns (fits: bool, out: array<real>, length: nat, table: seq<Point>, segs: seq<Segment>)
    requires window > 0 && |probs| > 0 && At(window, |probs| - 1) < |samples|
    ensures segs == Final(p, Raw(p, window, probs), At(window, |probs|)) && Apart(segs, 0, ToCs(At(window, |probs|)))
    ensures p.padMs >= 5 ==> fits
    ensures fits <==> Offset(segs, |samples|, overlap, |segs|) <= Needed(segs, |samples|, overlap)
    ensures fits ==>
              && length == Offset(segs, |samples|, overlap, |segs|) <= out.Length == Needed(segs, |samples|, overlap)
              && out[..length] == Filtered(segs, samples, overlap, |segs|)
              && table == Table(segs, |samples|, overlap, |segs|)
  {
    hide Needed, Table, Filtered, Offset, Final, Raw, At, RawOk;
    segs := SegmentsFromProbs(p, window, probs);
    if p.padMs >= 5 {
      DetectorFits(p, window, probs, Raw(p, window, probs), segs, |samples|, overlap);
    }
    fits, out, length, table := Build(segs, samples, overlap, ToCs(At(window, |probs|)));
  }

  /** Without a pad it may not: speech in the first and in the last of nine windows, and one sample of
      the last window in the audio. */
  lemma LateStartDoesNotFit()
    ensures var p := Params(0.5, 31, 100, 1000.0, 0);
            var probs := [1.0, 0.0, 0.0, 0.0, 0.0, 0.0, 0.0, 0.0, 1.0];
            var segs := Final(p, Raw(p, 512, probs), At(512, 9));
            && segs == [Segment(0, 3), Segment(26, 29)] && At(512, 8) < 4097
            && Offset(segs, 4097, 0, 2) == 2080 && Needed(segs, 4097, 0) == 2016
  {
    var p := Params(0.5, 31, 100, 1000.0, 0);
    var probs := [1.0, 0.0, 0.0, 0.0, 0.0, 0.0, 0.0, 0.0, 1.0];
    LateDetected();
    var found := [Segment(0, 512), Segment(4096, 4608)];
    LateRaw(found);
    var segs := [Segment(0, 3), Segment(26, 29)];
    assert Final(p, found, 4608) == segs by {
      assert PaddedAt(found, 0, 0, 4608) == found[0] && PaddedAt(found, 1, 0, 4608) == found[1];
    }
    assert Offset(segs, 4097, 0, 1) == 2080;
    assert Counted(segs, 4097, 0, 1) == 480;
  }

  lemma LateRaw(found: seq<Segment>)
    requires found == [Segment(0, 512), Segment(4096, 4608)]
    ensures Long(Merged(found), 496) == found
  {
    assert Merged(found[1..]) == found[1..];
    assert Merged(found) == [found[0]] + found[1..] == found;
    assert Long(found[1..][1..], 496) == [];
    assert Long(found[1..], 496) == [found[1]];
  }

  lemma LateHeard()
    ensures Listened(Params(0.5, 31, 100, 1000.0, 0), 512, [1.0, 0.0, 0.0, 0.0, 0.0, 0.0, 0.0, 0.0, 1.0], 5) ==
            Ear([], true, 0, 512, 0, 0, 0, [], [])
  {
    var p := Params(0.5, 31, 100, 1000.0, 0);
    var probs := [1.0, 0.0, 0.0, 0.0, 0.0, 0.0, 0.0, 0.0, 1.0];
    hide Listened;
    assert MaxSpeech(p, 512) == 15999488 && NegThreshold(p) == 0.35;
    assert Samples(p.minSilenceMs) == 1600 && Samples(p.minSpeechMs) == 496;
    ListenedNext(p, 512, probs, 0);
    assert Listened(p, 512, probs, 1) == Ear([], true, 0, 0, 0, 0, 0, [], []);
    ListenedNext(p, 512, probs, 1);
    assert Listened(p, 512, probs, 2) == Ear([], true, 0, 512, 0, 0, 0, [], []);
    ListenedNext(p, 512, probs, 2);
    assert Listened(p, 512, probs, 3) == Ear([], true, 0, 512, 0, 0, 0, [], []);
    ListenedNext(p, 512, probs, 3);
    assert Listened(p, 512, probs, 4) == Ear([], true, 0, 512, 0, 0, 0, [], []);
    ListenedNext(p, 512, probs, 4);
    assert Listened(p, 512, probs, 5) == Ear([], true, 0, 512, 0, 0, 0, [], []);
  }

  lemma LateDetected()
    ensures Detected(Params(0.5, 31, 100, 1000.0, 0), 512, [1.0, 0.0, 0.0, 0.0, 0.0, 0.0, 0.0, 0.0, 1.0]) ==
            [Segment(0, 512), Segment(4096, 4608)]
  {
    var p := Params(0.5, 31, 100, 1000.0, 0);
    var probs := [1.0, 0.0, 0.0, 0.0, 0.0, 0.0, 0.0, 0.0, 1.0];
    hide Listened;
    assert MaxSpeech(p, 512) == 15999488 && NegThreshold(p) == 0.35;
    assert Samples(p.minSilenceMs) == 1600 && Samples(p.minSpeechMs) == 496;
    LateHeard();
    var d := Ear([Segment(0, 512)], false, 0, 0, 0, 0, 0, [0], []);
    ListenedNext(p, 512, probs, 5);
    assert Listened(p, 512, probs, 6) == d;
    ListenedNext(p, 512, probs, 6);
    assert Listened(p, 512, probs, 7) == d;
    ListenedNext(p, 512, probs, 7);
    assert Listened(p, 512, probs, 8) == d;
    ListenedNext(p, 512, probs, 8);
    assert Listened(p, 512, probs, 9) == d.(isSpeech := true, start := 4096, cut := 4096);
  }

  lemma Begin(segs: seq<Segment>, samples: seq<real>, overlap: nat)
    requires forall k :: 0 <= k < |segs| ==> 0 <= segs[k].start
    ensures Offset(segs, |samples|, overlap, 0) == 0 && Filtered(segs, samples, overlap, 0) == []
    ensures Table(segs, |samples|, overlap, 0) == []
  {
  }

  lemma Next(segs: seq<Segment>, samples: seq<real>, overlap: nat, i: nat)
    requires i < |segs| && forall k :: 0 <= k < |segs| ==> 0 <= segs[k].start
    ensures var n := |samples|;
            var offset, len := Offset(segs, n, overlap, i), Length(segs, n, overlap, i);
            && Offset(segs, n, overlap, i + 1) == offset + (if len > 0 then len + Pause(segs, i) else 0)
            && Table(segs, n, overlap, i + 1) == Table(segs, n, overlap, i) + Points(segs, n, overlap, i)
            && (len <= 0 ==> Filtered(segs, samples, overlap, i + 1) == Filtered(segs, samples, overlap, i))
    ensures var n := |samples|;
            Length(segs, n, overlap, i) > 0 ==>
              Filtered(segs, samples, overlap, i + 1) ==
              Filtered(segs, samples, overlap, i) +
              (samples[StartOf(segs, n, i)..EndOf(segs, n, overlap, i)] + seq(Pause(segs, i), _ => 0.0))
  {
    hide Points;
  }

  lemma NextPoints(segs: seq<Segment>, n: int, overlap: nat, i: nat)
    requires i < |segs|
    ensures var offset, len := Offset(segs, n, overlap, i), Length(segs, n, overlap, i);
            var vs, ve := ToCs(offset), ToCs(offset + len);
            len > 0 ==>
              Points(segs, n, overlap, i) ==
              [Point(vs, segs[i].start), Point(ve, segs[i].end)] + Middle(vs, ve, segs[i].start, segs[i].end,
                  MiddleCount(vs, ve)) +
              if i < |segs| - 1 then [Point(ve, segs[i].end),
                  Point(ToCs(offset + len + SILENCE), segs[i + 1].start)] else []
  {
    hide Middle, Offset, Length;
  }
}
