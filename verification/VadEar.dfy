/** The detector of speech as a value: what it does with each window, and where every window of speech
    ends up. */
module VadEar {
  const INT_MAX: int := 0x7fff_ffff
  const SPLIT_SILENCE: int := 1568          // 98 ms of samples

  datatype Segment = Segment(start: int, end: int)

  datatype Params = Params(threshold: real, minSpeechMs: nat, minSilenceMs: nat, maxSpeechS: real, padMs: nat)

  /** Milliseconds as samples. */
  function Samples(ms: nat): nat {
    16000 * ms / 1000
  }

  /** The longest segment that is not split, in samples. */
  function MaxSpeech(p: Params, window: nat): nat {
    if p.maxSpeechS > 100000.0 then INT_MAX / 2
    else
      var seconds := if p.maxSpeechS < 0.0 then -((-p.maxSpeechS).Floor) else p.maxSpeechS.Floor;
      var n := 16000 * seconds - window - 2 * Samples(p.padMs);
      if n > INT_MAX || n < 0 then INT_MAX / 2 else n
  }

  function NegThreshold(p: Params): real {
    if p.threshold - 0.15 < 0.01 then 0.01 else p.threshold - 0.15
  }

  /** The first sample of window `i`. */
  function At(window: nat, i: nat): nat {
    window * i
  }

  lemma AtStep(window: nat, i: nat, n: nat)
    requires i < n
    ensures At(window, i + 1) == At(window, i) + window <= At(window, n)
  {
    assert window * (i + 1) == window * i + window;
    var d := n - (i + 1);
    assert window * n == window * (i + 1) + window * d;
    assert window * d >= 0;
  }

  // ----- segments

  /** Segments in order, at least `gap` apart, none longer than the audio. */
  ghost predicate Apart(s: seq<Segment>, gap: int, audio: int) {
    && (forall i :: 0 <= i < |s| ==> 0 <= s[i].start <= s[i].end <= audio)
    && (forall i :: 0 < i < |s| ==> s[i - 1].end + gap <= s[i].start)
  }

  lemma {:induction false} ApartFar(s: seq<Segment>, gap: int, audio: int, i: nat, j: nat)
    requires Apart(s, gap, audio) && i < j < |s| && gap >= 0
    ensures s[i].end + gap <= s[j].start
  {
    if i + 1 < j {
      ApartFar(s, gap, audio, i, j - 1);
      assert s[j - 1].end + gap <= s[j].start;
    } else {
      assert s[j - 1].end + gap <= s[j].start;
    }
  }

  ghost predicate Holds(s: seq<Segment>, x: int) {
    exists k :: 0 <= k < |s| && s[k].start <= x < s[k].end
  }

  /** All of window `i` is in one of the segments. */
  ghost predicate Covers(s: seq<Segment>, window: nat, i: nat) {
    exists k :: 0 <= k < |s| && s[k].start <= At(window, i) && At(window, i + 1) <= s[k].end
  }

  ghost predicate Ends(s: seq<Segment>, x: int) {
    exists k :: 0 <= k < |s| && s[k].end == x
  }

  ghost predicate Before(s: seq<Segment>, x: int) {
    forall k :: 0 <= k < |s| ==> s[k].end <= x
  }

  /** No segment of one list meets one of the other. */
  ghost predicate Clear(s: seq<Segment>, t: seq<Segment>) {
    forall j, k :: 0 <= j < |s| && 0 <= k < |t| ==> s[j].end <= t[k].start || t[k].end <= s[j].start
  }

  // ----- detection

  predicate Voiced(p: Params, probs: seq<real>, i: nat) {
    i < |probs| && probs[i] >= p.threshold
  }

  /** A window that would begin a silence. With a threshold below 0.01 it may be speech as well. */
  predicate Faint(p: Params, probs: seq<real>, i: nat) {
    i < |probs| && probs[i] < NegThreshold(p)
  }

  /** Sample `x` is the first of a window of speech. */
  ghost predicate SpeechAt(p: Params, window: nat, probs: seq<real>, x: int) {
    exists i: nat :: Voiced(p, probs, i) && x == At(window, i)
  }

  /** The state of the detector as a value. `cut` is where the measuring of silence began for the
      segment that is being heard, and `cuts` the same for the segments found: the start of the segment,
      or where the one before it was cut for being too long. `dropped` are the stretches that were too
      short for a segment. */
  datatype Ear = Ear(speeches: seq<Segment>, isSpeech: bool, start: int, tempEnd: int, prevEnd: int, nextStart: int,
                     cut: int, cuts: seq<int>, dropped: seq<Segment>)
  {
    function Pushed(end: int): Ear {
      this.(speeches := speeches + [Segment(start, end)], cuts := cuts + [cut])
    }

    function Dropped(end: int): Ear {
      this.(dropped := dropped + [Segment(start, end)])
    }

    /** The segment that is heard ends: it is found, or too short. */
    function Closed(p: Params, end: int): Ear {
      if end - start > Samples(p.minSpeechMs) then Pushed(end) else Dropped(end)
    }

    function Reset(): Ear {
      this.(isSpeech := false, tempEnd := 0, prevEnd := 0, nextStart := 0)
    }

    /** Speech has come back. */
    function Returned(now: int): Ear {
      if tempEnd == 0 then this else this.(tempEnd := 0, nextStart := if nextStart < prevEnd then now else nextStart)
    }

    function Started(now: int): Ear {
      this.(isSpeech := true, start := now, cut := now)
    }

    /** A segment that is too long has been cut at its last silence. */
    function Split(now: int): Ear {
      var d := Pushed(prevEnd);
      if nextStart < prevEnd then d.Reset()
      else d.(start := nextStart, cut := now, tempEnd := 0, prevEnd := 0, nextStart := 0)
    }

    function Silent(p: Params, now: int): Ear {
      var d := if tempEnd == 0 then this.(tempEnd := now) else this;
      var d2 := if now - d.tempEnd > SPLIT_SILENCE then d.(prevEnd := d.tempEnd) else d;
      if now - d2.tempEnd < Samples(p.minSilenceMs) then d2 else d2.Closed(p, d2.tempEnd).Reset()
    }

    function Quiet(p: Params, now: int, prob: real): Ear {
      if prob < NegThreshold(p) && isSpeech then Silent(p, now) else this
    }

    /** One window. */
    function Step(p: Params, window: nat, now: int, prob: real): Ear {
      var d := if prob >= p.threshold then Returned(now) else this;
      if prob >= p.threshold && !d.isSpeech then d.Started(now) else d.Went(p, window, now, prob)
    }

    /** The window went by without a new segment. */
    function Went(p: Params, window: nat, now: int, prob: real): Ear {
      if isSpeech && now - start > MaxSpeech(p, window) then
        if prevEnd != 0 then Split(now).Quiet(p, now, prob) else Pushed(now).Reset()
      else Quiet(p, now, prob)
    }
  }

  const DEAF := Ear([], false, 0, 0, 0, 0, 0, [], [])

  /** The detector after the first `n` windows. */
  function Listened(p: Params, window: nat, probs: seq<real>, n: nat): Ear
    requires n <= |probs|
  {
    if n == 0 then DEAF else Listened(p, window, probs, n - 1).Step(p, window, At(window, n - 1), probs[n - 1])
  }

  lemma ListenedNext(p: Params, window: nat, probs: seq<real>, n: nat)
    requires n < |probs|
    ensures Listened(p, window, probs, 0) == DEAF
    ensures Listened(p, window, probs, n + 1) == Listened(p, window, probs, n).Step(p, window, At(window, n), probs[n])
  {
  }

  /** The detector at the end of the audio. */
  function Heard(p: Params, window: nat, probs: seq<real>): Ear {
    var d, audio := Listened(p, window, probs, |probs|), At(window, |probs|);
    if d.isSpeech then d.Closed(p, audio) else d
  }

  function Detected(p: Params, window: nat, probs: seq<real>): seq<Segment> {
    Heard(p, window, probs).speeches
  }
  /** Window `i` is speech, the segment that is being heard is too long, and there is no silence to cut
      it at: it ends before the window, and no segment starts with it. */
  ghost predicate CutHere(p: Params, window: nat, probs: seq<real>, i: nat) {
    && Voiced(p, probs, i)
    && var d := Listened(p, window, probs, i);
       d.isSpeech && At(window, i) - d.start > MaxSpeech(p, window) && d.prevEnd == 0
  }

  /** A stretch too short to count: it starts in speech, and no speech follows for as long as ends a
      segment. */
  ghost predicate Short(p: Params, window: nat, probs: seq<real>, d: Segment) {
    && SpeechAt(p, window, probs, d.start) && d.end - d.start <= Samples(p.minSpeechMs)
    && forall i: nat :: Voiced(p, probs, i) ==>
         At(window, i) <= d.end || d.end + Samples(p.minSilenceMs) <= At(window, i)
  }

  // ----- what every window keeps

  ghost predicate Mark(d: Ear, m: int, now: int) {
    0 <= m && (m != 0 ==> d.isSpeech && d.start <= m <= now)
  }

  /** Everything is in order up to sample `now`. */
  ghost predicate Timely(d: Ear, now: int) {
    && Apart(d.speeches, 0, now) && Apart(d.dropped, 0, now) && Clear(d.speeches, d.dropped) && 0 <= now
    && (d.isSpeech ==> 0 <= d.start <= now && Before(d.speeches, d.start) && Before(d.dropped, d.start))
    && Mark(d, d.tempEnd, now) && Mark(d, d.prevEnd, now) && Mark(d, d.nextStart, now)
  }

  /** Segments start in speech. */
  ghost predicate Talks(p: Params, window: nat, probs: seq<real>, d: Ear) {
    && (forall k :: 0 <= k < |d.speeches| ==> SpeechAt(p, window, probs, d.speeches[k].start))
    && (d.isSpeech ==> SpeechAt(p, window, probs, d.start))
    && (d.nextStart != 0 ==> SpeechAt(p, window, probs, d.nextStart))
    && (forall k :: 0 <= k < |d.dropped| ==> Short(p, window, probs, d.dropped[k]))
  }

  /** Window `i` is over at sample `x`, or it is faint and begins there. */
  ghost predicate Past(p: Params, window: nat, probs: seq<real>, i: nat, x: int) {
    At(window, i) < x || (At(window, i) == x && Faint(p, probs, i))
  }

  ghost predicate AllPast(p: Params, window: nat, probs: seq<real>, n: nat, x: int) {
    forall i: nat :: i < n && Voiced(p, probs, i) ==> Past(p, window, probs, i, x)
  }

  /** After the mark of the present silence there is no speech in the first `n` windows, and after the
      mark for splitting none before speech came back. */
  ghost predicate Marked(p: Params, window: nat, probs: seq<real>, d: Ear, n: nat) {
    && (d.tempEnd != 0 ==> AllPast(p, window, probs, n, d.tempEnd))
    && (d.prevEnd != 0 && d.nextStart < d.prevEnd ==> AllPast(p, window, probs, n, d.prevEnd))
    && (d.prevEnd != 0 ==> forall i: nat :: i < n && Voiced(p, probs, i) ==>
          Past(p, window, probs, i, d.prevEnd) || d.nextStart <= At(window, i))
    && (d.prevEnd != 0 && d.tempEnd == 0 ==> d.prevEnd <= d.nextStart)
  }

  /** Where window `i` is, once it has been heard. */
  ghost predicate Placed(p: Params, window: nat, probs: seq<real>, d: Ear, i: nat) {
    var x := At(window, i);
    || Holds(d.speeches, x) || Holds(d.dropped, x) || CutHere(p, window, probs, i) || (d.isSpeech && d.start <= x)
    || (Faint(p, probs, i) && (Ends(d.speeches, x) || Ends(d.dropped, x)))
  }

  ghost predicate AllPlaced(p: Params, window: nat, probs: seq<real>, d: Ear, n: nat) {
    forall i: nat :: i < n && Voiced(p, probs, i) ==> Placed(p, window, probs, d, i)
  }

  ghost predicate Beside(s: seq<Segment>, x: int) {
    forall k :: 0 <= k < |s| ==> s[k].end <= x || x < s[k].start
  }

  /** A segment ends at sample `x`, and nothing else has it. */
  ghost predicate Severed(d: Ear, x: int) {
    Ends(d.speeches, x) && Beside(d.speeches, x) && Beside(d.dropped, x) && (d.isSpeech ==> x < d.start)
  }

  ghost predicate AllSevered(p: Params, window: nat, probs: seq<real>, d: Ear, n: nat) {
    forall i: nat :: i < n && CutHere(p, window, probs, i) ==> Severed(d, At(window, i))
  }

  ghost predicate Grid(window: nat, x: int) {
    exists i: nat :: x == At(window, i)
  }

  ghost predicate EndsOnGrid(window: nat, s: seq<Segment>) {
    forall k :: 0 <= k < |s| ==> Grid(window, s[k].end)
  }

  ghost predicate OnGrid(window: nat, d: Ear) {
    && EndsOnGrid(window, d.speeches) && EndsOnGrid(window, d.dropped)
    && Grid(window, d.tempEnd) && Grid(window, d.prevEnd)
  }

  ghost predicate Fair(p: Params, window: nat, probs: seq<real>, d: Ear, n: nat, now: int) {
    && Timely(d, now) && Talks(p, window, probs, d) && Marked(p, window, probs, d, n)
    && AllPlaced(p, window, probs, d, n) && AllSevered(p, window, probs, d, n) && OnGrid(window, d)
  }

  lemma AtOrder(window: nat, i: nat, j: nat)
    requires window > 0
    ensures i < j <==> At(window, i) < At(window, j)
    ensures i < j ==> At(window, i) + window == At(window, i + 1) <= At(window, j)
  {
    if i < j {
      AtStep(window, i, j);
    } else if j < i {
      AtStep(window, j, i);
    }
  }

  lemma HoldsSnoc(s: seq<Segment>, a: Segment, x: int)
    ensures Holds(s + [a], x) <==> Holds(s, x) || a.start <= x < a.end
    ensures Ends(s + [a], x) <==> Ends(s, x) || a.end == x
  {
    var t := s + [a];
    assert t[|s|] == a;
    if Holds(s, x) {
      var k :| 0 <= k < |s| && s[k].start <= x < s[k].end;
      assert t[k] == s[k];
    }
    if Ends(s, x) {
      var k :| 0 <= k < |s| && s[k].end == x;
      assert t[k] == s[k];
    }
  }

  lemma ApartSnoc(s: seq<Segment>, now: int, a: Segment)
    requires Apart(s, 0, now) && Before(s, a.start) && 0 <= a.start <= a.end <= now
    ensures Apart(s + [a], 0, now)
  {
  }

  lemma ClearSnoc(s: seq<Segment>, t: seq<Segment>, a: Segment)
    requires Clear(s, t)
    ensures Before(s, a.start) ==> Clear(s, t + [a])
    ensures Before(t, a.start) ==> Clear(s + [a], t)
  {
  }

  /** The segment that is heard is found, and ends at `end`. */
  lemma PushKeeps(p: Params, window: nat, probs: seq<real>, d: Ear, n: nat, now: int, end: int)
    requires Fair(p, window, probs, d, n, now) && d.isSpeech && d.start <= end <= now
    requires AllPast(p, window, probs, n, end) && Grid(window, end)
    ensures Fair(p, window, probs, d.Pushed(end).Reset(), n, now)
  {
    hide At, SpeechAt, Short, CutHere, Holds, Ends, Grid, Faint, Clear;
    var a := Segment(d.start, end);
    var e := d.Pushed(end).Reset();
    ApartSnoc(d.speeches, now, a);
    ClearSnoc(d.speeches, d.dropped, a);
    assert Grid(window, 0) by {
      GridZero(window);
    }
    forall i: nat | i < n && Voiced(p, probs, i)
      ensures Placed(p, window, probs, e, i)
    {
      HoldsSnoc(d.speeches, a, At(window, i));
      assert Past(p, window, probs, i, end);
      assert Placed(p, window, probs, d, i);
    }
    forall i: nat | i < n && CutHere(p, window, probs, i)
      ensures Severed(e, At(window, i))
    {
      HoldsSnoc(d.speeches, a, At(window, i));
      assert Severed(d, At(window, i));
    }
  }

  lemma GridZero(window: nat)
    ensures Grid(window, 0)
  {
    assert At(window, 0) == 0;
  }

  /** The segment that is heard is too short. */
  lemma DropKeeps(p: Params, window: nat, probs: seq<real>, d: Ear, n: nat, now: int, end: int)
    requires Fair(p, window, probs, d, n, now) && d.isSpeech && d.start <= end <= now
    requires AllPast(p, window, probs, n, end) && Grid(window, end) && Short(p, window, probs, Segment(d.start, end))
    ensures Fair(p, window, probs, d.Dropped(end).Reset(), n, now)
  {
    hide At, SpeechAt, Short, CutHere, Holds, Ends, Grid, Faint, Clear;
    var a := Segment(d.start, end);
    var e := d.Dropped(end).Reset();
    ApartSnoc(d.dropped, now, a);
    ClearSnoc(d.speeches, d.dropped, a);
    GridZero(window);
    forall i: nat | i < n && Voiced(p, probs, i)
      ensures Placed(p, window, probs, e, i)
    {
      HoldsSnoc(d.dropped, a, At(window, i));
      assert Past(p, window, probs, i, end);
      assert Placed(p, window, probs, d, i);
    }
    forall i: nat | i < n && CutHere(p, window, probs, i)
      ensures Severed(e, At(window, i))
    {
      assert Severed(d, At(window, i));
    }
  }

  /** A stretch of the first `n` windows that is followed by silence until window `n`, or by the end. */
  lemma ShortOne(p: Params, window: nat, probs: seq<real>, n: nat, d: Segment)
    requires window > 0 && SpeechAt(p, window, probs, d.start) && d.end - d.start <= Samples(p.minSpeechMs)
    requires AllPast(p, window, probs, n, d.end)
    requires n < |probs| ==> d.end + Samples(p.minSilenceMs) <= At(window, n)
    ensures Short(p, window, probs, d)
  {
    hide At;
    forall i: nat | Voiced(p, probs, i)
      ensures At(window, i) <= d.end || d.end + Samples(p.minSilenceMs) <= At(window, i)
    {
      if i < n {
        assert Past(p, window, probs, i, d.end);
      } else {
        AtOrder(window, n, i);
      }
    }
  }

  /** A segment that is too long is cut at its last silence. */
  lemma SplitKeeps(p: Params, window: nat, probs: seq<real>, d: Ear, n: nat, now: int)
    requires Fair(p, window, probs, d, n, now) && d.isSpeech && d.prevEnd != 0
    ensures Fair(p, window, probs, d.Split(now), n, now)
  {
    hide At, SpeechAt, Short, CutHere, Holds, Ends, Grid, Clear, Faint;
    if d.nextStart < d.prevEnd {
      PushKeeps(p, window, probs, d, n, now, d.prevEnd);
    } else {
      var a := Segment(d.start, d.prevEnd);
      var e := d.Split(now);
      ApartSnoc(d.speeches, now, a);
      ClearSnoc(d.speeches, d.dropped, a);
      GridZero(window);
      forall i: nat | i < n && Voiced(p, probs, i)
        ensures Placed(p, window, probs, e, i)
      {
        HoldsSnoc(d.speeches, a, At(window, i));
        assert Placed(p, window, probs, d, i);
      }
      forall i: nat | i < n && CutHere(p, window, probs, i)
        ensures Severed(e, At(window, i))
      {
        HoldsSnoc(d.speeches, a, At(window, i));
        assert Severed(d, At(window, i));
      }
    }
  }

  /** The speaker is silent in window `n - 1`, which begins at `now`. */
  lemma SilentKeeps(p: Params, window: nat, probs: seq<real>, d: Ear, n: nat, now: int)
    requires Fair(p, window, probs, d, n, now) && d.isSpeech && 0 < now && window > 0
    requires 0 < n <= |probs| && Faint(p, probs, n - 1) && now == At(window, n - 1)
    ensures Fair(p, window, probs, d.Silent(p, now), n, now)
  {
    hide At, SpeechAt, Short, CutHere, Holds, Ends, Clear, Grid, Severed;
    NowPast(p, window, probs, n);
    assert Grid(window, now) by {
      GridHere(window, n - 1);
    }
    var d1 := if d.tempEnd == 0 then d.(tempEnd := now) else d;
    assert Fair(p, window, probs, d1, n, now) by {
      SamePlaces(p, window, probs, d, d1, n);
    }
    var d2 := if now - d1.tempEnd > SPLIT_SILENCE then d1.(prevEnd := d1.tempEnd) else d1;
    assert Fair(p, window, probs, d2, n, now) by {
      SamePlaces(p, window, probs, d1, d2, n);
    }
    if now - d2.tempEnd >= Samples(p.minSilenceMs) {
      if d2.tempEnd - d2.start > Samples(p.minSpeechMs) {
        PushKeeps(p, window, probs, d2, n, now, d2.tempEnd);
      } else {
        if n < |probs| {
          AtOrder(window, n - 1, n);
        }
        ShortOne(p, window, probs, n, Segment(d2.start, d2.tempEnd));
        DropKeeps(p, window, probs, d2, n, now, d2.tempEnd);
      }
    }
  }

  lemma NowPast(p: Params, window: nat, probs: seq<real>, n: nat)
    requires window > 0 && 0 < n && Faint(p, probs, n - 1)
    ensures AllPast(p, window, probs, n, At(window, n - 1))
  {
    forall i: nat | i < n && Voiced(p, probs, i)
      ensures Past(p, window, probs, i, At(window, n - 1))
    {
      AtOrder(window, i, n - 1);
    }
  }

  lemma GridHere(window: nat, i: nat)
    ensures Grid(window, At(window, i))
  {
  }

  /** Marks do not matter for where windows are. */
  lemma SamePlaces(p: Params, window: nat, probs: seq<real>, d: Ear, e: Ear, n: nat)
    requires e.speeches == d.speeches && e.dropped == d.dropped && e.isSpeech == d.isSpeech && e.start == d.start
    requires AllPlaced(p, window, probs, d, n) && AllSevered(p, window, probs, d, n)
    ensures AllPlaced(p, window, probs, e, n) && AllSevered(p, window, probs, e, n)
  {
    hide At, CutHere, Holds, Ends, Beside, Faint;
    forall i: nat | i < n && Voiced(p, probs, i)
      ensures Placed(p, window, probs, e, i)
    {
      assert Placed(p, window, probs, d, i);
    }
    forall i: nat | i < n && CutHere(p, window, probs, i)
      ensures Severed(e, At(window, i))
    {
      assert Severed(d, At(window, i));
    }
  }

  /** Speech may come back in window `n`, and a segment goes on. */
  lemma ReturnKeeps(p: Params, window: nat, probs: seq<real>, d: Ear, n: nat)
    requires window > 0 && n < |probs| && Fair(p, window, probs, d, n, At(window, n))
    requires (Voiced(p, probs, n) ==> d.isSpeech) && !CutHere(p, window, probs, n)
    ensures var e := if Voiced(p, probs, n) then d.Returned(At(window, n)) else d;
            Fair(p, window, probs, e, n + 1, At(window, n))
  {
    hide At, Short, CutHere, Holds, Ends, Grid, Clear, Beside;
    var now := At(window, n);
    ghost var m := n + 1;
    var e := if Voiced(p, probs, n) then d.Returned(now) else d;
    SamePlaces(p, window, probs, d, e, n);
    GridZero(window);
    assert Voiced(p, probs, n) ==> SpeechAt(p, window, probs, now);
    OneMore(p, window, probs, e, n);
    forall i: nat | i < m && Voiced(p, probs, i)
      ensures i < n || i == n
    {
    }
    assert Marked(p, window, probs, e, m);
  }

  lemma OneMore(p: Params, window: nat, probs: seq<real>, d: Ear, n: nat)
    requires AllPlaced(p, window, probs, d, n) && AllSevered(p, window, probs, d, n)
    requires Voiced(p, probs, n) ==> Placed(p, window, probs, d, n)
    requires CutHere(p, window, probs, n) ==> Severed(d, At(window, n))
    ensures AllPlaced(p, window, probs, d, n + 1) && AllSevered(p, window, probs, d, n + 1)
  {
    hide At, CutHere, Placed, Severed;
  }

  /** A segment starts with window `n`. */
  lemma StartKeeps(p: Params, window: nat, probs: seq<real>, d: Ear, n: nat)
    requires window > 0 && n < |probs| && Fair(p, window, probs, d, n, At(window, n))
    requires Voiced(p, probs, n) && !d.isSpeech && !CutHere(p, window, probs, n)
    ensures Fair(p, window, probs, d.Started(At(window, n)), n + 1, At(window, n))
  {
    hide At, Short, CutHere, Holds, Ends, Grid, Clear;
    var now := At(window, n);
    var e := d.Started(now);
    assert SpeechAt(p, window, probs, now);
    forall i: nat | i < n && Voiced(p, probs, i)
      ensures Placed(p, window, probs, e, i)
    {
      assert Placed(p, window, probs, d, i);
    }
    forall i: nat | i < n && CutHere(p, window, probs, i)
      ensures Severed(e, At(window, i))
    {
      assert Severed(d, At(window, i));
      AtOrder(window, i, n);
    }
    OneMore(p, window, probs, e, n);
  }

  /** A segment that is too long ends before window `n`, for lack of a silence. */
  lemma CutKeeps(p: Params, window: nat, probs: seq<real>, d: Ear, n: nat)
    requires window > 0 && n < |probs| && Fair(p, window, probs, d, n, At(window, n)) && d.isSpeech
    requires Voiced(p, probs, n) ==> CutHere(p, window, probs, n)
    ensures Fair(p, window, probs, d.Pushed(At(window, n)).Reset(), n + 1, At(window, n))
  {
    hide At, Short, Holds, Ends, Grid, Clear, SpeechAt;
    var now := At(window, n);
    var e := d.Pushed(now).Reset();
    assert AllPast(p, window, probs, n, now) by {
      forall i: nat | i < n && Voiced(p, probs, i)
        ensures Past(p, window, probs, i, now)
      {
        AtOrder(window, i, n);
      }
    }
    GridHere(window, n);
    PushKeeps(p, window, probs, d, n, now, now);
    HoldsSnoc(d.speeches, Segment(d.start, now), now);
    OneMore(p, window, probs, e, n);
  }

  lemma StepKeeps(p: Params, window: nat, probs: seq<real>, n: nat)
    requires window > 0 && n < |probs|
    requires Fair(p, window, probs, Listened(p, window, probs, n), n, At(window, n))
    ensures Fair(p, window, probs, Listened(p, window, probs, n + 1), n + 1, At(window, n + 1))
  {
    hide At, Fair, Ear.Returned, Ear.Started, Ear.Split, Ear.Silent, Ear.Pushed, Ear.Reset, MaxSpeech, NegThreshold;
    var d, now, prob := Listened(p, window, probs, n), At(window, n), probs[n];
    var m := n + 1;
    ListenedNext(p, window, probs, n);
    var e := if Voiced(p, probs, n) then d.Returned(now) else d;
    ReturnedSame(d, now);
    if Voiced(p, probs, n) && !d.isSpeech {
      QuietEar(p, window, probs, d, n, now);
      StartKeeps(p, window, probs, d, n);
    } else if d.isSpeech && now - d.start > MaxSpeech(p, window) && d.prevEnd == 0 {
      CutKeeps(p, window, probs, d, n);
    } else {
      ReturnKeeps(p, window, probs, d, n);
      if d.isSpeech && now - d.start > MaxSpeech(p, window) {
        SplitKeeps(p, window, probs, e, m, now);
        QuietKeeps(p, window, probs, e.Split(now), m, now);
      } else {
        QuietKeeps(p, window, probs, e, m, now);
      }
    }
    LaterFair(p, window, probs, Listened(p, window, probs, m), m, now);
  }

  lemma ReturnedSame(d: Ear, now: int)
    ensures var e := d.Returned(now);
            && e.isSpeech == d.isSpeech && e.start == d.start && e.prevEnd == d.prevEnd
            && e.Pushed(now).Reset() == d.Pushed(now).Reset()
  {
  }

  lemma QuietEar(p: Params, window: nat, probs: seq<real>, d: Ear, n: nat, now: int)
    requires Fair(p, window, probs, d, n, now) && !d.isSpeech
    ensures d.Returned(now) == d
  {
  }

  lemma QuietKeeps(p: Params, window: nat, probs: seq<real>, d: Ear, n: nat, now: int)
    requires Fair(p, window, probs, d, n, now) && window > 0
    requires 0 < n <= |probs| && now == At(window, n - 1) && (d.isSpeech ==> n > 1)
    ensures Fair(p, window, probs, d.Quiet(p, now, probs[n - 1]), n, now)
  {
    hide Fair, Ear.Silent, At;
    if d.isSpeech && probs[n - 1] < NegThreshold(p) {
      AtOrder(window, 0, n - 1);
      SilentKeeps(p, window, probs, d, n, now);
    }
  }

  lemma LaterFair(p: Params, window: nat, probs: seq<real>, d: Ear, n: nat, now: int)
    requires n > 0 && Fair(p, window, probs, d, n, now) && now == At(window, n - 1)
    ensures Fair(p, window, probs, d, n, At(window, n))
  {
    hide Talks, Marked, AllPlaced, AllSevered, OnGrid, At;
    AtStep(window, n - 1, n);
  }

  /** The detector keeps all this, over any probabilities. */
  lemma {:induction false} ListenedFair(p: Params, window: nat, probs: seq<real>, n: nat)
    requires window > 0 && n <= |probs|
    ensures Fair(p, window, probs, Listened(p, window, probs, n), n, At(window, n))
  {
    if n == 0 {
      DeafFair(p, window, probs);
    } else {
      hide Fair, Listened, At;
      ListenedFair(p, window, probs, n - 1);
      StepKeeps(p, window, probs, n - 1);
    }
  }

  lemma DeafFair(p: Params, window: nat, probs: seq<real>)
    ensures Fair(p, window, probs, DEAF, 0, At(window, 0))
  {
    hide Short, SpeechAt, CutHere, Listened, NegThreshold;
    GridZero(window);
  }

  /** At the end nothing is being heard any more. */
  lemma HeardFair(p: Params, window: nat, probs: seq<real>)
    requires window > 0
    ensures Fair(p, window, probs, Heard(p, window, probs).Reset(), |probs|, At(window, |probs|))
  {
    hide At, SpeechAt, Short, CutHere, Holds, Ends, Clear, Grid;
    var n := |probs|;
    var d, audio := Listened(p, window, probs, n), At(window, n);
    ListenedFair(p, window, probs, n);
    if d.isSpeech {
      forall i: nat | i < n && Voiced(p, probs, i)
        ensures Past(p, window, probs, i, audio)
      {
        AtOrder(window, i, n);
      }
      GridHere(window, n);
      if audio - d.start > Samples(p.minSpeechMs) {
        PushKeeps(p, window, probs, d, n, audio, audio);
      } else {
        ShortOne(p, window, probs, n, Segment(d.start, audio));
        DropKeeps(p, window, probs, d, n, audio, audio);
      }
    } else {
      assert d.Reset() == d;
    }
  }

  // ----- where the speech is

  /** Whole windows are in a segment, or none of it. */
  lemma WholeWindow(s: seq<Segment>, window: nat, i: nat)
    requires window > 0 && EndsOnGrid(window, s)
    ensures Covers(s, window, i) <==> Holds(s, At(window, i))
  {
    hide At;
    AtOrder(window, i, i + 1);
    if Holds(s, At(window, i)) {
      var k :| 0 <= k < |s| && s[k].start <= At(window, i) < s[k].end;
      assert Grid(window, s[k].end);
      var j: nat :| s[k].end == At(window, j);
      AtOrder(window, i, j);
    }
  }

  /** A window of speech is in exactly one of three places: in a segment that is found, in a stretch that
      is too short to count, or between two segments, because it is the one at which a segment became too
      long and had no silence to be cut at. This is so for every window that does not itself begin a
      silence; one that does may also be the first window after a segment or a stretch. */
  lemma SpeechFound(p: Params, window: nat, probs: seq<real>, i: nat)
    requires window > 0 && Voiced(p, probs, i)
    ensures var d := Heard(p, window, probs);
            && (Covers(d.speeches, window, i) ==> !Covers(d.dropped, window, i) && !CutHere(p, window, probs, i))
            && (Covers(d.dropped, window, i) ==> !CutHere(p, window, probs, i))
            && (!Faint(p, probs, i) || p.threshold >= 0.01 ==>
                  Covers(d.speeches, window, i) || Covers(d.dropped, window, i) || CutHere(p, window, probs, i))
            && (Covers(d.speeches, window, i) || Covers(d.dropped, window, i) || CutHere(p, window, probs, i) ||
                Ends(d.speeches, At(window, i)) || Ends(d.dropped, At(window, i)))
  {
    hide At, SpeechAt, Short, CutHere, Ends, EndsOnGrid, Faint;
    if p.threshold >= 0.01 {
      NeverFaint(p, probs, i);
    }
    var d := Heard(p, window, probs);
    HeardFair(p, window, probs);
    assert Placed(p, window, probs, d.Reset(), i);
    WholeWindow(d.speeches, window, i);
    WholeWindow(d.dropped, window, i);
    assert CutHere(p, window, probs, i) ==> Severed(d.Reset(), At(window, i));
  }

  /** From a threshold of 0.01 on, no window of speech begins a silence. */
  lemma NeverFaint(p: Params, probs: seq<real>, i: nat)
    requires Voiced(p, probs, i) && p.threshold >= 0.01
    ensures !Faint(p, probs, i)
  {
  }

  /** Where speech is cut off for lack of a silence, a segment ends, and no segment has the window. */
  lemma CutBetween(p: Params, window: nat, probs: seq<real>, i: nat)
    requires window > 0 && CutHere(p, window, probs, i)
    ensures Ends(Detected(p, window, probs), At(window, i)) && Beside(Detected(p, window, probs), At(window, i))
  {
    hide At, Ends, Beside, Listened;
    HeardFair(p, window, probs);
    assert Severed(Heard(p, window, probs).Reset(), At(window, i));
  }

  /** Such an input: the third window is speech, and the only segment ends before it. */
  lemma CutLosesSpeech()
    ensures var p, probs := Params(0.5, 0, 100, 1.0, 0), [1.0, 1.0, 1.0, 0.0];
            && Detected(p, 8000, probs) == [Segment(0, 16000)] && Heard(p, 8000, probs).dropped == []
            && Voiced(p, probs, 2) && CutHere(p, 8000, probs, 2)
  {
    var p, probs := Params(0.5, 0, 100, 1.0, 0), [1.0, 1.0, 1.0, 0.0];
    hide Listened;
    assert MaxSpeech(p, 8000) == 8000 && NegThreshold(p) == 0.35;
    ListenedNext(p, 8000, probs, 0);
    ListenedNext(p, 8000, probs, 1);
    assert Listened(p, 8000, probs, 2) == Ear([], true, 0, 0, 0, 0, 0, [], []);
    ListenedNext(p, 8000, probs, 2);
    ListenedNext(p, 8000, probs, 3);
  }

  /** With a threshold below 0.01 a window can be speech and silence at once; then it can be lost without
      a cut. */
  lemma FaintSpeechIsLost()
    ensures var p, probs := Params(0.005, 0, 0, 1000.0, 0), [1.0, 0.007];
            && Heard(p, 512, probs).dropped == [] && Detected(p, 512, probs) == [Segment(0, 512)]
            && Voiced(p, probs, 1) && Faint(p, probs, 1) && !CutHere(p, 512, probs, 1)
  {
    var p, probs := Params(0.005, 0, 0, 1000.0, 0), [1.0, 0.007];
    hide Listened;
    assert MaxSpeech(p, 512) == 15999488 && NegThreshold(p) == 0.01 && Samples(0) == 0;
    ListenedNext(p, 512, probs, 0);
    assert Listened(p, 512, probs, 1) == Ear([], true, 0, 0, 0, 0, 0, [], []);
    ListenedNext(p, 512, probs, 1);
  }
}
