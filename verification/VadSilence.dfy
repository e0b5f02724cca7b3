/** What the segments that the detector finds do not contain: silence that is long enough to end them. */
module VadSilence {
  import opened VadEar

  /** From window `a` to window `b` there is no speech, both ends are below the lower threshold, and the
      time between is as long as ends a segment. */
  ghost predicate LongSilence(p: Params, window: nat, probs: seq<real>, a: nat, b: nat) {
    && a <= b < |probs| && probs[a] < NegThreshold(p) && probs[b] < NegThreshold(p)
    && At(window, b) - At(window, a) >= Samples(p.minSilenceMs) && Unvoiced(p, probs, a, b + 1)
  }

  ghost predicate Unvoiced(p: Params, probs: seq<real>, a: nat, n: nat) {
    forall k :: a <= k < n && k < |probs| ==> probs[k] < p.threshold
  }

  /** Window `a` belongs to the segment that is being heard, and silence is measured from it. */
  ghost predicate Measured(window: nat, d: Ear, a: nat) {
    d.isSpeech && d.start <= At(window, a) && d.cut <= At(window, a)
  }

  /** A silence that goes on has its mark. */
  ghost predicate Marks(p: Params, window: nat, probs: seq<real>, d: Ear, n: nat)
    requires n <= |probs|
  {
    forall a :: 0 <= a < n && Measured(window, d, a) && probs[a] < NegThreshold(p) && Unvoiced(p, probs, a, n) ==>
      d.tempEnd != 0 && d.tempEnd <= At(window, a)
  }

  /** The segment that is being heard has no long silence in the first `n` windows. */
  ghost predicate OpenStill(p: Params, window: nat, probs: seq<real>, d: Ear, n: nat) {
    forall a, b :: 0 <= a <= b < n && Measured(window, d, a) ==> !LongSilence(p, window, probs, a, b)
  }

  /** The segments found have none, from where silence is measured on. */
  ghost predicate FoundStill(p: Params, window: nat, probs: seq<real>, d: Ear) {
    && |d.cuts| == |d.speeches|
    && forall k, a: nat, b: nat :: 0 <= k < |d.speeches| && Within(window, d.speeches[k], d.cuts[k], a, b) ==>
         !LongSilence(p, window, probs, a, b)
  }

  ghost predicate Within(window: nat, s: Segment, cut: int, a: nat, b: nat) {
    s.start <= At(window, a) && cut <= At(window, a) && At(window, b) < s.end
  }

  ghost predicate MarksBefore(d: Ear, now: int) {
    d.tempEnd <= now && d.prevEnd <= now
  }

  /** Silence is measured from the start of a segment, or from where the segment before it was cut for
      being too long. */
  ghost predicate CutsFrom(p: Params, window: nat, s: seq<Segment>, cuts: seq<int>) {
    |cuts| == |s| && forall k :: 0 <= k < |s| ==> CutAt(p, window, s, cuts, k)
  }

  ghost predicate CutAt(p: Params, window: nat, s: seq<Segment>, cuts: seq<int>, k: nat)
    requires k < |s| == |cuts|
  {
    cuts[k] == s[k].start || (k > 0 && cuts[k] - s[k - 1].start > MaxSpeech(p, window))
  }

  ghost predicate CutsOk(p: Params, window: nat, d: Ear) {
    && CutsFrom(p, window, d.speeches, d.cuts)
    && (d.isSpeech ==>
          d.cut == d.start ||
          (d.speeches != [] && d.cut - d.speeches[|d.speeches| - 1].start > MaxSpeech(p, window)))
  }

  lemma AtLess(window: nat, a: nat, b: nat)
    requires window > 0 && a < b
    ensures At(window, a) < At(window, b)
  {
    AtStep(window, a, b);
  }

  /** Putting the present segment on the list. */
  lemma PushStill(p: Params, window: nat, probs: seq<real>, d: Ear, i: nat, end: int)
    requires window > 0 && d.isSpeech && end <= At(window, i) && OpenStill(p, window, probs, d, i)
    requires FoundStill(p, window, probs, d)
    ensures FoundStill(p, window, probs, d.Pushed(end))
  {
    hide LongSilence, At;
    var e := d.Pushed(end);
    forall k, a: nat, b: nat | 0 <= k < |e.speeches| && Within(window, e.speeches[k], e.cuts[k], a, b)
      ensures !LongSilence(p, window, probs, a, b)
    {
      if k < |d.speeches| {
        assert e.speeches[k] == d.speeches[k] && e.cuts[k] == d.cuts[k];
      } else {
        if i < b {
          AtLess(window, i, b);
        }
        if a <= b {
          assert Measured(window, d, a);
        } else {
          NotLong(p, window, probs, a, b);
        }
      }
    }
  }

  lemma NotLong(p: Params, window: nat, probs: seq<real>, a: nat, b: nat)
    requires a > b
    ensures !LongSilence(p, window, probs, a, b)
  {
  }

  /** The state that one window leaves. */
  ghost predicate Still(p: Params, window: nat, probs: seq<real>, d: Ear, n: nat) {
    && n <= |probs| && MarksBefore(d, At(window, n)) && OpenStill(p, window, probs, d, n) &&
        Marks(p, window, probs, d, n)
    && FoundStill(p, window, probs, d) && CutsOk(p, window, d)
  }

  /** Going silent in window `i`, of which nothing is known yet. */
  lemma SilentStill(p: Params, window: nat, probs: seq<real>, d: Ear, i: nat)
    requires window > 0 && i < |probs| && d.isSpeech && At(window, i) > 0
    requires MarksBefore(d, At(window, i)) && OpenStill(p, window, probs, d, i)
    requires probs[i] < p.threshold ==> Marks(p, window, probs, d, i)
    requires FoundStill(p, window, probs, d) && CutsOk(p, window, d)
    ensures var e := d.Silent(p, At(window, i));
            && MarksBefore(e, At(window, i)) && OpenStill(p, window, probs, e, i + 1) &&
                Marks(p, window, probs, e, i + 1)
            && FoundStill(p, window, probs, e) && CutsOk(p, window, e)
  {
    hide At, MaxSpeech, NegThreshold;
    var now := At(window, i);
    var e := d.Silent(p, now);
    var t := if d.tempEnd == 0 then now else d.tempEnd;
    var d2 := d.(tempEnd := t, prevEnd := if now - t > SPLIT_SILENCE then t else d.prevEnd);
    assert FoundStill(p, window, probs, d2) && OpenStill(p, window, probs, d2, i) by {
      SameStill(p, window, probs, d, d2, i);
    }
    SameCuts(p, window, d, d2);
    if e.isSpeech {
      assert e == d2;
      forall a, b | 0 <= a <= b < i + 1 && Measured(window, e, a)
        ensures !LongSilence(p, window, probs, a, b)
      {
        assert Measured(window, d, a);
        if b == i && LongSilence(p, window, probs, a, b) {
          UnvoicedLess(p, probs, a, i);
        }
      }
      forall a | 0 <= a < i + 1 && Measured(window, e, a) && probs[a] < NegThreshold(p) && Unvoiced(p, probs, a, i + 1)
        ensures e.tempEnd != 0 && e.tempEnd <= At(window, a)
      {
        assert Measured(window, d, a);
        UnvoicedLess(p, probs, a, i);
      }
    } else {
      PushStill(p, window, probs, d2, i, t);
      PushCuts(p, window, d2, t);
      ResetCuts(p, window, d2);
    }
  }

  lemma SameStill(p: Params, window: nat, probs: seq<real>, d: Ear, e: Ear, n: nat)
    requires e == d.(tempEnd := e.tempEnd, prevEnd := e.prevEnd, nextStart := e.nextStart)
    requires FoundStill(p, window, probs, d) && OpenStill(p, window, probs, d, n)
    ensures FoundStill(p, window, probs, e) && OpenStill(p, window, probs, e, n)
  {
    hide At, LongSilence;
    forall a, b | 0 <= a <= b < n && Measured(window, e, a)
      ensures !LongSilence(p, window, probs, a, b)
    {
      assert Measured(window, d, a);
    }
  }

  lemma UnvoicedLess(p: Params, probs: seq<real>, a: nat, n: nat)
    requires Unvoiced(p, probs, a, n + 1)
    ensures Unvoiced(p, probs, a, n)
  {
  }

  lemma PushCuts(p: Params, window: nat, d: Ear, end: int)
    requires d.isSpeech && CutsOk(p, window, d)
    ensures CutsOk(p, window, d.Pushed(end).Reset())
  {
    hide MaxSpeech;
    var e := d.Pushed(end).Reset();
    forall k | 0 <= k < |e.speeches|
      ensures CutAt(p, window, e.speeches, e.cuts, k)
    {
      assert k > 0 ==> e.speeches[k - 1] == d.speeches[k - 1];
      if k < |d.speeches| {
        assert CutAt(p, window, d.speeches, d.cuts, k);
        assert e.speeches[k] == d.speeches[k] && e.cuts[k] == d.cuts[k];
      } else {
        assert e.speeches[k].start == d.start && e.cuts[k] == d.cut;
      }
    }
  }

  /** The present segment is cut at its last silence, and another one goes on or none. */
  lemma SplitStill(p: Params, window: nat, probs: seq<real>, d: Ear, i: nat)
    requires window > 0 && i < |probs| && d.isSpeech && MarksBefore(d, At(window, i))
    requires OpenStill(p, window, probs, d, i)
    requires FoundStill(p, window, probs, d) && CutsOk(p, window, d) && At(window, i) - d.start > MaxSpeech(p, window)
    ensures var e := d.Split(At(window, i));
            && MarksBefore(e, At(window, i)) && OpenStill(p, window, probs, e, i) && Marks(p, window, probs, e, i)
            && FoundStill(p, window, probs, e) && CutsOk(p, window, e)
  {
    hide At, MaxSpeech, LongSilence;
    var now := At(window, i);
    var e := d.Split(now);
    PushStill(p, window, probs, d, i, d.prevEnd);
    PushCuts(p, window, d, d.prevEnd);
    NonNegative(window, i);
    forall a | 0 <= a < i
      ensures !Measured(window, e, a)
    {
      AtLess(window, a, i);
    }
  }

  lemma NonNegative(window: nat, i: nat)
    ensures At(window, i) >= 0
  {
  }

  /** A window that is neither speech nor silence changes nothing. */
  lemma PassStill(p: Params, window: nat, probs: seq<real>, d: Ear, i: nat)
    requires window > 0 && i < |probs| && OpenStill(p, window, probs, d, i)
    requires probs[i] < p.threshold ==> Marks(p, window, probs, d, i)
    requires d.isSpeech ==> probs[i] >= NegThreshold(p)
    ensures OpenStill(p, window, probs, d, i + 1) && Marks(p, window, probs, d, i + 1)
  {
    hide At, NegThreshold;
    forall a, b | 0 <= a <= b < i + 1 && Measured(window, d, a)
      ensures !LongSilence(p, window, probs, a, b)
    {
    }
    forall a | 0 <= a < i + 1 && Measured(window, d, a) && probs[a] < NegThreshold(p) && Unvoiced(p, probs, a, i + 1)
      ensures d.tempEnd != 0 && d.tempEnd <= At(window, a)
    {
      UnvoicedLess(p, probs, a, i);
      assert probs[i] < p.threshold;
    }
  }

  lemma QuietStill(p: Params, window: nat, probs: seq<real>, d: Ear, i: nat)
    requires window > 0 && i < |probs| && (d.isSpeech ==> At(window, i) > 0)
    requires MarksBefore(d, At(window, i)) && OpenStill(p, window, probs, d, i)
    requires probs[i] < p.threshold ==> Marks(p, window, probs, d, i)
    requires FoundStill(p, window, probs, d) && CutsOk(p, window, d)
    ensures var e := d.Quiet(p, At(window, i), probs[i]);
            && MarksBefore(e, At(window, i)) && OpenStill(p, window, probs, e, i + 1) &&
                Marks(p, window, probs, e, i + 1)
            && FoundStill(p, window, probs, e) && CutsOk(p, window, e)
  {
    hide OpenStill, Marks, FoundStill, CutsOk, Ear.Silent, NegThreshold;
    if probs[i] < NegThreshold(p) && d.isSpeech {
      SilentStill(p, window, probs, d, i);
    } else {
      PassStill(p, window, probs, d, i);
    }
  }

  /** No window changes that. */
  lemma StepStill(p: Params, window: nat, probs: seq<real>, d: Ear, i: nat)
    requires window > 0 && i < |probs| && Still(p, window, probs, d, i)
    requires (d.isSpeech ==> d.start < At(window, i) && d.start >= 0)
    requires !d.isSpeech ==> d.tempEnd == 0
    ensures Still(p, window, probs, d.Step(p, window, At(window, i), probs[i]), i + 1)
  {
    hide OpenStill, Marks, FoundStill, CutsOk, MaxSpeech, NegThreshold, At, Ear.Quiet, Ear.Split, Ear.Pushed;
    var now := At(window, i);
    AtStep(window, i, i + 1);
    NonNegative(window, i);
    var d1 := if probs[i] >= p.threshold then d.Returned(now) else d;
    SameStill(p, window, probs, d, d1, i);
    SameCuts(p, window, d, d1);
    if probs[i] >= p.threshold && !d1.isSpeech {
      StartStill(p, window, probs, d1, i);
    } else if d1.isSpeech && now - d1.start > MaxSpeech(p, window) {
      if d1.prevEnd != 0 {
        SplitStill(p, window, probs, d1, i);
        QuietStill(p, window, probs, d1.Split(now), i);
      } else {
        PushStill(p, window, probs, d1, i, now);
        PushCuts(p, window, d1, now);
        ResetStill(p, window, probs, d1.Pushed(now), i + 1);
      }
    } else {
      QuietStill(p, window, probs, d1, i);
    }
  }

  lemma SameCuts(p: Params, window: nat, d: Ear, e: Ear)
    requires e == d.(tempEnd := e.tempEnd, prevEnd := e.prevEnd, nextStart := e.nextStart) && CutsOk(p, window, d)
    ensures CutsOk(p, window, e)
  {
  }

  lemma ResetCuts(p: Params, window: nat, d: Ear)
    requires CutsOk(p, window, d)
    ensures CutsOk(p, window, d.Reset())
  {
  }

  lemma StartCuts(p: Params, window: nat, d: Ear, now: int)
    requires CutsOk(p, window, d)
    ensures CutsOk(p, window, d.Started(now))
  {
  }

  lemma StartStill(p: Params, window: nat, probs: seq<real>, d: Ear, i: nat)
    requires window > 0 && i < |probs| && probs[i] >= p.threshold && FoundStill(p, window, probs, d)
    requires CutsOk(p, window, d)
    ensures var e := d.Started(At(window, i));
            && OpenStill(p, window, probs, e, i + 1) && Marks(p, window, probs, e, i + 1)
            && FoundStill(p, window, probs, e) && CutsOk(p, window, e)
  {
    hide At, MaxSpeech, NegThreshold;
    StartCuts(p, window, d, At(window, i));
    var e := d.Started(At(window, i));
    forall a | 0 <= a < i
      ensures !Measured(window, e, a)
    {
      AtLess(window, a, i);
    }
  }

  lemma ResetStill(p: Params, window: nat, probs: seq<real>, d: Ear, n: nat)
    requires n <= |probs| && FoundStill(p, window, probs, d)
    ensures var e := d.Reset();
            OpenStill(p, window, probs, e, n) && Marks(p, window, probs, e, n) && FoundStill(p, window, probs, e)
  {
  }

  /** The marks of the detector are in order, and no cut is later than the present window. */
  ghost predicate InOrder(d: Ear, now: int) {
    && 0 <= d.start && (d.isSpeech ==> d.start < now) && (!d.isSpeech ==> d.tempEnd == 0 && d.prevEnd == 0)
    && 0 <= d.nextStart <= now && d.cut <= now && (forall k :: 0 <= k < |d.cuts| ==> d.cuts[k] <= now)
    && forall k :: 0 <= k < |d.speeches| ==> 0 <= d.speeches[k].start
  }

  ghost predicate Loose(d: Ear, now: int) {
    && InOrder(d.(start := 0), now + 1) && d.cut <= now && d.nextStart <= now
    && 0 <= d.start && (d.isSpeech ==> d.start <= now)
  }

  lemma StepOrder(p: Params, window: nat, d: Ear, i: nat, prob: real)
    requires window > 0 && InOrder(d, At(window, i))
    ensures InOrder(d.Step(p, window, At(window, i), prob), At(window, i + 1))
  {
    hide At, MaxSpeech, NegThreshold, Ear.Split, Ear.Quiet, Ear.Pushed;
    AtLess(window, i, i + 1);
    NonNegative(window, i);
    var now := At(window, i);
    var d1 := if prob >= p.threshold then d.Returned(now) else d;
    assert Loose(d1, now);
    QuietOrder(p, d1, now, prob);
    SplitOrder(d1, now);
    QuietOrder(p, d1.Split(now), now, prob);
    PushOrder(d1, now, now);
  }

  lemma PushOrder(d: Ear, now: int, end: int)
    requires Loose(d, now) && now >= 0
    ensures Loose(d.Pushed(end).Reset(), now)
  {
  }

  lemma SplitOrder(d: Ear, now: int)
    requires Loose(d, now) && now >= 0
    ensures Loose(d.Split(now), now)
  {
    PushOrder(d, now, d.prevEnd);
  }

  lemma QuietOrder(p: Params, d: Ear, now: int, prob: real)
    requires Loose(d, now) && now >= 0
    ensures Loose(d.Quiet(p, now, prob), now)
  {
    hide NegThreshold;
  }

  lemma {:induction false} ListenedStill(p: Params, window: nat, probs: seq<real>, n: nat)
    requires window > 0 && n <= |probs|
    ensures var d := Listened(p, window, probs, n);
            Still(p, window, probs, d, n) && InOrder(d, At(window, n))
  {
    if n > 0 {
      hide Still, At, Ear.Step, InOrder;
      ListenedStill(p, window, probs, n - 1);
      var d := Listened(p, window, probs, n - 1);
      StillParts(p, window, probs, d, n - 1);
      StepStill(p, window, probs, d, n - 1);
      StepOrder(p, window, d, n - 1, probs[n - 1]);
    }
  }

  lemma StillParts(p: Params, window: nat, probs: seq<real>, d: Ear, n: nat)
    requires Still(p, window, probs, d, n) && InOrder(d, At(window, n))
    ensures MarksBefore(d, At(window, n)) && (d.isSpeech ==> d.start < At(window, n) && d.start >= 0)
    ensures !d.isSpeech ==> d.tempEnd == 0
  {
  }

  /** Inside a segment that is found, no silence lasts as long as ends a segment, if it is measured from
      the start of the segment, or from where the segment before it was cut. */
  lemma DetectedStill(p: Params, window: nat, probs: seq<real>)
    requires window > 0
    ensures var d := Heard(p, window, probs);
            && d.speeches == Detected(p, window, probs) && |d.cuts| == |d.speeches|
            && (forall k, a: nat, b: nat :: 0 <= k < |d.speeches| && Within(window, d.speeches[k], d.cuts[k], a, b) ==>
                  !LongSilence(p, window, probs, a, b))
            && CutsFrom(p, window, d.speeches, d.cuts)
  {
    hide At, LongSilence, Within, MaxSpeech, CutsFrom;
    var d, audio := Listened(p, window, probs, |probs|), At(window, |probs|);
    ListenedStill(p, window, probs, |probs|);
    if d.isSpeech && audio - d.start > Samples(p.minSpeechMs) {
      PushStill(p, window, probs, d, |probs|, audio);
      PushCuts(p, window, d, audio);
      var r := d.Pushed(audio).Reset();
      assert r.cuts == d.Pushed(audio).cuts && r.speeches == d.Pushed(audio).speeches;
    }
  }

  // ----- a silence across a cut

  /** In window `j` the segment that is heard is cut at its last silence, and the next one starts at
      sample `start`, where speech had come back. */
  ghost predicate SplitHere(p: Params, window: nat, probs: seq<real>, j: nat, start: int) {
    && j < |probs|
    && var d, now := Listened(p, window, probs, j), At(window, j);
       var e := if probs[j] >= p.threshold then d.Returned(now) else d;
       e.isSpeech && now - e.start > MaxSpeech(p, window) && 0 < e.prevEnd <= e.nextStart == start
  }

  ghost predicate CutBy(p: Params, window: nat, probs: seq<real>, start: int, cut: int) {
    cut == start || exists j: nat :: SplitHere(p, window, probs, j, start) && cut == At(window, j)
  }

  /** No long silence lies between the start of a segment and the cut of the one before it. */
  ghost predicate StillBefore(p: Params, window: nat, probs: seq<real>, start: int, cut: int) {
    forall a: nat, b: nat :: start <= At(window, a) && At(window, b) < cut ==> !LongSilence(p, window, probs, a, b)
  }

  ghost predicate Early(p: Params, window: nat, probs: seq<real>, start: int, cut: int) {
    CutBy(p, window, probs, start, cut) && StillBefore(p, window, probs, start, cut)
  }

  ghost predicate AllEarly(p: Params, window: nat, probs: seq<real>, d: Ear) {
    && |d.cuts| == |d.speeches|
    && (forall k :: 0 <= k < |d.speeches| ==> Early(p, window, probs, d.speeches[k].start, d.cuts[k]))
    && (d.isSpeech ==> Early(p, window, probs, d.start, d.cut) && (d.nextStart != 0 ==> d.cut <= d.nextStart))
  }

  lemma PushEarly(p: Params, window: nat, probs: seq<real>, d: Ear, end: int)
    requires AllEarly(p, window, probs, d) && d.isSpeech
    ensures AllEarly(p, window, probs, d.Pushed(end)) && AllEarly(p, window, probs, d.Pushed(end).Reset())
  {
    hide Early;
  }

  lemma QuietEarly(p: Params, window: nat, probs: seq<real>, d: Ear, now: int, prob: real)
    requires AllEarly(p, window, probs, d)
    ensures AllEarly(p, window, probs, d.Quiet(p, now, prob))
  {
    hide Early, NegThreshold;
    if d.isSpeech && prob < NegThreshold(p) {
      var t := if d.tempEnd == 0 then now else d.tempEnd;
      var d2 := d.(tempEnd := t, prevEnd := if now - t > SPLIT_SILENCE then t else d.prevEnd);
      PushEarly(p, window, probs, d2, t);
    }
  }

  lemma StartEarly(p: Params, window: nat, probs: seq<real>, i: nat)
    requires window > 0
    ensures Early(p, window, probs, At(window, i), At(window, i))
  {
    hide At, LongSilence;
    var now := At(window, i);
    forall a: nat, b: nat | now <= At(window, a) && At(window, b) < now
      ensures !LongSilence(p, window, probs, a, b)
    {
      AtOrder(window, b, a);
      NotLong(p, window, probs, a, b);
    }
  }

  /** The next segment starts inside the one that is cut, where all silence was measured. */
  lemma SplitEarly(p: Params, window: nat, probs: seq<real>, d: Ear, i: nat)
    requires window > 0 && i < |probs| && AllEarly(p, window, probs, d) && OpenStill(p, window, probs, d, i)
    requires d.isSpeech && d.start <= d.nextStart && 0 < d.prevEnd <= d.nextStart
    requires SplitHere(p, window, probs, i, d.nextStart)
    ensures AllEarly(p, window, probs, d.Split(At(window, i)))
  {
    hide At, LongSilence, SplitHere;
    var now := At(window, i);
    PushEarly(p, window, probs, d, d.prevEnd);
    forall a: nat, b: nat | d.nextStart <= At(window, a) && At(window, b) < now
      ensures !LongSilence(p, window, probs, a, b)
    {
      AtOrder(window, b, i);
      if a <= b {
        assert Measured(window, d, a);
      } else {
        NotLong(p, window, probs, a, b);
      }
    }
    assert CutBy(p, window, probs, d.nextStart, now);
  }

  lemma StepEarly(p: Params, window: nat, probs: seq<real>, i: nat)
    requires window > 0 && i < |probs| && AllEarly(p, window, probs, Listened(p, window, probs, i))
    ensures AllEarly(p, window, probs, Listened(p, window, probs, i + 1))
  {
    hide At, MaxSpeech, NegThreshold, Early, Ear.Quiet, Fair, Still, AllEarly;
    var d, now := Listened(p, window, probs, i), At(window, i);
    ListenedNext(p, window, probs, i);
    ListenedFair(p, window, probs, i);
    ListenedStill(p, window, probs, i);
    StillOpen(p, window, probs, d, i);
    var e := if probs[i] >= p.threshold then d.Returned(now) else d;
    ReturnEarly(p, window, probs, d, i);
    if probs[i] >= p.threshold && !d.isSpeech {
      StartEarly(p, window, probs, i);
      StartedEarly(p, window, probs, e, now);
    } else if e.isSpeech && now - e.start > MaxSpeech(p, window) {
      if e.prevEnd != 0 {
        if e.nextStart < e.prevEnd {
          PushEarly(p, window, probs, e, e.prevEnd);
        } else {
          SplitEarly(p, window, probs, e, i);
        }
        QuietEarly(p, window, probs, e.Split(now), now, probs[i]);
      } else {
        PushEarly(p, window, probs, e, now);
      }
    } else {
      QuietEarly(p, window, probs, e, now, probs[i]);
    }
  }

  lemma StartedEarly(p: Params, window: nat, probs: seq<real>, d: Ear, now: int)
    requires AllEarly(p, window, probs, d) && d.nextStart == 0 && Early(p, window, probs, now, now)
    ensures AllEarly(p, window, probs, d.Started(now))
  {
    hide Early;
  }

  /** What the other invariants give before a window. */
  lemma StillOpen(p: Params, window: nat, probs: seq<real>, d: Ear, i: nat)
    requires i < |probs| && Still(p, window, probs, d, i) && InOrder(d, At(window, i))
    requires Fair(p, window, probs, d, i, At(window, i))
    ensures OpenStill(p, window, probs, d, i) && d.cut <= At(window, i) && d.prevEnd >= 0
    ensures d.isSpeech ==> d.start <= At(window, i) && (d.nextStart != 0 ==> d.start <= d.nextStart)
    ensures !d.isSpeech ==> d.tempEnd == 0 && d.nextStart == 0
  {
  }

  lemma ReturnEarly(p: Params, window: nat, probs: seq<real>, d: Ear, i: nat)
    requires i < |probs| && AllEarly(p, window, probs, d) && OpenStill(p, window, probs, d, i)
    requires d.cut <= At(window, i) && (d.isSpeech ==> d.start <= At(window, i))
    requires d.isSpeech && d.nextStart != 0 ==> d.start <= d.nextStart
    ensures var e := if probs[i] >= p.threshold then d.Returned(At(window, i)) else d;
            && AllEarly(p, window, probs, e) && OpenStill(p, window, probs, e, i)
            && (e.isSpeech && e.nextStart != 0 ==> e.start <= e.nextStart)
  {
    hide At, Early, LongSilence;
    var e := if probs[i] >= p.threshold then d.Returned(At(window, i)) else d;
    forall a, b | 0 <= a <= b < i && Measured(window, e, a)
      ensures !LongSilence(p, window, probs, a, b)
    {
      assert Measured(window, d, a);
    }
  }

  lemma {:induction false} ListenedEarly(p: Params, window: nat, probs: seq<real>, n: nat)
    requires window > 0 && n <= |probs|
    ensures AllEarly(p, window, probs, Listened(p, window, probs, n))
  {
    if n == 0 {
      DeafEarly(p, window, probs);
    } else {
      hide AllEarly, Listened, At;
      ListenedEarly(p, window, probs, n - 1);
      StepEarly(p, window, probs, n - 1);
    }
  }

  lemma DeafEarly(p: Params, window: nat, probs: seq<real>)
    ensures AllEarly(p, window, probs, Listened(p, window, probs, 0))
  {
    hide Early, LongSilence, At, NegThreshold, MaxSpeech;
  }

  /** From window `a` to window `b` there is no speech, and both ends are below the lower threshold. */
  ghost predicate Hush(p: Params, probs: seq<real>, a: nat, b: nat) {
    a <= b < |probs| && probs[a] < NegThreshold(p) && probs[b] < NegThreshold(p) && Unvoiced(p, probs, a, b + 1)
  }

  /** A silence inside a found segment is long enough to end it, if and only if the segment before it was cut
      in the middle of it: it is long as a whole, and short from the first silent window after the cut. */
  lemma SilenceAcrossCut(p: Params, window: nat, probs: seq<real>, k: nat, a: nat, b: nat)
    requires window > 0 && k < |Detected(p, window, probs)|
    requires var s := Detected(p, window, probs)[k]; s.start <= At(window, a) && At(window, b) < s.end
    ensures LongSilence(p, window, probs, a, b) <==>
            && Hush(p, probs, a, b) && At(window, b) - At(window, a) >= Samples(p.minSilenceMs)
            && exists j: nat :: SplitHere(p, window, probs, j, Detected(p, window, probs)[k].start) && a < j <= b &&
                 forall c :: j <= c <= b && probs[c] < NegThreshold(p) ==>
                   At(window, b) - At(window, c) < Samples(p.minSilenceMs)
  {
    hide At, NegThreshold, SplitHere, Listened, MaxSpeech;
    if LongSilence(p, window, probs, a, b) {
      var d := Heard(p, window, probs);
      DetectedStill(p, window, probs);
      HeardEarly(p, window, probs, k);
      var s, cut := d.speeches[k], d.cuts[k];
      assert !Within(window, s, cut, a, b);
      assert cut != s.start;
      var j: nat :| SplitHere(p, window, probs, j, s.start) && cut == At(window, j);
      AtOrder(window, a, j);
      assert At(window, b) >= cut;
      AtOrder(window, b, j);
      forall c | j <= c <= b && probs[c] < NegThreshold(p)
        ensures At(window, b) - At(window, c) < Samples(p.minSilenceMs)
      {
        AtOrder(window, a, c);
        AtOrder(window, j, c);
        assert !LongSilence(p, window, probs, c, b) by {
          assert Within(window, s, cut, c, b);
        }
        UnvoicedLater(p, probs, a, c, b + 1);
      }
    }
  }

  lemma UnvoicedLater(p: Params, probs: seq<real>, a: nat, c: nat, n: nat)
    requires a <= c && Unvoiced(p, probs, a, n)
    ensures Unvoiced(p, probs, c, n)
  {
  }

  lemma HeardEarly(p: Params, window: nat, probs: seq<real>, k: nat)
    requires window > 0 && k < |Heard(p, window, probs).speeches|
    ensures var d := Heard(p, window, probs);
            |d.cuts| == |d.speeches| && Early(p, window, probs, d.speeches[k].start, d.cuts[k])
  {
    hide Early, Listened;
    ListenedEarly(p, window, probs, |probs|);
    var d := Listened(p, window, probs, |probs|);
    if d.isSpeech {
      PushEarly(p, window, probs, d, At(window, |probs|));
    }
  }

  /** When the audio is not longer than the longest segment, nothing is ever cut. */
  lemma DetectedStillUncut(p: Params, window: nat, probs: seq<real>, k: nat, a: nat, b: nat)
    requires window > 0 && At(window, |probs|) <= MaxSpeech(p, window)
    requires k < |Detected(p, window, probs)|
    requires Detected(p, window, probs)[k].start <= At(window, a) && At(window, b) < Detected(p, window, probs)[k].end
    ensures !LongSilence(p, window, probs, a, b)
  {
    hide At, LongSilence, MaxSpeech;
    DetectedStill(p, window, probs);
    CutsBounded(p, window, probs);
    var d := Heard(p, window, probs);
    assert Within(window, d.speeches[k], d.cuts[k], a, b);
  }

  lemma CutsBounded(p: Params, window: nat, probs: seq<real>)
    requires window > 0 && At(window, |probs|) <= MaxSpeech(p, window)
    ensures var d := Heard(p, window, probs);
            |d.cuts| == |d.speeches| && forall k :: 0 <= k < |d.speeches| ==> d.cuts[k] == d.speeches[k].start
  {
    hide At, LongSilence, MaxSpeech;
    DetectedStill(p, window, probs);
    ListenedStill(p, window, probs, |probs|);
    var d := Heard(p, window, probs);
    forall k | 0 <= k < |d.speeches|
      ensures d.cuts[k] == d.speeches[k].start
    {
      assert d.cuts[k] <= At(window, |probs|);
      if k > 0 {
        assert 0 <= d.speeches[k - 1].start;
        assert d.cuts[k] - d.speeches[k - 1].start <= MaxSpeech(p, window);
      }
      assert CutAt(p, window, d.speeches, d.cuts, k);
    }
  }

  /** A cut forgets the silence before it: here the second segment has a silence of four windows in it,
      although three would end a segment, because the first one was cut in the second of the four. */
  lemma CutForgetsSilence()
    ensures var p := Params(0.5, 0, 300, 1.0, 94);
            var probs := [1.0, 1.0, 0.0, 0.0, 1.0, 0.0, 0.0, 0.0, 0.0, 1.0];
            && Detected(p, 2000, probs) == [Segment(0, 4000), Segment(8000, 20000)]
            && LongSilence(p, 2000, probs, 5, 8) && 8000 <= At(2000, 5) && At(2000, 8) < 20000
  {
    var p := Params(0.5, 0, 300, 1.0, 94);
    var probs := [1.0, 1.0, 0.0, 0.0, 1.0, 0.0, 0.0, 0.0, 0.0, 1.0];
    CutAfter();
    SilenceThere();
    hide Listened, LongSilence;
    assert MaxSpeech(p, 2000) == 10992 && Samples(p.minSpeechMs) == 0;
  }

  lemma SilenceThere()
    ensures LongSilence(Params(0.5, 0, 300, 1.0, 94), 2000, [1.0, 1.0, 0.0, 0.0, 1.0, 0.0, 0.0, 0.0, 0.0, 1.0], 5, 8)
  {
  }

  lemma CutStep(p: Params)
    requires p == Params(0.5, 0, 300, 1.0, 94)
    ensures Ear([], true, 0, 10000, 4000, 8000, 0, [], []).Step(p, 2000, 12000, 0.0) ==
            Ear([Segment(0, 4000)], true, 8000, 12000, 0, 0, 12000, [0], [])
  {
    var d := Ear([], true, 0, 10000, 4000, 8000, 0, [], []);
    assert MaxSpeech(p, 2000) == 10992 && NegThreshold(p) == 0.35 && Samples(p.minSilenceMs) == 4800;
    assert d.Split(12000) == Ear([Segment(0, 4000)], true, 8000, 0, 0, 0, 12000, [0], []);
  }

  lemma CutAfter()
    ensures Listened(Params(0.5, 0, 300, 1.0, 94), 2000, [1.0, 1.0, 0.0, 0.0, 1.0, 0.0, 0.0, 0.0, 0.0, 1.0], 10) ==
            Ear([Segment(0, 4000)], true, 8000, 0, 12000, 18000, 12000, [0], [])
  {
    var p := Params(0.5, 0, 300, 1.0, 94);
    var probs := [1.0, 1.0, 0.0, 0.0, 1.0, 0.0, 0.0, 0.0, 0.0, 1.0];
    hide Listened, Ear.Step;
    CutNow();
    LateSteps(p);
    ListenedNext(p, 2000, probs, 7);
    ListenedNext(p, 2000, probs, 8);
    ListenedNext(p, 2000, probs, 9);
  }

  lemma LateSteps(p: Params)
    requires p == Params(0.5, 0, 300, 1.0, 94)
    ensures var c := Ear([Segment(0, 4000)], true, 8000, 12000, 0, 0, 12000, [0], []);
            var d := c.(prevEnd := 12000);
            && c.Step(p, 2000, 14000, 0.0) == d && d.Step(p, 2000, 16000, 0.0) == d
            && d.Step(p, 2000, 18000, 1.0) == d.(tempEnd := 0, nextStart := 18000)
  {
    assert MaxSpeech(p, 2000) == 10992 && NegThreshold(p) == 0.35 && Samples(p.minSilenceMs) == 4800;
  }

  lemma CutNow()
    ensures Listened(Params(0.5, 0, 300, 1.0, 94), 2000, [1.0, 1.0, 0.0, 0.0, 1.0, 0.0, 0.0, 0.0, 0.0, 1.0], 7) ==
            Ear([Segment(0, 4000)], true, 8000, 12000, 0, 0, 12000, [0], [])
  {
    hide Listened, Ear.Step;
    CutBefore();
    ListenedNext(Params(0.5, 0, 300, 1.0, 94), 2000, [1.0, 1.0, 0.0, 0.0, 1.0, 0.0, 0.0, 0.0, 0.0, 1.0], 6);
    CutStep(Params(0.5, 0, 300, 1.0, 94));
  }

  lemma CutBefore()
    ensures Listened(Params(0.5, 0, 300, 1.0, 94), 2000, [1.0, 1.0, 0.0, 0.0, 1.0, 0.0, 0.0, 0.0, 0.0, 1.0], 6) ==
            Ear([], true, 0, 10000, 4000, 8000, 0, [], [])
  {
    var p := Params(0.5, 0, 300, 1.0, 94);
    var probs := [1.0, 1.0, 0.0, 0.0, 1.0, 0.0, 0.0, 0.0, 0.0, 1.0];
    hide Listened;
    assert MaxSpeech(p, 2000) == 10992 && NegThreshold(p) == 0.35 && Samples(p.minSilenceMs) == 4800;
    ListenedNext(p, 2000, probs, 0);
    assert Listened(p, 2000, probs, 1) == Ear([], true, 0, 0, 0, 0, 0, [], []);
    ListenedNext(p, 2000, probs, 1);
    assert Listened(p, 2000, probs, 2) == Ear([], true, 0, 0, 0, 0, 0, [], []);
    ListenedNext(p, 2000, probs, 2);
    assert Listened(p, 2000, probs, 3) == Ear([], true, 0, 4000, 0, 0, 0, [], []);
    ListenedNext(p, 2000, probs, 3);
    assert Listened(p, 2000, probs, 4) == Ear([], true, 0, 4000, 4000, 0, 0, [], []);
    ListenedNext(p, 2000, probs, 4);
    assert Listened(p, 2000, probs, 5) == Ear([], true, 0, 0, 4000, 8000, 0, [], []);
    ListenedNext(p, 2000, probs, 5);
  }
}
