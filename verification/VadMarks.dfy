/** Where segments end, in terms of the probabilities: at a silence of the given length, at one of more than
    98 ms when the segment becomes too long, at the limit itself, or with the audio. */
module VadMarks {
  import opened VadEar
  import opened VadSilence
  import opened VadLimit

  /** Well below the threshold, or below 1 %. */
  predicate Low(p: Params, probs: seq<real>, a: nat) {
    a < |probs| && (probs[a] < 0.01 || probs[a] < p.threshold - 0.15)
  }

  lemma LowIs(p: Params, prob: real)
    ensures prob < NegThreshold(p) <==> prob < 0.01 || prob < p.threshold - 0.15
  {
  }

  /** A silence from window `a` to window `b`. */
  ghost predicate Lull(p: Params, probs: seq<real>, a: nat, b: nat) {
    a <= b && Low(p, probs, a) && Low(p, probs, b) && forall k :: a < k <= b ==> probs[k] < p.threshold
  }

  /** At sample `x` begins a silence of at least `len` samples. */
  ghost predicate Paused(p: Params, window: nat, probs: seq<real>, x: int, len: int) {
    exists a: nat, b: nat :: x == At(window, a) && Lull(p, probs, a, b) && At(window, b) - At(window, a) >= len
  }

  /** With window `j` a segment that began at `start` is too long. */
  ghost predicate TooLong(p: Params, window: nat, start: int, j: nat) {
    if NoLimit(p, window) then At(window, j) - start >= 0x4000_0000 else At(window, j + 1) - start > Longest(p)
  }

  ghost predicate EndsRightly(p: Params, window: nat, probs: seq<real>, s: Segment) {
    || s.end == At(window, |probs|)
    || Paused(p, window, probs, s.end, 16 * p.minSilenceMs) || Paused(p, window, probs, s.end, 1569)
    || exists j: nat :: j < |probs| && s.end == At(window, j) && TooLong(p, window, s.start, j)
  }

  ghost predicate AllEnd(p: Params, window: nat, probs: seq<real>, s: seq<Segment>) {
    forall k :: 0 <= k < |s| ==> EndsRightly(p, window, probs, s[k])
  }

  /** The mark of the present silence is where it began, and there was no speech since. */
  ghost predicate Silenced(p: Params, window: nat, probs: seq<real>, x: int, n: nat) {
    exists a: nat :: a < n && x == At(window, a) && Low(p, probs, a) && forall k :: a < k < n && k < |probs| ==>
      probs[k] < p.threshold
  }

  ghost predicate MarksTrue(p: Params, window: nat, probs: seq<real>, d: Ear, n: nat) {
    && AllEnd(p, window, probs, d.speeches)
    && (d.tempEnd != 0 ==> Silenced(p, window, probs, d.tempEnd, n))
    && (d.prevEnd != 0 ==> Paused(p, window, probs, d.prevEnd, 1569))
  }

  lemma PushMarks(p: Params, window: nat, probs: seq<real>, d: Ear, n: nat, end: int)
    requires MarksTrue(p, window, probs, d, n) && EndsRightly(p, window, probs, Segment(d.start, end))
    ensures MarksTrue(p, window, probs, d.Pushed(end), n) && MarksTrue(p, window, probs, d.Pushed(end).Reset(), n)
  {
    hide EndsRightly, Silenced, Paused;
  }

  lemma SilentMarks(p: Params, window: nat, probs: seq<real>, d: Ear, n: nat)
    requires n < |probs| && At(window, n) > 0 && Low(p, probs, n)
    requires AllEnd(p, window, probs, d.speeches) && (d.prevEnd != 0 ==> Paused(p, window, probs, d.prevEnd, 1569))
    requires d.tempEnd != 0 ==> probs[n] < p.threshold && Silenced(p, window, probs, d.tempEnd, n)
    ensures MarksTrue(p, window, probs, d.Silent(p, At(window, n)), n + 1)
  {
    hide AllEnd, Paused, Low, Silenced, At, EndsRightly;
    var now := At(window, n);
    var t := if d.tempEnd == 0 then now else d.tempEnd;
    MarkHere(p, window, probs, t, n, d.tempEnd == 0);
    var d2 := d.(tempEnd := t, prevEnd := if now - t > SPLIT_SILENCE then t else d.prevEnd);
    if now - t >= Samples(p.minSilenceMs) {
      RightEnd(p, window, probs, d2.start, t);
      PushMarks(p, window, probs, d2, n + 1, t);
    }
  }

  /** In a low window the silence goes on, or begins: it has lasted from its mark. */
  lemma MarkHere(p: Params, window: nat, probs: seq<real>, t: int, n: nat, begins: bool)
    requires n < |probs| && Low(p, probs, n)
    requires if begins then t == At(window, n) else probs[n] < p.threshold && Silenced(p, window, probs, t, n)
    ensures Silenced(p, window, probs, t, n + 1)
    ensures forall len: int :: At(window, n) - t >= len ==> Paused(p, window, probs, t, len)
  {
    hide At, Low;
    if begins {
      assert Lull(p, probs, n, n);
    } else {
      var a: nat :| a < n && t == At(window, a) && Low(p, probs, a) && forall k :: a < k < n && k < |probs| ==>
        probs[k] < p.threshold;
      assert Lull(p, probs, a, n);
    }
  }

  lemma RightEnd(p: Params, window: nat, probs: seq<real>, start: int, end: int)
    requires Paused(p, window, probs, end, Samples(p.minSilenceMs))
    ensures EndsRightly(p, window, probs, Segment(start, end))
  {
    hide Paused, At;
    assert Samples(p.minSilenceMs) == 16 * p.minSilenceMs;
  }

  lemma RightSplit(p: Params, window: nat, probs: seq<real>, start: int, end: int)
    requires Paused(p, window, probs, end, 1569)
    ensures EndsRightly(p, window, probs, Segment(start, end))
  {
    hide Paused, At;
  }

  lemma RightCut(p: Params, window: nat, probs: seq<real>, start: int, i: nat)
    requires window > 0 && i < |probs| && At(window, i) - start > MaxSpeech(p, window)
    ensures EndsRightly(p, window, probs, Segment(start, At(window, i)))
  {
    hide Paused, At;
    AtOrder(window, i, i + 1);
    if NoLimit(p, window) {
      UnlimitedIs(p, window);
    } else {
      LimitIs(p, window);
    }
    assert TooLong(p, window, start, i);
  }

  lemma UnlimitedIs(p: Params, window: nat)
    requires NoLimit(p, window)
    ensures MaxSpeech(p, window) == 0x3fff_ffff
  {
  }

  /** A window without silence keeps the marks, unless it is speech, which takes the mark of a silence away. */
  lemma PassMarks(p: Params, window: nat, probs: seq<real>, d: Ear, n: nat)
    requires n < |probs| && AllEnd(p, window, probs, d.speeches)
    requires d.prevEnd != 0 ==> Paused(p, window, probs, d.prevEnd, 1569)
    requires d.tempEnd != 0 ==> probs[n] < p.threshold && Silenced(p, window, probs, d.tempEnd, n)
    ensures MarksTrue(p, window, probs, d, n + 1)
  {
    hide AllEnd, Paused, Low, At;
    if d.tempEnd != 0 {
      var a: nat :| a < n && d.tempEnd == At(window, a) && Low(p, probs, a) &&
        forall k :: a < k < n && k < |probs| ==> probs[k] < p.threshold;
      assert a < n + 1;
    }
  }

  lemma QuietMarks(p: Params, window: nat, probs: seq<real>, d: Ear, n: nat)
    requires n < |probs| && AllEnd(p, window, probs, d.speeches) && (d.isSpeech ==> At(window, n) > 0)
    requires d.prevEnd != 0 ==> Paused(p, window, probs, d.prevEnd, 1569)
    requires d.tempEnd != 0 ==> probs[n] < p.threshold && Silenced(p, window, probs, d.tempEnd, n)
    ensures MarksTrue(p, window, probs, d.Quiet(p, At(window, n), probs[n]), n + 1)
  {
    hide AllEnd, Paused, Silenced, At, Ear.Silent, MarksTrue;
    LowIs(p, probs[n]);
    if probs[n] < NegThreshold(p) && d.isSpeech {
      SilentMarks(p, window, probs, d, n);
    } else {
      PassMarks(p, window, probs, d, n);
    }
  }

  lemma StepMarks(p: Params, window: nat, probs: seq<real>, i: nat)
    requires window > 0 && i < |probs| && MarksTrue(p, window, probs, Listened(p, window, probs, i), i)
    ensures MarksTrue(p, window, probs, Listened(p, window, probs, i + 1), i + 1)
  {
    hide At, MaxSpeech, Ear.Quiet, AllEnd, Paused, Silenced, EndsRightly;
    var d, now := Listened(p, window, probs, i), At(window, i);
    var e := if probs[i] >= p.threshold then d.Returned(now) else d;
    ListenedNext(p, window, probs, i);
    BeforeWindow(p, window, probs, i);
    Began(p, window, probs, i);
    if probs[i] >= p.threshold && !d.isSpeech {
    } else if e.isSpeech && now - e.start > MaxSpeech(p, window) {
      if e.prevEnd != 0 {
        RightSplit(p, window, probs, e.start, e.prevEnd);
        SplitMarks(p, window, probs, e, i, now);
        QuietMarks(p, window, probs, e.Split(now), i);
      } else {
        RightCut(p, window, probs, e.start, i);
        CutMarks(p, window, probs, e, i, now);
      }
    } else {
      QuietMarks(p, window, probs, e, i);
    }
  }

  lemma Began(p: Params, window: nat, probs: seq<real>, i: nat)
    requires window > 0 && i < |probs|
    ensures var d := Listened(p, window, probs, i); d.isSpeech ==> 0 <= d.start
  {
    ListenedFair(p, window, probs, i);
  }

  lemma SplitMarks(p: Params, window: nat, probs: seq<real>, d: Ear, n: nat, now: int)
    requires AllEnd(p, window, probs, d.speeches) && EndsRightly(p, window, probs, Segment(d.start, d.prevEnd))
    ensures AllEnd(p, window, probs, d.Split(now).speeches) && d.Split(now).tempEnd == 0 && d.Split(now).prevEnd == 0
  {
    hide EndsRightly;
  }

  lemma CutMarks(p: Params, window: nat, probs: seq<real>, d: Ear, n: nat, now: int)
    requires AllEnd(p, window, probs, d.speeches) && EndsRightly(p, window, probs, Segment(d.start, now))
    ensures MarksTrue(p, window, probs, d.Pushed(now).Reset(), n + 1)
  {
    hide EndsRightly, Silenced, Paused;
  }

  lemma {:induction false} ListenedMarks(p: Params, window: nat, probs: seq<real>, n: nat)
    requires window > 0 && n <= |probs|
    ensures MarksTrue(p, window, probs, Listened(p, window, probs, n), n)
  {
    if n > 0 {
      hide MarksTrue;
      ListenedMarks(p, window, probs, n - 1);
      StepMarks(p, window, probs, n - 1);
    }
  }

  /** Every segment found ends with the audio, where a silence begins that lasts as long as ends a segment, where one
      of more than 98 ms begins, or at the window with which it would be too long. */
  lemma SegmentsEnd(p: Params, window: nat, probs: seq<real>, k: nat)
    requires window > 0 && k < |Detected(p, window, probs)|
    ensures EndsRightly(p, window, probs, Detected(p, window, probs)[k])
  {
    hide At, Listened, Paused, Silenced;
    var d := Listened(p, window, probs, |probs|);
    ListenedMarks(p, window, probs, |probs|);
    if d.isSpeech {
      PushMarks(p, window, probs, d, |probs|, At(window, |probs|));
    }
  }

  // ----- and no silence is overlooked

  /** A silence without speech from its first window on. */
  ghost predicate Hushed(p: Params, probs: seq<real>, a: nat, b: nat) {
    Lull(p, probs, a, b) && probs[a] < p.threshold
  }

  /** A silence of more than 98 ms in the segment that is heard has left a mark to cut at. */
  ghost predicate Kept(p: Params, window: nat, probs: seq<real>, d: Ear, n: nat) {
    d.prevEnd == 0 ==>
      forall a: nat, b: nat :: Measured(window, d, a) && b < n && Hushed(p, probs, a, b) ==>
        At(window, b) - At(window, a) <= 1568
  }

  lemma FreshKept(p: Params, window: nat, probs: seq<real>, d: Ear, i: nat)
    requires window > 0 && (d.isSpeech ==> d.cut == At(window, i))
    ensures Kept(p, window, probs, d, i + 1) && Kept(p, window, probs, d, i)
  {
    hide Hushed, At;
    forall a: nat, b: nat | Measured(window, d, a) && b < i + 1 && Hushed(p, probs, a, b)
      ensures At(window, b) - At(window, a) <= 1568
    {
      AtOrder(window, a, i);
      AtOrder(window, b, i);
    }
  }

  lemma QuietKept(p: Params, window: nat, probs: seq<real>, d: Ear, i: nat)
    requires window > 0 && i < |probs| && Kept(p, window, probs, d, i) && (d.isSpeech ==> At(window, i) > 0)
    requires probs[i] < p.threshold ==> Marks(p, window, probs, d, i)
    ensures Kept(p, window, probs, d.Quiet(p, At(window, i), probs[i]), i + 1)
  {
    hide At;
    LowIs(p, probs[i]);
    var now := At(window, i);
    var e := d.Quiet(p, now, probs[i]);
    if e.prevEnd == 0 && e.isSpeech {
      forall a: nat, b: nat | Measured(window, e, a) && b < i + 1 && Hushed(p, probs, a, b)
        ensures At(window, b) - At(window, a) <= 1568
      {
        assert Measured(window, d, a);
        LowIs(p, probs[a]);
        if b == i && a < i {
          assert Unvoiced(p, probs, a, i);
        }
      }
    }
  }

  lemma StepKept(p: Params, window: nat, probs: seq<real>, i: nat)
    requires window > 0 && i < |probs| && Kept(p, window, probs, Listened(p, window, probs, i), i)
    ensures Kept(p, window, probs, Listened(p, window, probs, i + 1), i + 1)
  {
    hide At, MaxSpeech, Ear.Quiet, Hushed, NegThreshold;
    var d, now := Listened(p, window, probs, i), At(window, i);
    var e := if probs[i] >= p.threshold then d.Returned(now) else d;
    ListenedNext(p, window, probs, i);
    BeforeWindow(p, window, probs, i);
    Began(p, window, probs, i);
    ListenedStill(p, window, probs, i);
    SameKept(p, window, probs, d, e, i);
    if probs[i] >= p.threshold && !d.isSpeech {
      FreshKept(p, window, probs, e.Started(now), i);
    } else if e.isSpeech && now - e.start > MaxSpeech(p, window) {
      if e.prevEnd != 0 {
        FreshKept(p, window, probs, e.Split(now), i);
        SplitSilent(p, window, probs, e, i);
        QuietKept(p, window, probs, e.Split(now), i);
      } else {
        FreshKept(p, window, probs, e.Pushed(now).Reset(), i);
      }
    } else {
      QuietKept(p, window, probs, e, i);
    }
  }

  lemma SameKept(p: Params, window: nat, probs: seq<real>, d: Ear, e: Ear, n: nat)
    requires e == d.(tempEnd := e.tempEnd, nextStart := e.nextStart) && Kept(p, window, probs, d, n)
    ensures Kept(p, window, probs, e, n)
  {
    hide Hushed, At;
    if e.prevEnd == 0 {
      forall a: nat, b: nat | Measured(window, e, a) && b < n && Hushed(p, probs, a, b)
        ensures At(window, b) - At(window, a) <= 1568
      {
        assert Measured(window, d, a);
      }
    }
  }

  /** After a cut no window before is measured. */
  lemma SplitSilent(p: Params, window: nat, probs: seq<real>, d: Ear, i: nat)
    requires window > 0 && i < |probs|
    ensures d.Split(At(window, i)).isSpeech ==> d.Split(At(window, i)).cut == At(window, i)
    ensures Marks(p, window, probs, d.Split(At(window, i)), i)
  {
    hide At, NegThreshold;
    var e := d.Split(At(window, i));
    forall a | 0 <= a < i
      ensures At(window, a) < At(window, i)
    {
      AtOrder(window, a, i);
    }
  }

  lemma {:induction false} ListenedKept(p: Params, window: nat, probs: seq<real>, n: nat)
    requires window > 0 && n <= |probs|
    ensures Kept(p, window, probs, Listened(p, window, probs, n), n)
  {
    if n > 0 {
      hide Kept;
      ListenedKept(p, window, probs, n - 1);
      StepKept(p, window, probs, n - 1);
    } else {
      hide Hushed, At;
    }
  }

  /** Speech is cut off without a silence only when the segment, from its start or from where the one before it was
      cut, has none of more than 98 ms. */
  lemma CutWithoutPause(p: Params, window: nat, probs: seq<real>, i: nat, a: nat, b: nat)
    requires window > 0 && CutHere(p, window, probs, i) && b < i && Hushed(p, probs, a, b)
    requires Measured(window, Listened(p, window, probs, i), a)
    ensures At(window, b) - At(window, a) <= 1568
  {
    hide Hushed, At, Listened, MaxSpeech;
    ListenedKept(p, window, probs, i);
  }
}
