/** How long segments get, in seconds and samples: when there is no limit, and what the limit does. */
module VadLimit {
  import opened VadEar
  import opened Vad
  import opened VadSilence

  /** The whole seconds of the limit. */
  function Seconds(x: real): int {
    if x < 0.0 then -((-x).Floor) else x.Floor
  }

  /** There is no limit: more than 100000 s are given, or less than a window is left of it after both pads. */
  predicate NoLimit(p: Params, window: nat) {
    p.maxSpeechS > 100000.0 || 16000 * Seconds(p.maxSpeechS) - 2 * (16000 * p.padMs / 1000) < window
  }

  /** Without a limit, audio of less than 2^30 samples is never cut for length. */
  lemma NeverCut(p: Params, window: nat, probs: seq<real>, i: nat)
    requires window > 0 && NoLimit(p, window) && At(window, |probs|) < 0x4000_0000
    ensures !CutHere(p, window, probs, i) && forall start :: !SplitHere(p, window, probs, i, start)
  {
    hide At;
    if i < |probs| {
      ListenedFair(p, window, probs, i);
      AtOrder(window, i, |probs|);
      assert MaxSpeech(p, window) == 0x3fff_ffff;
      ReturnedSame(Listened(p, window, probs, i), At(window, i));
    }
  }

  /** Then every window of speech is in a segment exactly when it is in no stretch too short to count. */
  lemma UncutSpeech(p: Params, window: nat, probs: seq<real>, i: nat)
    requires window > 0 && NoLimit(p, window) && At(window, |probs|) < 0x4000_0000
    requires Voiced(p, probs, i) && (p.threshold >= 0.01 || !Faint(p, probs, i))
    ensures Covers(Detected(p, window, probs), window, i) <==> !Covers(Heard(p, window, probs).dropped, window, i)
  {
    hide Covers, CutHere, Faint;
    NeverCut(p, window, probs, i);
    SpeechFound(p, window, probs, i);
  }

  // ----- with a limit

  /** The longest that a segment can be: the limit without both pads. */
  function Longest(p: Params): int {
    16000 * Seconds(p.maxSpeechS) - 2 * (16000 * p.padMs / 1000)
  }

  lemma LimitIs(p: Params, window: nat)
    requires !NoLimit(p, window)
    ensures MaxSpeech(p, window) == Longest(p) - window >= 0
  {
  }

  /** A segment is cut at a window exactly when with the window it would be longer than that. */
  lemma CutAtLimit(p: Params, window: nat, probs: seq<real>, i: nat)
    requires window > 0 && !NoLimit(p, window)
    ensures var d := if i < |probs| then Listened(p, window, probs, i) else DEAF;
            CutHere(p, window, probs, i) <==>
            Voiced(p, probs, i) && d.isSpeech && d.prevEnd == 0 && At(window, i + 1) - d.start > Longest(p)
  {
    hide At, MaxSpeech, Longest;
    LimitIs(p, window);
    AtOrder(window, i, i + 1);
  }

  ghost predicate AllWithin(s: seq<Segment>, longest: int) {
    forall k :: 0 <= k < |s| ==> s[k].end - s[k].start <= longest
  }

  /** Nothing found or heard before sample `next` is longer than the limit. */
  ghost predicate Bounded(d: Ear, window: nat, longest: int, next: int) {
    && AllWithin(d.speeches, longest) && (d.isSpeech ==> next - d.start <= longest)
    && (d.isSpeech && d.nextStart != 0 ==> d.start + window <= d.nextStart)
  }

  lemma PushBounded(d: Ear, window: nat, longest: int, next: int, end: int)
    requires AllWithin(d.speeches, longest) && end - d.start <= longest
    ensures Bounded(d.Pushed(end).Reset(), window, longest, next)
  {
  }

  lemma QuietBounded(p: Params, d: Ear, window: nat, longest: int, now: int, prob: real)
    requires Bounded(d, window, longest, now + window) && (d.isSpeech ==> d.tempEnd <= now)
    ensures Bounded(d.Quiet(p, now, prob), window, longest, now + window)
  {
    hide NegThreshold;
    if d.isSpeech && prob < NegThreshold(p) {
      var t := if d.tempEnd == 0 then now else d.tempEnd;
      var d2 := d.(tempEnd := t, prevEnd := if now - t > SPLIT_SILENCE then t else d.prevEnd);
      PushBounded(d2, window, longest, now + window, t);
    }
  }

  lemma StepBounded(p: Params, window: nat, probs: seq<real>, i: nat)
    requires window > 0 && i < |probs| && !NoLimit(p, window)
    requires Bounded(Listened(p, window, probs, i), window, Longest(p), At(window, i))
    ensures Bounded(Listened(p, window, probs, i + 1), window, Longest(p), At(window, i + 1))
  {
    hide At, MaxSpeech, NegThreshold, Ear.Quiet, Longest;
    var d, now, prob := Listened(p, window, probs, i), At(window, i), probs[i];
    var e := if prob >= p.threshold then d.Returned(now) else d;
    LimitIs(p, window);
    ListenedNext(p, window, probs, i);
    AtOrder(window, i, i + 1);
    BeforeWindow(p, window, probs, i);
    if prob >= p.threshold && !d.isSpeech {
    } else if e.isSpeech && now - e.start > MaxSpeech(p, window) {
      if e.prevEnd != 0 {
        SplitBounded(e, window, Longest(p), now);
        QuietBounded(p, e.Split(now), window, Longest(p), now, prob);
      } else {
        PushBounded(e, window, Longest(p), now + window, now);
      }
    } else {
      QuietBounded(p, e, window, Longest(p), now, prob);
    }
  }

  lemma SplitBounded(d: Ear, window: nat, longest: int, now: int)
    requires Bounded(d, window, longest, now) && d.isSpeech && 0 < d.prevEnd <= now
    ensures Bounded(d.Split(now), window, longest, now + window)
  {
    PushBounded(d, window, longest, now + window, d.prevEnd);
  }

  /** Marks are not after the window, and a segment began at least one window before it. */
  lemma BeforeWindow(p: Params, window: nat, probs: seq<real>, i: nat)
    requires window > 0 && i < |probs|
    ensures var d, now := Listened(p, window, probs, i), At(window, i);
            && d.tempEnd <= now && d.prevEnd <= now && 0 <= d.prevEnd && (d.isSpeech ==> d.start + window <= now)
            && (!d.isSpeech ==> d.nextStart == 0 && d.tempEnd == 0)
  {
    hide At;
    var d := Listened(p, window, probs, i);
    ListenedFair(p, window, probs, i);
    ListenedStill(p, window, probs, i);
    if d.isSpeech {
      var k: nat :| Voiced(p, probs, k) && d.start == At(window, k);
      AtOrder(window, k, i);
    }
  }

  lemma {:induction false} ListenedBounded(p: Params, window: nat, probs: seq<real>, n: nat)
    requires window > 0 && n <= |probs| && !NoLimit(p, window)
    ensures Bounded(Listened(p, window, probs, n), window, Longest(p), At(window, n))
  {
    if n == 0 {
      DeafBounded(p, window, probs);
    } else {
      hide Bounded, Listened, At, Longest, NoLimit;
      ListenedBounded(p, window, probs, n - 1);
      StepBounded(p, window, probs, n - 1);
    }
  }

  lemma DeafBounded(p: Params, window: nat, probs: seq<real>)
    ensures Bounded(Listened(p, window, probs, 0), window, Longest(p), At(window, 0))
  {
    hide At, Longest;
  }

  /** No segment found is longer than the limit. */
  lemma SegmentsLimited(p: Params, window: nat, probs: seq<real>, k: nat)
    requires window > 0 && !NoLimit(p, window) && k < |Detected(p, window, probs)|
    ensures var s := Detected(p, window, probs)[k]; s.end - s.start <= Longest(p)
  {
    hide At, Longest, Listened;
    var d := Listened(p, window, probs, |probs|);
    ListenedBounded(p, window, probs, |probs|);
    if d.isSpeech {
      PushBounded(d, window, Longest(p), 0, At(window, |probs|));
    }
  }
}
