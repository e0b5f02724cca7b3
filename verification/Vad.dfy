/** Speech segments from speech probabilities: detection, merging, filtering and padding. */
module Vad {
  import opened Seqs
  import opened VadEar

  const MERGE_GAP: int := 3200              // 200 ms of samples

  // ----- detection

  class Detector {
    const p: Params
    const window: nat
    var speeches: seq<Segment>
    var isSpeech: bool
    var hasCurr: bool
    var start: int
    var tempEnd: int        // where the present silence began, or 0
    var prevEnd: int        // the last silence long enough to split at, or 0
    var nextStart: int      // where speech came back after it, or 0
    ghost var cut: int
    ghost var cuts: seq<int>
    ghost var dropped: seq<Segment>

    ghost function State(): Ear
      reads this
    {
      Ear(speeches, isSpeech, start, tempEnd, prevEnd, nextStart, cut, cuts, dropped)
    }

    ghost predicate Valid()
      reads this
    {
      hasCurr == isSpeech
    }

    constructor (p: Params, window: nat)
      ensures this.p == p && this.window == window && Valid() && State() == DEAF
    {
      this.p, this.window := p, window;
      speeches, isSpeech, hasCurr := [], false, false;
      start, tempEnd, prevEnd, nextStart := 0, 0, 0, 0;
      cut, cuts, dropped := 0, [], [];
    }

    /** The segment that is heard ends at `end`. */
    method Push(end: int)
      modifies this
      ensures State() == old(State()).Pushed(end) && hasCurr == old(hasCurr)
    {
      speeches := speeches + [Segment(start, end)];
      cuts := cuts + [cut];
    }

    method Reset()
      modifies this
      ensures State() == old(State()).Reset() && Valid()
    {
      isSpeech, hasCurr := false, false;
      prevEnd, nextStart, tempEnd := 0, 0, 0;
    }

    /** One window, which begins at sample `now`. */
    method Window(now: int, prob: real)
      requires Valid()
      modifies this
      ensures Valid() && State() == old(State()).Step(p, window, now, prob)
    {
      if prob >= p.threshold && tempEnd != 0 {
        tempEnd := 0;
        if nextStart < prevEnd {
          nextStart := now;
        }
      }
      if prob >= p.threshold && !isSpeech {
        isSpeech, start, hasCurr := true, now, true;
        cut := now;
        return;
      }
      if isSpeech && now - start > MaxSpeech(p, window) {
        var goOn := Split(now);
        if !goOn {
          return;
        }
      }
      if prob < NegThreshold(p) && isSpeech {
        Silence(now);
      }
    }

    /** The segment has become too long: end it at the last silence, or here. */
    method Split(now: int) returns (goOn: bool)
      requires Valid() && isSpeech
      modifies this
      ensures Valid() && (goOn <==> old(prevEnd) != 0)
      ensures State() == if goOn then old(State()).Split(now) else old(State()).Pushed(now).Reset()
    {
      if prevEnd != 0 {
        Push(prevEnd);
        hasCurr := true;
        if nextStart < prevEnd {
          isSpeech, hasCurr := false, false;
        } else {
          start := nextStart;
          cut := now;
        }
        prevEnd, nextStart, tempEnd := 0, 0, 0;
        return true;
      }
      Push(now);
      Reset();
      return false;
    }

    /** The speaker is silent: wait, or end the segment. */
    method Silence(now: int)
      requires Valid()
      modifies this
      ensures Valid() && State() == old(State()).Silent(p, now)
    {
      if tempEnd == 0 {
        tempEnd := now;
      }
      if now - tempEnd > SPLIT_SILENCE {
        prevEnd := tempEnd;
      }
      if now - tempEnd >= Samples(p.minSilenceMs) {
        if tempEnd - start > Samples(p.minSpeechMs) {
          Push(tempEnd);
        } else {
          dropped := dropped + [Segment(start, tempEnd)];
        }
        Reset();
      }
    }
  }

  /** What is known of the segments that are found: they are in order and inside the audio, they start in
      speech, and every window of speech is in one of them, unless it is in a stretch too short to count
      or is the window at which a segment became too long. */
  ghost predicate FoundOk(p: Params, window: nat, probs: seq<real>, found: seq<Segment>) {
    var dropped := Heard(p, window, probs).dropped;
    && Apart(found, 0, At(window, |probs|))
    && (forall k :: 0 <= k < |found| ==> SpeechAt(p, window, probs, found[k].start))
    && (forall k :: 0 <= k < |dropped| ==> Short(p, window, probs, dropped[k]))
    && (forall i: nat :: Voiced(p, probs, i) && !Faint(p, probs, i) ==>
          (Covers(found, window, i) <==> !Covers(dropped, window, i) && !CutHere(p, window, probs, i)))
  }

  lemma DetectedOk(p: Params, window: nat, probs: seq<real>)
    requires window > 0
    ensures FoundOk(p, window, probs, Detected(p, window, probs))
  {
    hide At, SpeechAt, Short, CutHere, Covers, Faint;
    HeardFair(p, window, probs);
    forall i: nat | Voiced(p, probs, i) && !Faint(p, probs, i)
      ensures var dropped := Heard(p, window, probs).dropped;
              Covers(Detected(p, window, probs), window, i) <==>
              !Covers(dropped, window, i) && !CutHere(p, window, probs, i)
    {
      SpeechFound(p, window, probs, i);
    }
  }

  method Detect(p: Params, window: nat, probs: seq<real>) returns (speeches: seq<Segment>)
    requires window > 0
    ensures speeches == Detected(p, window, probs) && FoundOk(p, window, probs, speeches)
  {
    var d := new Detector(p, window);
    for i := 0 to |probs|
      invariant d.p == p && d.window == window && d.Valid() && d.State() == Listened(p, window, probs, i)
      modifies d
    {
      d.Window(window * i, probs[i]);
    }
    var audio := At(window, |probs|);
    if d.hasCurr && audio - d.start > Samples(p.minSpeechMs) {
      d.Push(audio);
    }
    speeches := d.speeches;
    DetectedOk(p, window, probs);
  }

  ghost function LastEnd(s: seq<Segment>): int {
    if s == [] then 0 else s[|s| - 1].end
  }

  // ----- merging

  /** Segments less than 200 ms apart become one. */
  ghost function Merged(s: seq<Segment>): seq<Segment>
    decreases |s|
  {
    if |s| <= 1 then s
    else if s[1].start - s[0].end < MERGE_GAP then Merged([Segment(s[0].start, s[1].end)] + s[2..])
    else [s[0]] + Merged(s[1..])
  }

  lemma MergeOne(s: seq<Segment>, i: nat)
    requires i + 1 < |s|
    ensures s[i + 1].start - s[i].end < MERGE_GAP ==>
              var t := s[..i] + [Segment(s[i].start, s[i + 1].end)] + s[i + 2..];
              t[..i] + Merged(t[i..]) == s[..i] + Merged(s[i..])
    ensures s[i + 1].start - s[i].end >= MERGE_GAP ==>
              s[..i + 1] + Merged(s[i + 1..]) == s[..i] + Merged(s[i..])
  {
    var r := s[i..];
    if s[i + 1].start - s[i].end < MERGE_GAP {
      var t := s[..i] + [Segment(s[i].start, s[i + 1].end)] + s[i + 2..];
      assert t[..i] == s[..i] && r[2..] == s[i + 2..];
      assert t[i..] == [Segment(r[0].start, r[1].end)] + r[2..];
    } else {
      assert r[1..] == s[i + 1..] && s[..i + 1] == s[..i] + [s[i]];
      Assoc(s[..i], [s[i]], Merged(r[1..]));
    }
  }

  method Merge(speeches: seq<Segment>) returns (s: seq<Segment>)
    ensures s == Merged(speeches)
  {
    s := speeches;
    var i := 0;
    assert s[..0] + Merged(s[0..]) == Merged(speeches) by {
      assert s[0..] == s;
    }
    while i < |s| - 1
      invariant 0 <= i <= |s| && (|s| > 0 ==> i < |s|) && s[..i] + Merged(s[i..]) == Merged(speeches)
      decreases |s| - i
    {
      MergeOne(s, i);
      if s[i + 1].start - s[i].end < MERGE_GAP {
        s := s[..i] + [Segment(s[i].start, s[i + 1].end)] + s[i + 2..];
      } else {
        i := i + 1;
      }
    }
    assert s[..i] + s[i..] == s;
  }

  /** What is left after the first two segments have been looked at. */
  ghost function Rest(s: seq<Segment>): (t: seq<Segment>)
    requires |s| > 1
    ensures |t| == |s| - 1
  {
    if s[1].start - s[0].end < MERGE_GAP then [Segment(s[0].start, s[1].end)] + s[2..] else s[1..]
  }

  lemma RestApart(s: seq<Segment>, audio: int)
    requires |s| > 1 && Apart(s, 0, audio)
    ensures Apart(Rest(s), 0, audio) && LastEnd(Rest(s)) == LastEnd(s) && 0 <= s[0].start <= s[0].end <= audio
    ensures forall j :: 0 < j < |Rest(s)| ==> Rest(s)[j] == s[j + 1]
    ensures s[1].start - s[0].end >= MERGE_GAP ==> Rest(s)[0] == s[1]
  {
    var t := Rest(s);
    forall j | 0 < j < |t|
      ensures t[j] == s[j + 1] && t[j - 1].end <= t[j].start
    {
      assert s[j].end <= s[j + 1].start;
    }
    assert s[0].end <= s[1].start;
  }

  /** Merging leaves gaps of at least 200 ms, between the same ends. */
  lemma {:induction false} MergedApart(s: seq<Segment>, audio: int)
    requires Apart(s, 0, audio)
    ensures Apart(Merged(s), 3200, audio)
    ensures (s == [] <==> Merged(s) == [])
    ensures (s != [] ==> Merged(s)[0].start == s[0].start && LastEnd(Merged(s)) == LastEnd(s))
    decreases |s|
  {
    if |s| > 1 {
      hide Apart;
      RestApart(s, audio);
      MergedApart(Rest(s), audio);
      if s[1].start - s[0].end >= MERGE_GAP {
        ApartCons(s[0], Merged(Rest(s)), MERGE_GAP, audio);
      }
    }
  }

  lemma ApartCons(a: Segment, s: seq<Segment>, gap: int, audio: int)
    requires Apart(s, gap, audio) && 0 <= a.start <= a.end <= audio && (s != [] ==> a.end + gap <= s[0].start)
    ensures Apart([a] + s, gap, audio)
  {
    var t := [a] + s;
    forall i | 0 < i < |t|
      ensures t[i - 1].end + gap <= t[i].start
    {
      assert i > 1 ==> s[i - 2].end + gap <= s[i - 1].start;
    }
  }

  ghost predicate Starts(s: seq<Segment>, at: int) {
    exists j :: 0 <= j < |s| && s[j].start == at
  }

  ghost predicate StartsOf(t: seq<Segment>, s: seq<Segment>) {
    forall k :: 0 <= k < |t| ==> Starts(s, t[k].start)
  }

  /** Every merged segment starts where some segment started. */
  lemma {:induction false} MergedStarts(s: seq<Segment>)
    ensures StartsOf(Merged(s), s)
    decreases |s|
  {
    if |s| > 1 {
      var t := Rest(s);
      MergedStarts(t);
      assert StartsOf(t, s) by {
        forall k | 0 <= k < |t|
          ensures Starts(s, t[k].start)
        {
          assert s[0].start == t[k].start || s[k + 1].start == t[k].start;
        }
      }
      StartsTransitive(Merged(t), t, s);
      StartsCons(s[0], Merged(t), s);
    }
  }

  lemma StartsTransitive(r: seq<Segment>, t: seq<Segment>, s: seq<Segment>)
    requires StartsOf(r, t) && StartsOf(t, s)
    ensures StartsOf(r, s)
  {
    forall k | 0 <= k < |r|
      ensures Starts(s, r[k].start)
    {
      assert Starts(t, r[k].start);
      var i :| 0 <= i < |t| && t[i].start == r[k].start;
      assert Starts(s, t[i].start);
    }
  }

  lemma StartsCons(a: Segment, r: seq<Segment>, s: seq<Segment>)
    requires StartsOf(r, s) && s != [] && s[0] == a
    ensures StartsOf([a] + r, s)
  {
    forall k | 0 <= k < |r| + 1
      ensures Starts(s, ([a] + r)[k].start)
    {
      if k == 0 {
        assert s[0].start == ([a] + r)[k].start;
      } else {
        assert ([a] + r)[k] == r[k - 1];
      }
    }
  }

  ghost predicate Inside(a: Segment, s: seq<Segment>) {
    exists j :: 0 <= j < |s| && s[j].start <= a.start && a.end <= s[j].end
  }

  /** No speech is lost by merging. */
  lemma {:induction false} MergedCovers(s: seq<Segment>, audio: int, k: nat)
    requires Apart(s, 0, audio) && k < |s|
    ensures Inside(s[k], Merged(s))
    decreases |s|
  {
    if |s| <= 1 {
      assert Merged(s)[k] == s[k];
    } else {
      hide Merged, Rest, Apart, Inside;
      RestApart(s, audio);
      MergedStep(s);
      var near := s[1].start - s[0].end < MERGE_GAP;
      if near || k > 0 {
        var m := if k == 0 then 0 else k - 1;
        RestCovers(s, audio, k);
        MergedCovers(Rest(s), audio, m);
        InsideMore(s[k], Rest(s)[m], s[0], Merged(Rest(s)));
      } else {
        InsideFirst(s[0], Merged(Rest(s)));
      }
    }
  }

  lemma MergedStep(s: seq<Segment>)
    requires |s| > 1
    ensures Merged(s) == if s[1].start - s[0].end < MERGE_GAP then Merged(Rest(s)) else [s[0]] + Merged(Rest(s))
  {
  }

  lemma RestCovers(s: seq<Segment>, audio: int, k: nat)
    requires |s| > 1 && Apart(s, 0, audio) && k < |s| && (s[1].start - s[0].end < MERGE_GAP || k > 0)
    ensures var m := if k == 0 then 0 else k - 1; Rest(s)[m].start <= s[k].start && s[k].end <= Rest(s)[m].end
  {
    RestApart(s, audio);
    assert s[1 - 1].end <= s[1].start;
    if k > 1 {
      assert Rest(s)[k - 1] == s[k - 1 + 1];
    }
  }

  lemma InsideMore(a: Segment, b: Segment, c: Segment, s: seq<Segment>)
    requires b.start <= a.start && a.end <= b.end && Inside(b, s)
    ensures Inside(a, s) && Inside(a, [c] + s)
  {
    var j :| 0 <= j < |s| && s[j].start <= b.start && b.end <= s[j].end;
    assert ([c] + s)[j + 1] == s[j];
  }

  lemma InsideFirst(a: Segment, s: seq<Segment>)
    ensures Inside(a, [a] + s)
  {
    assert ([a] + s)[0] == a;
  }

  // ----- dropping short segments

  ghost function Long(s: seq<Segment>, min: int): seq<Segment> {
    if s == [] then [] else (if s[0].end - s[0].start < min then [] else [s[0]]) + Long(s[1..], min)
  }

  method DropShort(speeches: seq<Segment>, min: int) returns (s: seq<Segment>)
    ensures s == Long(speeches, min)
  {
    s := speeches;
    var i := 0;
    assert s[..0] + Long(s[0..], min) == Long(speeches, min) by {
      assert s[0..] == s;
    }
    while i < |s|
      invariant 0 <= i <= |s| && s[..i] + Long(s[i..], min) == Long(speeches, min)
      decreases |s| - i
    {
      assert s[i..][1..] == s[i + 1..];
      if s[i].end - s[i].start < min {
        var rest := s[i + 1..];
        s := s[..i] + rest;
        assert s[i..] == rest;
      } else {
        assert s[..i + 1] == s[..i] + [s[i]];
        i := i + 1;
      }
    }
    assert s[..i] == s && s[i..] == [];
  }

  /** Exactly the long segments stay. */
  lemma {:induction false} LongMembers(s: seq<Segment>, min: int)
    ensures forall a :: a in Long(s, min) <==> a in s && a.end - a.start >= min
  {
    if s != [] {
      LongMembers(s[1..], min);
      assert s == [s[0]] + s[1..];
    }
  }

  /** They are as far apart as before. */
  lemma {:induction false} LongApart(s: seq<Segment>, min: int, gap: int, audio: int)
    requires Apart(s, gap, audio) && gap >= 0
    ensures Apart(Long(s, min), gap, audio)
  {
    hide Apart;
    if s != [] {
      var r := Long(s[1..], min);
      ApartTail(s, gap, audio);
      LongApart(s[1..], min, gap, audio);
      if r != [] {
        LongAfter(s, min, gap, audio);
      }
      ApartCons(s[0], r, gap, audio);
      assert [] + r == r;
    }
  }

  lemma ApartTail(s: seq<Segment>, gap: int, audio: int)
    requires s != [] && Apart(s, gap, audio)
    ensures Apart(s[1..], gap, audio) && 0 <= s[0].start <= s[0].end <= audio
  {
    forall j | 0 < j < |s[1..]|
      ensures s[1..][j - 1].end + gap <= s[1..][j].start
    {
      assert s[j].end + gap <= s[j + 1].start;
    }
  }

  lemma LongAfter(s: seq<Segment>, min: int, gap: int, audio: int)
    requires s != [] && Apart(s, gap, audio) && gap >= 0 && Long(s[1..], min) != []
    ensures s[0].end + gap <= Long(s[1..], min)[0].start
  {
    hide Apart, Long;
    var r := Long(s[1..], min);
    LongMembers(s[1..], min);
    assert r[0] in r;
    var j :| 0 <= j < |s[1..]| && s[1..][j] == r[0];
    ApartFar(s, gap, audio, 0, j + 1);
  }

  // ----- padding

  /** How much of the silence between two segments each of them gets. */
  function Share(gap: int, pad: int): int {
    if gap < 2 * pad then gap / 2 else pad
  }

  ghost function PadStart(s: seq<Segment>, i: nat, pad: int): int
    requires i < |s|
  {
    if i == 0 then (if s[0].start > pad then s[0].start - pad else 0)
    else s[i].start - Share(s[i].start - s[i - 1].end, pad)
  }

  ghost function PadEnd(s: seq<Segment>, i: nat, pad: int, audio: int): int
    requires i < |s|
  {
    if i + 1 == |s| then (if s[i].end + pad < audio then s[i].end + pad else audio)
    else s[i].end + Share(s[i + 1].start - s[i].end, pad)
  }

  ghost function PaddedAt(s: seq<Segment>, i: nat, pad: int, audio: int): Segment
    requires i < |s|
  {
    Segment(PadStart(s, i, pad), PadEnd(s, i, pad, audio))
  }

  /** Between two segments the limits of the audio do not matter. */
  lemma PadBetween(s: seq<Segment>, i: nat, pad: nat, audio: int)
    requires Apart(s, 0, audio) && i + 1 < |s|
    ensures var silence := s[i + 1].start - s[i].end;
            if silence < 2 * pad
            then PadEnd(s, i, pad, audio) == s[i].end + silence / 2 &&
                 PadStart(s, i + 1, pad) == if s[i + 1].start > silence / 2 then s[i + 1].start - silence / 2 else 0
            else PadEnd(s, i, pad, audio) == (if s[i].end + pad < audio then s[i].end + pad else audio) &&
                 PadStart(s, i + 1, pad) == if s[i + 1].start > pad then s[i + 1].start - pad else 0
  {
    assert s[i + 1 - 1].end <= s[i + 1].start;
  }

  method Pad(speeches: seq<Segment>, pad: nat, audio: int) returns (s: seq<Segment>)
    requires Apart(speeches, 0, audio)
    ensures |s| == |speeches| && forall i :: 0 <= i < |s| ==> s[i] == PaddedAt(speeches, i, pad, audio)
  {
    hide PadStart, PadEnd, Apart;
    s := speeches;
    for i := 0 to |speeches|
      invariant |s| == |speeches|
      invariant forall k :: 0 <= k < i ==> s[k] == PaddedAt(speeches, k, pad, audio)
      invariant i < |s| ==> s[i].end == speeches[i].end && forall k :: i < k < |s| ==> s[k] == speeches[k]
      invariant i < |s| ==> s[i].start == if i == 0 then speeches[0].start else PadStart(speeches, i, pad)
    {
      if i == 0 {
        PadFirst(speeches, pad);
        s := s[0 := Segment(if s[0].start > pad then s[0].start - pad else 0, s[0].end)];
      }
      if i < |s| - 1 {
        PadBetween(speeches, i, pad, audio);
        var silence := s[i + 1].start - s[i].end;
        var a, b := s[i], s[i + 1];
        if silence < 2 * pad {
          a := Segment(a.start, a.end + silence / 2);
          b := Segment(if b.start > silence / 2 then b.start - silence / 2 else 0, b.end);
        } else {
          a := Segment(a.start, if a.end + pad < audio then a.end + pad else audio);
          b := Segment(if b.start > pad then b.start - pad else 0, b.end);
        }
        s := s[i := a][i + 1 := b];
      } else {
        PadLast(speeches, pad, audio);
        s := s[i := Segment(s[i].start, if s[i].end + pad < audio then s[i].end + pad else audio)];
      }
    }
  }

  lemma PadFirst(s: seq<Segment>, pad: nat)
    requires s != []
    ensures PadStart(s, 0, pad) == if s[0].start > pad then s[0].start - pad else 0
  {
  }

  lemma PadLast(s: seq<Segment>, pad: nat, audio: int)
    requires s != []
    ensures var i := |s| - 1; PadEnd(s, i, pad, audio) == if s[i].end + pad < audio then s[i].end + pad else audio
  {
  }

  /** Padding keeps the order, stays inside the audio, loses no speech and adds no more than the pad. */
  lemma PaddedApart(s: seq<Segment>, t: seq<Segment>, pad: nat, audio: int)
    requires Apart(s, 0, audio) && |t| == |s| && forall i :: 0 <= i < |s| ==> t[i] == PaddedAt(s, i, pad, audio)
    ensures Apart(t, 0, audio)
    ensures forall i :: 0 <= i < |s| ==>
              s[i].start - pad <= t[i].start <= s[i].start && s[i].end <= t[i].end <= s[i].end + pad
  {
    forall i | 0 <= i < |s|
      ensures s[i].start - pad <= t[i].start <= s[i].start && s[i].end <= t[i].end <= s[i].end + pad
      ensures 0 <= t[i].start && t[i].end <= audio && (i > 0 ==> t[i - 1].end <= t[i].start)
    {
      assert t[i] == PaddedAt(s, i, pad, audio);
      if i > 0 {
        assert t[i - 1] == PaddedAt(s, i - 1, pad, audio);
        assert s[i - 1].end <= s[i].start;
      }
      if i + 1 < |s| {
        assert s[i + 1 - 1].end <= s[i + 1].start;
      }
    }
  }

  /** A short silence is shared by the two segments beside it but for an odd sample; of a longer one each
      takes the pad. The first and the last segment are padded as far as the audio goes. */
  lemma PaddedGap(s: seq<Segment>, t: seq<Segment>, pad: nat, audio: int, i: nat)
    requires Apart(s, 0, audio) && |t| == |s| && forall i :: 0 <= i < |s| ==> t[i] == PaddedAt(s, i, pad, audio)
    requires i < |s|
    ensures i == 0 ==> t[i].start == if s[i].start < pad then 0 else s[i].start - pad
    ensures i + 1 == |s| ==> t[i].end == if audio < s[i].end + pad then audio else s[i].end + pad
    ensures i + 1 < |s| ==>
              var silence := s[i + 1].start - s[i].end;
              && t[i].end - s[i].end == s[i + 1].start - t[i + 1].start
              && t[i + 1].start - t[i].end == if silence >= 2 * pad then silence - 2 * pad else silence % 2
  {
    if i + 1 < |s| {
      assert t[i + 1] == PaddedAt(s, i + 1, pad, audio);
      assert s[i + 1 - 1].end <= s[i + 1].start;
    }
  }

  // ----- the whole

  /** Samples as centiseconds, to the nearest. */
  function ToCs(samples: int): int {
    (samples + 80) / 160
  }

  function ToSamples(cs: int): int {
    cs * 160
  }

  /** Converting to centiseconds moves a time by at most half of one, and order is kept. */
  lemma CsNear(a: int, b: int)
    requires a <= b
    ensures ToCs(a) <= ToCs(b) && a - 80 < ToSamples(ToCs(a)) <= a + 80
  {
  }

  lemma ApartWeaker(s: seq<Segment>, gap: int, audio: int)
    requires Apart(s, gap, audio) && gap >= 0
    ensures Apart(s, 0, audio)
  {
    forall i | 0 < i < |s|
      ensures s[i - 1].end + 0 <= s[i].start
    {
      assert s[i - 1].end + gap <= s[i].start;
    }
  }

  /** Before padding, neighbours are at least 200 ms apart and no segment is too short. */
  lemma RawApart(found: seq<Segment>, min: int, audio: int)
    requires Apart(found, 0, audio)
    ensures var raw := Long(Merged(found), min);
            && Apart(raw, MERGE_GAP, audio) && StartsOf(raw, found)
            && forall k :: 0 <= k < |raw| ==> raw[k].end - raw[k].start >= min
  {
    hide Apart, Merged, Long;
    var merged := Merged(found);
    var raw := Long(merged, min);
    MergedApart(found, audio);
    MergedStarts(found);
    LongApart(merged, min, MERGE_GAP, audio);
    LongMembers(merged, min);
    forall k | 0 <= k < |raw|
      ensures raw[k].end - raw[k].start >= min && Starts(found, raw[k].start)
    {
      assert raw[k] in raw;
      var m :| 0 <= m < |merged| && merged[m] == raw[k];
      assert Starts(found, merged[m].start);
    }
  }

  ghost predicate In(a: Segment, x: int) {
    a.start <= x < a.end
  }

  /** Sample `x` is between two neighbours that are close enough to be merged. */
  ghost predicate Gap(s: seq<Segment>, k: nat, x: int)
    requires 0 < k < |s|
  {
    s[k - 1].end <= x < s[k].start && s[k].start - s[k - 1].end < 3200
  }

  ghost predicate Bridged(s: seq<Segment>, x: int) {
    exists k :: 0 < k < |s| && Gap(s, k, x)
  }

  lemma HoldsFirst(s: seq<Segment>, x: int)
    requires s != []
    ensures Holds(s, x) <==> In(s[0], x) || Holds(s[1..], x)
  {
    if Holds(s, x) {
      var k :| 0 <= k < |s| && s[k].start <= x < s[k].end;
      if k > 0 {
        assert s[1..][k - 1] == s[k];
      }
    }
    if Holds(s[1..], x) {
      var k :| 0 <= k < |s[1..]| && s[1..][k].start <= x < s[1..][k].end;
      assert s[1..][k] == s[k + 1];
    }
  }

  lemma GapTail(s: seq<Segment>, k: nat, x: int)
    requires 1 < k < |s|
    ensures Gap(s[1..], k - 1, x) == Gap(s, k, x)
  {
  }

  lemma BridgedFirst(s: seq<Segment>, x: int)
    requires |s| > 1
    ensures Bridged(s, x) <==> Gap(s, 1, x) || Bridged(s[1..], x)
  {
    hide Gap;
    if Bridged(s, x) {
      var k :| 0 < k < |s| && Gap(s, k, x);
      if k > 1 {
        GapTail(s, k, x);
      }
    }
    if Bridged(s[1..], x) {
      var k :| 0 < k < |s[1..]| && Gap(s[1..], k, x);
      GapTail(s, k + 1, x);
    }
  }

  /** Merging adds exactly the short gaps. */
  lemma {:induction false} MergedHolds(s: seq<Segment>, audio: int, x: int)
    requires Apart(s, 0, audio)
    ensures Holds(Merged(s), x) <==> Holds(s, x) || Bridged(s, x)
    decreases |s|
  {
    if |s| > 1 {
      hide Apart, Holds, Bridged, Merged;
      RestApart(s, audio);
      MergedStep(s);
      MergedHolds(Rest(s), audio, x);
      HoldsFirst(s, x);
      HoldsFirst(s[1..], x);
      BridgedFirst(s, x);
      if s[1].start - s[0].end < MERGE_GAP {
        RestHolds(s, audio, x);
        assert s[1..][1..] == s[2..];
      } else {
        HoldsFirst([s[0]] + Merged(Rest(s)), x);
        assert ([s[0]] + Merged(Rest(s)))[1..] == Merged(Rest(s));
      }
    }
  }

  lemma RestHolds(s: seq<Segment>, audio: int, x: int)
    requires |s| > 1 && Apart(s, 0, audio) && s[1].start - s[0].end < MERGE_GAP
    ensures Holds(Rest(s), x) <==> In(s[0], x) || In(s[1], x) || s[0].end <= x < s[1].start || Holds(s[2..], x)
    ensures Bridged(Rest(s), x) <==> Bridged(s[1..], x)
  {
    hide Holds;
    var t := Rest(s);
    assert t[1..] == s[2..] && s[1..][1..] == s[2..];
    HoldsFirst(t, x);
    assert s[0].end <= s[1].start;
    if |s| > 2 {
      hide Bridged;
      BridgedFirst(t, x);
      BridgedFirst(s[1..], x);
    }
  }

  /** Before padding there is exactly what was found and the short gaps between, as far as merged segments
      are long enough. */
  lemma SpeechStays(found: seq<Segment>, min: int, audio: int, x: int)
    requires Apart(found, 0, audio)
    ensures Holds(Long(Merged(found), min), x) <==>
            (Holds(found, x) || Bridged(found, x)) &&
            forall m :: m in Merged(found) && In(m, x) ==> m.end - m.start >= min
  {
    hide Apart, Merged, Long, Bridged;
    var merged := Merged(found);
    MergedHolds(found, audio, x);
    MergedApart(found, audio);
    LongHolds(merged, min, x);
    forall m, n | m in merged && n in merged && In(m, x) && In(n, x)
      ensures m == n
    {
      OnlyOne(merged, audio, m, n, x);
    }
    if Holds(merged, x) {
      var k :| 0 <= k < |merged| && merged[k].start <= x < merged[k].end;
      assert merged[k] in merged && In(merged[k], x);
    }
  }

  lemma OnlyOne(s: seq<Segment>, audio: int, a: Segment, b: Segment, x: int)
    requires Apart(s, MERGE_GAP, audio) && a in s && b in s && In(a, x) && In(b, x)
    ensures a == b
  {
    hide Apart;
    var j :| 0 <= j < |s| && s[j] == a;
    var k :| 0 <= k < |s| && s[k] == b;
    if j < k {
      ApartFar(s, MERGE_GAP, audio, j, k);
    } else if k < j {
      ApartFar(s, MERGE_GAP, audio, k, j);
    }
  }

  /** A segment starts less than 200 ms after sample `x`. */
  ghost predicate Soon(s: seq<Segment>, x: int) {
    exists k :: 0 <= k < |s| && x < s[k].start < x + MERGE_GAP
  }

  /** Segment `k` starts after sample `x`: then some segment is the first that does. */
  lemma {:induction false} FirstAfter(s: seq<Segment>, audio: int, x: int, e: nat, k: nat) returns (j: nat)
    requires Apart(s, 0, audio) && Beside(s, x) && e < |s| && s[e].end == x && k < |s| && x < s[k].start
    ensures 0 < j <= k && s[j - 1].end == x < s[j].start <= s[k].start
    decreases k
  {
    if k <= e {
      if k < e {
        ApartFar(s, 0, audio, k, e);
      }
      assert false;
    }
    var m := k - 1;
    if x < s[m].start {
      j := FirstAfter(s, audio, x, e, m);
      assert s[k - 1].end <= s[k].start;
    } else {
      j := k;
      if e < m {
        ApartFar(s, 0, audio, e, m);
      }
    }
  }

  /** Merging gets back a window at which a segment became too long, exactly when a segment starts less
      than 200 ms after it. */
  lemma CutComesBack(p: Params, window: nat, probs: seq<real>, i: nat, x: int)
    requires window > 0 && CutHere(p, window, probs, i) && At(window, i) <= x < At(window, i + 1)
    ensures Holds(Merged(Detected(p, window, probs)), x) <==> Soon(Detected(p, window, probs), At(window, i))
  {
    hide At, CutHere, Merged, Detected, Apart, Covers, Short;
    var s, now, audio := Detected(p, window, probs), At(window, i), At(window, |probs|);
    CutBetween(p, window, probs, i);
    DetectedOk(p, window, probs);
    MergedHolds(s, audio, x);
    forall k | 0 <= k < |s| && now < s[k].start
      ensures x < s[k].start
    {
      NextWindow(p, window, probs, i, s[k].start);
    }
    CutGap(s, audio, now, x);
  }

  lemma NextWindow(p: Params, window: nat, probs: seq<real>, i: nat, x: int)
    requires window > 0 && SpeechAt(p, window, probs, x) && At(window, i) < x
    ensures At(window, i + 1) <= x
  {
    hide At;
    var j: nat :| Voiced(p, probs, j) && x == At(window, j);
    AtOrder(window, i, j);
  }

  lemma CutGap(s: seq<Segment>, audio: int, now: int, x: int)
    requires Apart(s, 0, audio) && Ends(s, now) && Beside(s, now) && now <= x
    requires forall k :: 0 <= k < |s| && now < s[k].start ==> x < s[k].start
    ensures !Holds(s, x) && (Bridged(s, x) <==> Soon(s, now))
  {
    var e :| 0 <= e < |s| && s[e].end == now;
    if Bridged(s, x) {
      var k :| 0 < k < |s| && Gap(s, k, x);
      GapAfter(s, audio, now, x, k);
    }
    if Soon(s, now) {
      var k :| 0 <= k < |s| && now < s[k].start < now + MERGE_GAP;
      var j := FirstAfter(s, audio, now, e, k);
      assert Gap(s, j, x);
    }
  }

  lemma GapAfter(s: seq<Segment>, audio: int, now: int, x: int, k: nat)
    requires Apart(s, 0, audio) && Beside(s, now) && now <= x && 0 < k < |s| && Gap(s, k, x)
    requires forall j :: 0 <= j < |s| && now < s[j].start ==> x < s[j].start
    ensures now < s[k].start < now + MERGE_GAP
  {
    var m := k - 1;
    assert s[m].end <= now;
  }

  /** Segments stay if and only if they are long enough. */
  lemma LongHolds(s: seq<Segment>, min: int, x: int)
    ensures Holds(Long(s, min), x) <==> exists m :: m in s && m.end - m.start >= min && In(m, x)
  {
    hide Long;
    LongMembers(s, min);
    var t := Long(s, min);
    if Holds(t, x) {
      var k :| 0 <= k < |t| && t[k].start <= x < t[k].end;
      assert t[k] in t && In(t[k], x);
    }
    if m :| m in s && m.end - m.start >= min && In(m, x) {
      assert m in t;
      var k :| 0 <= k < |t| && t[k] == m;
    }
  }

  /** The segments before padding. */
  ghost function Raw(p: Params, window: nat, probs: seq<real>): seq<Segment> {
    Long(Merged(Detected(p, window, probs)), Samples(p.minSpeechMs))
  }

  ghost function InCs(s: Segment): Segment {
    Segment(ToCs(s.start), ToCs(s.end))
  }

  /** The segments in centiseconds, from those before padding. */
  ghost function Final(p: Params, raw: seq<Segment>, audio: int): (r: seq<Segment>)
    ensures |r| == |raw|
  {
    seq(|raw|, k requires 0 <= k < |raw| => InCs(PaddedAt(raw, k, Samples(p.padMs), audio)))
  }

  /** What is known of segments before padding. */
  ghost predicate RawOk(p: Params, window: nat, probs: seq<real>, raw: seq<Segment>) {
    && Apart(raw, MERGE_GAP, At(window, |probs|))
    && (forall k :: 0 <= k < |raw| ==> raw[k].end - raw[k].start >= Samples(p.minSpeechMs))
    && (forall k :: 0 <= k < |raw| ==> SpeechAt(p, window, probs, raw[k].start))
  }

  /** From probabilities to segments in centiseconds. Before padding neighbours are 200 ms apart and none
      is too short; afterwards the segments are in order and inside the audio. */
  method SegmentsFromProbs(p: Params, window: nat, probs: seq<real>) returns (segments: seq<Segment>)
    requires window > 0
    ensures segments == Final(p, Raw(p, window, probs), At(window, |probs|))
    ensures Apart(segments, 0, ToCs(At(window, |probs|))) && RawOk(p, window, probs, Raw(p, window, probs))
    ensures FoundOk(p, window, probs, Detected(p, window, probs))
  {
    hide At, SpeechAt, PaddedAt, Apart, Merged, Long, ToCs, Covers, Short, CutHere, Detected;
    var audio := At(window, |probs|);
    var found := Detect(p, window, probs);
    var merged := Merge(found);
    var raw := DropShort(merged, Samples(p.minSpeechMs));
    RawApart(found, Samples(p.minSpeechMs), audio);
    forall k | 0 <= k < |raw|
      ensures SpeechAt(p, window, probs, raw[k].start)
    {
      assert Starts(found, raw[k].start);
      var f :| 0 <= f < |found| && found[f].start == raw[k].start;
      assert SpeechAt(p, window, probs, found[f].start);
    }
    ApartWeaker(raw, MERGE_GAP, audio);
    var padded := Pad(raw, Samples(p.padMs), audio);
    PaddedApart(raw, padded, Samples(p.padMs), audio);
    segments := [];
    for k := 0 to |padded|
      invariant |segments| == k && forall j :: 0 <= j < k ==> segments[j] == InCs(padded[j])
    {
      segments := segments + [Segment(ToCs(padded[k].start), ToCs(padded[k].end))];
    }
    assert segments == Final(p, raw, audio);
    CsApart(padded, segments, audio);
  }

  lemma CsApart(s: seq<Segment>, t: seq<Segment>, audio: int)
    requires Apart(s, 0, audio) && |t| == |s| && forall k :: 0 <= k < |s| ==> t[k] == InCs(s[k])
    ensures Apart(t, 0, ToCs(audio))
  {
    forall i | 0 < i < |t|
      ensures t[i - 1].end <= t[i].start
    {
      assert s[i - 1].end <= s[i].start;
    }
  }

  /** The speech that is cut off in the example is in no segment of the result either. */
  lemma LostAtCut()
    ensures var p, probs := Params(0.5, 0, 100, 1.0, 0), [1.0, 1.0, 1.0, 0.0];
            && Voiced(p, probs, 2) && ToCs(At(8000, 2)) == 100
            && Final(p, Raw(p, 8000, probs), At(8000, 4)) == [Segment(0, 100)]
  {
    var p, probs := Params(0.5, 0, 100, 1.0, 0), [1.0, 1.0, 1.0, 0.0];
    hide Detected;
    CutLosesSpeech();
    var found := [Segment(0, 16000)];
    assert Merged(found) == found;
    assert found[1..] == [];
    assert Long(found, 0) == found;
    assert PaddedAt(found, 0, 0, 32000) == found[0];
  }
}
