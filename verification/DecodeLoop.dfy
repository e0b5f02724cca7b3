/** Progress of the decoding loop: how far every window moves on, whatever is sampled. */
module DecodeLoop {
  const WINDOW: int := 3000         // 30 s in steps of 10 ms
  const DELTA_MIN: int := 10
  const MAX_DECODERS: nat := 8

  datatype Params = Params(beg: int, eot: int, maxTokens: int, noTimestamps: bool, singleSegment: bool, loaded: bool,
                           beam: bool, rounds: nat, temperature: real, increment: real)

  datatype Decoder = Decoder(tokens: seq<int>, resultLen: int, seekDelta: int, failed: bool, completed: bool,
      hasTs: bool)

  /** Everything that comes from the model, from chance and from callbacks: by window, attempt, round
      and decoder. */
  datatype Oracle = Oracle(
    count: (nat, nat) -> nat,                  // how many decoders an attempt uses
    token: (nat, nat, nat, nat) -> int,        // the next token
    parent: (nat, nat, nat, nat) -> nat,       // with a beam, which live decoder to go on from
    repeats: (nat, nat, nat) -> bool,          // the result is too repetitive
    better: (nat, nat, nat) -> bool,           // the result scores better than the best before
    poor: (nat, nat) -> bool,                  // the best result is not good enough
    stop: nat -> bool)                         // the caller aborts before a window

  // ----- temperatures

  const TOP: real := 1.000001

  /** How many temperatures are left from `t` on. */
  function Left(t: real, inc: real): nat
    requires inc > 0.0
  {
    if t < TOP then
      PositiveQuotient(TOP - t, inc);
      ((TOP - t) / inc).Floor + 1
    else 0
  }

  lemma PositiveQuotient(a: real, b: real)
    requires a > 0.0 && b > 0.0
    ensures a / b >= 0.0 && (a - b) / b == a / b - 1.0
  {
    var q, x := a / b, (a - b) / b;
    assert q * b == a && x * b == a - b;
    assert (x - (q - 1.0)) * b == x * b - q * b + b;
    NoFactor(x - (q - 1.0), b);
  }

  lemma NoFactor(x: real, b: real)
    requires b > 0.0 && x * b == 0.0
    ensures x == 0.0
  {
  }

  function Rising(t: real, inc: real): seq<real>
    requires inc > 0.0
    decreases Left(t, inc)
  {
    if t < TOP then
      PositiveQuotient(TOP - t, inc);
      assert TOP - (t + inc) == TOP - t - inc;
      [t] + Rising(t + inc, inc)
    else []
  }

  /** The temperatures to try. */
  function Temperatures(p: Params): seq<real> {
    if p.increment > 0.0 then Rising(p.temperature, p.increment) else [p.temperature]
  }

  lemma RisingNext(t: real, inc: real)
    requires inc > 0.0 && t < TOP
    ensures Left(t + inc, inc) < Left(t, inc) && Rising(t, inc) == [t] + Rising(t + inc, inc)
  {
    PositiveQuotient(TOP - t, inc);
    assert TOP - (t + inc) == TOP - t - inc;
  }

  lemma RisingEnd(inc: real)
    requires inc > 0.0
    ensures forall t :: t >= TOP ==> Rising(t, inc) == []
  {
  }

  method BuildTemperatures(p: Params) returns (ts: seq<real>)
    ensures ts == Temperatures(p)
  {
    if p.increment > 0.0 {
      hide Rising, Left;
      RisingEnd(p.increment);
      ts := [];
      var t := p.temperature;
      while t < TOP
        invariant ts + Rising(t, p.increment) == Rising(p.temperature, p.increment)
        decreases Left(t, p.increment)
      {
        RisingNext(t, p.increment);
        assert ts + Rising(t, p.increment) == ts + [t] + Rising(t + p.increment, p.increment);
        ts := ts + [t];
        t := t + p.increment;
      }
    } else {
      ts := [p.temperature];
    }
  }

  /** There is nothing to try exactly when the first temperature is too high and there are steps. */
  lemma NoTemperatureIff(p: Params)
    ensures Temperatures(p) == [] <==> p.increment > 0.0 && p.temperature >= 1.000001
  {
  }

  /** The temperatures rise in equal steps, and end with the last one below the limit. */
  lemma {:induction false} RisingSteps(t: real, inc: real, k: nat)
    requires inc > 0.0 && k < |Rising(t, inc)|
    ensures Rising(t, inc)[k] == t + k as real * inc < 1.000001
    ensures k + 1 == |Rising(t, inc)| <==> t + k as real * inc + inc >= 1.000001
    decreases k
  {
    if k > 0 {
      RisingSteps(t + inc, inc, k - 1);
      assert (k - 1) as real * inc + inc == k as real * inc;
    }
  }

  // ----- decoders

  const FRESH := Decoder([], 0, WINDOW, false, false, false)

  predicate Live(d: Decoder) {
    !d.failed && !d.completed
  }

  /** The window moves on, and the result is part of what was decoded. */
  ghost predicate Sound(d: Decoder) {
    2 <= d.seekDelta && 0 <= d.resultLen <= |d.tokens|
  }

  /** The result ends with the last timestamp among the first `n` tokens, and that is how far the
      window moves; without one it moves on completely. */
  ghost predicate Tracks(p: Params, d: Decoder, n: nat)
    requires n <= |d.tokens|
  {
    if d.hasTs then
      && 0 < d.resultLen <= n && d.tokens[d.resultLen - 1] > p.beg &&
          d.seekDelta == 2 * (d.tokens[d.resultLen - 1] - p.beg)
      && forall k :: d.resultLen <= k < n ==> d.tokens[k] <= p.beg
    else
      d.resultLen == 0 && d.seekDelta == WINDOW && forall k :: 0 <= k < n ==> d.tokens[k] <= p.beg
  }

  /** A live decoder before round `i`. */
  ghost predicate Ready(p: Params, d: Decoder, i: nat) {
    Sound(d) && (Live(d) ==> |d.tokens| == i && Tracks(p, d, i))
  }

  predicate Ends(p: Params, d: Decoder, id: int, i: nat, seek: int, seekEnd: int) {
    id == p.eot || (p.maxTokens > 0 && i >= p.maxTokens) || (d.hasTs && seek + d.seekDelta + DELTA_MIN >= seekEnd)
  }

  /** The decoder when its segment ends with round `i`. */
  function Ended(p: Params, d: Decoder, i: nat, seek: int, seekEnd: int): Decoder {
    var late := seek + d.seekDelta + DELTA_MIN >= seekEnd;
    if d.resultLen == 0 && !p.noTimestamps && !late then d.(failed := true)
    else
      var r := if d.resultLen == 0 && !p.noTimestamps then d.(resultLen := i + 1) else d;
      var r2 := if p.singleSegment || p.noTimestamps then r.(resultLen := i + 1, seekDelta := WINDOW) else r;
      r2.(completed := true)
  }

  /** What the last token of round `i` makes of its decoder. */
  function Judged(p: Params, d: Decoder, i: nat, seek: int, seekEnd: int): Decoder
    requires d.tokens != []
  {
    var id := d.tokens[|d.tokens| - 1];
    var delta := 2 * (id - p.beg);
    if id > p.beg && d.hasTs && d.seekDelta > delta && d.resultLen < i then d.(failed := true)
    else
      var r := if id > p.beg then d.(seekDelta := delta, resultLen := i + 1, hasTs := true) else d;
      if Ends(p, r, id, i, seek, seekEnd) then Ended(p, r, i, seek, seekEnd)
      else if !p.loaded then r.(seekDelta := WINDOW, completed := true)
      else if i + 1 == p.rounds && (r.resultLen == 0 || r.seekDelta < WINDOW / 2) then r.(failed := true)
      else r
  }

  // ----- the same by tokens alone

  /** How many of the first `n` tokens there are up to the last timestamp. */
  ghost function LastStamp(p: Params, tokens: seq<int>, n: nat): (k: nat)
    requires n <= |tokens|
    ensures k <= n && (k > 0 ==> tokens[k - 1] > p.beg) && forall j :: k <= j < n ==> tokens[j] <= p.beg
  {
    if n == 0 then 0 else if tokens[n - 1] > p.beg then n else LastStamp(p, tokens, n - 1)
  }

  /** How far that timestamp moves the window; without one all 30 s. */
  ghost function StampStep(p: Params, tokens: seq<int>, n: nat): int
    requires n <= |tokens|
  {
    var k := LastStamp(p, tokens, n);
    if k == 0 then 3000 else 2 * (tokens[k - 1] - p.beg)
  }

  /** The last token is a timestamp before the one before it, and the two are not neighbours. */
  ghost predicate BackInTime(p: Params, tokens: seq<int>) {
    && tokens != [] && tokens[|tokens| - 1] > p.beg
    && var n := |tokens| - 1;
       0 < LastStamp(p, tokens, n) < n && tokens[LastStamp(p, tokens, n) - 1] > tokens[n]
  }

  /** Less than 100 ms of audio are left after the last timestamp. */
  ghost predicate AtEnd(p: Params, tokens: seq<int>, seek: int, seekEnd: int) {
    seek + StampStep(p, tokens, |tokens|) + 10 >= seekEnd
  }

  /** The last token ends the segment: the end of the text, the limit of tokens, or a timestamp at the end of
      the audio. */
  ghost predicate EndsSegment(p: Params, tokens: seq<int>, seek: int, seekEnd: int) {
    && tokens != []
    && (|| tokens[|tokens| - 1] == p.eot || (p.maxTokens > 0 && |tokens| > p.maxTokens)
        || (LastStamp(p, tokens, |tokens|) > 0 && AtEnd(p, tokens, seek, seekEnd)))
  }

  /** A decoding fails: it goes back in time, ends without a result before the end of the audio, or is not past
      half of the window in the last round. */
  ghost predicate Fails(p: Params, tokens: seq<int>, seek: int, seekEnd: int) {
    && tokens != []
    && (|| BackInTime(p, tokens)
        || (EndsSegment(p, tokens, seek, seekEnd) && LastStamp(p, tokens, |tokens|) == 0 && !p.noTimestamps &&
            !AtEnd(p, tokens, seek, seekEnd))
        || (!EndsSegment(p, tokens, seek, seekEnd) && p.loaded && |tokens| == p.rounds &&
            (LastStamp(p, tokens, |tokens|) == 0 || StampStep(p, tokens, |tokens|) < 1500)))
  }

  /** A decoding is complete: it ends with a result, or without timestamps, or at the end of the audio; or no
      model is loaded. */
  ghost predicate Completes(p: Params, tokens: seq<int>, seek: int, seekEnd: int) {
    && tokens != [] && !BackInTime(p, tokens)
    && if EndsSegment(p, tokens, seek, seekEnd)
       then LastStamp(p, tokens, |tokens|) > 0 || p.noTimestamps || AtEnd(p, tokens, seek, seekEnd)
       else !p.loaded
  }

  /** What a decoder is after its last token, by its tokens: the result goes up to the last timestamp, which is
      the step. At an end without one, or of a single segment, the result is everything, and a single segment
      or one without timestamps moves on by the whole window. */
  ghost predicate Decided(p: Params, d: Decoder, seek: int, seekEnd: int) {
    var n := |d.tokens|;
    && n > 0 && (d.failed <==> Fails(p, d.tokens, seek, seekEnd))
    && (d.completed <==> Completes(p, d.tokens, seek, seekEnd))
    && var heard := if BackInTime(p, d.tokens) then n - 1 else n;
       var whole := d.completed && EndsSegment(p, d.tokens, seek, seekEnd);
       var single := whole && (p.singleSegment || p.noTimestamps);
       && d.resultLen == (if single || (whole && LastStamp(p, d.tokens, n) == 0) then n
                          else LastStamp(p, d.tokens, heard))
       && d.seekDelta == (if single || (d.completed && !whole) then 3000 else StampStep(p, d.tokens, heard))
       && (d.hasTs <==> LastStamp(p, d.tokens, heard) > 0)
  }

  lemma TracksStamp(p: Params, d: Decoder, n: nat)
    requires n <= |d.tokens| && Tracks(p, d, n)
    ensures d.resultLen == LastStamp(p, d.tokens, n) && d.seekDelta == StampStep(p, d.tokens, n)
    ensures d.hasTs <==> LastStamp(p, d.tokens, n) > 0
  {
  }

  lemma JudgedDecided(p: Params, d: Decoder, i: nat, seek: int, seekEnd: int)
    requires Live(d) && |d.tokens| == i + 1 && Tracks(p, d, i)
    ensures Decided(p, Judged(p, d, i, seek, seekEnd), seek, seekEnd)
  {
    hide Decided, Judged;
    if BackInTime(p, d.tokens) {
      JudgedBack(p, d, i, seek, seekEnd);
    } else if EndsSegment(p, d.tokens, seek, seekEnd) {
      JudgedEnd(p, d, i, seek, seekEnd);
    } else {
      JudgedOn(p, d, i, seek, seekEnd);
    }
  }

  lemma JudgedBack(p: Params, d: Decoder, i: nat, seek: int, seekEnd: int)
    requires Live(d) && |d.tokens| == i + 1 && Tracks(p, d, i) && BackInTime(p, d.tokens)
    ensures Decided(p, Judged(p, d, i, seek, seekEnd), seek, seekEnd)
  {
    hide LastStamp, StampStep, Tracks, EndsSegment, AtEnd;
    TracksStamp(p, d, i);
    StampNext(p, d.tokens, i);
    assert Judged(p, d, i, seek, seekEnd) == d.(failed := true);
  }

  /** The decoder with its last token taken in. */
  function Stamped(p: Params, d: Decoder, i: nat): Decoder
    requires |d.tokens| == i + 1
  {
    if d.tokens[i] > p.beg then d.(seekDelta := 2 * (d.tokens[i] - p.beg), resultLen := i + 1, hasTs := true) else d
  }

  lemma StampedIs(p: Params, d: Decoder, i: nat, seek: int, seekEnd: int)
    requires Live(d) && |d.tokens| == i + 1 && Tracks(p, d, i) && !BackInTime(p, d.tokens)
    ensures var r, n := Stamped(p, d, i), i + 1;
            && r.resultLen == LastStamp(p, d.tokens, n) && r.seekDelta == StampStep(p, d.tokens, n)
            && (r.hasTs <==> LastStamp(p, d.tokens, n) > 0)
            && (Ends(p, r, d.tokens[i], i, seek, seekEnd) <==> EndsSegment(p, d.tokens, seek, seekEnd))
            && Judged(p, d, i, seek, seekEnd) ==
               if Ends(p, r, d.tokens[i], i, seek, seekEnd) then Ended(p, r, i, seek, seekEnd)
               else if !p.loaded then r.(seekDelta := WINDOW, completed := true)
               else if i + 1 == p.rounds && (r.resultLen == 0 || r.seekDelta < WINDOW / 2) then r.(failed := true)
               else r
  {
    hide LastStamp, StampStep, Tracks, Ended;
    TracksStamp(p, d, i);
    StampNext(p, d.tokens, i);
  }

  lemma JudgedEnd(p: Params, d: Decoder, i: nat, seek: int, seekEnd: int)
    requires Live(d) && |d.tokens| == i + 1 && Tracks(p, d, i) && !BackInTime(p, d.tokens)
    requires EndsSegment(p, d.tokens, seek, seekEnd)
    ensures Decided(p, Judged(p, d, i, seek, seekEnd), seek, seekEnd)
  {
    hide LastStamp, StampStep, Tracks, Judged, BackInTime, EndsSegment, Ends;
    StampedIs(p, d, i, seek, seekEnd);
  }

  lemma JudgedOn(p: Params, d: Decoder, i: nat, seek: int, seekEnd: int)
    requires Live(d) && |d.tokens| == i + 1 && Tracks(p, d, i) && !BackInTime(p, d.tokens)
    requires !EndsSegment(p, d.tokens, seek, seekEnd)
    ensures Decided(p, Judged(p, d, i, seek, seekEnd), seek, seekEnd)
  {
    hide LastStamp, StampStep, Tracks, Judged, BackInTime, EndsSegment, Ends, AtEnd;
    StampedIs(p, d, i, seek, seekEnd);
  }

  lemma StampNext(p: Params, tokens: seq<int>, n: nat)
    requires n < |tokens|
    ensures LastStamp(p, tokens, n + 1) == if tokens[n] > p.beg then n + 1 else LastStamp(p, tokens, n)
    ensures StampStep(p, tokens, n + 1) ==
            if tokens[n] > p.beg then 2 * (tokens[n] - p.beg) else StampStep(p, tokens, n)
    ensures StampStep(p, tokens, n) ==
            if LastStamp(p, tokens, n) == 0 then 3000 else 2 * (tokens[LastStamp(p, tokens, n) - 1] - p.beg)
  {
  }

  /** What the last token of round `i` means for its decoder. */
  method Judge(p: Params, d0: Decoder, i: nat, seek: int, seekEnd: int) returns (d: Decoder)
    requires Live(d0) && Sound(d0) && |d0.tokens| == i + 1 && Tracks(p, d0, i)
    ensures d == Judged(p, d0, i, seek, seekEnd) && d.tokens == d0.tokens && Ready(p, d, i + 1)
    ensures Decided(p, d, seek, seekEnd)
    ensures Live(d) ==> d.tokens[i] != p.eot && p.loaded && !(d.hasTs && seek + d.seekDelta + DELTA_MIN >= seekEnd)
    ensures i + 1 == p.rounds && Live(d) ==> d.resultLen > 0 && d.seekDelta >= WINDOW / 2
    ensures d.completed && p.loaded ==> d.resultLen > 0 || p.noTimestamps
  {
    hide Decided;
    JudgedDecided(p, d0, i, seek, seekEnd);
    d := d0;
    var id := d.tokens[|d.tokens| - 1];
    if id > p.beg {
      var delta := 2 * (id - p.beg);
      if d.hasTs && d.seekDelta > delta && d.resultLen < i {
        d := d.(failed := true);
        return;
      }
      d := d.(seekDelta := delta, resultLen := i + 1, hasTs := true);
    }
    if id == p.eot || (p.maxTokens > 0 && i >= p.maxTokens) || (d.hasTs && seek + d.seekDelta + DELTA_MIN >= seekEnd) {
      if d.resultLen == 0 && !p.noTimestamps {
        if seek + d.seekDelta + DELTA_MIN >= seekEnd {
          d := d.(resultLen := i + 1);
        } else {
          d := d.(failed := true);
          return;
        }
      }
      if p.singleSegment || p.noTimestamps {
        d := d.(resultLen := i + 1, seekDelta := WINDOW);
      }
      d := d.(completed := true);
      return;
    }
    if !p.loaded {
      d := d.(seekDelta := WINDOW, completed := true);
      return;
    }
    if i + 1 == p.rounds && (d.resultLen == 0 || d.seekDelta < WINDOW / 2) {
      d := d.(failed := true);
    }
  }

  /** As a vector is resized: cut, or filled up. */
  function Resized(s: seq<int>, n: nat): seq<int> {
    if n <= |s| then s[..n] else s + seq(n - |s|, _ => 0)
  }

  function LiveOnes(decs: seq<Decoder>, n: nat): (r: seq<nat>)
    requires n <= |decs|
    ensures forall k :: 0 <= k < |r| ==> r[k] < n && Live(decs[r[k]])
    ensures forall j :: 0 <= j < n && Live(decs[j]) ==> r != []
  {
    if n == 0 then [] else LiveOnes(decs, n - 1) + if Live(decs[n - 1]) then [n - 1] else []
  }

  // ----- what the oracle makes of the decoders

  /** The decoder `j` with its next token; with a beam it goes on from a live decoder. */
  function Grown(p: Params, o: Oracle, w: nat, it: nat, i: nat, was: seq<Decoder>, n: nat, j: nat): Decoder
    requires j < n <= |was|
  {
    if !Live(was[j]) then was[j]
    else
      var alive := LiveOnes(was, n);
      var from := if p.beam then was[alive[o.parent(w, it, i, j) % |alive|]] else was[j];
      from.(tokens := from.tokens + [o.token(w, it, i, j)])
  }

  ghost function Sampled(p: Params, o: Oracle, w: nat, it: nat, i: nat, was: seq<Decoder>, n: nat): (r: seq<Decoder>)
    requires n <= |was|
    ensures |r| == |was|
  {
    seq(|was|, j requires 0 <= j < |was| => if j < n then Grown(p, o, w, it, i, was, n, j) else was[j])
  }

  ghost function JudgedAll(p: Params, i: nat, seek: int, seekEnd: int, was: seq<Decoder>, n: nat): (r: seq<Decoder>)
    ensures |r| == |was|
  {
    seq(|was|, j requires 0 <= j < |was| =>
      if j < n && Live(was[j]) && was[j].tokens != [] then Judged(p, was[j], i, seek, seekEnd) else was[j])
  }

  ghost predicate AllDone(ds: seq<Decoder>, n: nat)
    requires n <= |ds|
  {
    forall j :: 0 <= j < n ==> !Live(ds[j])
  }

  /** The decoders after the rounds from `i` on. */
  ghost function Rounds(p: Params, o: Oracle, w: nat, it: nat, seek: int, seekEnd: int, ds: seq<Decoder>, n: nat,
                        i: nat)
    : (r: seq<Decoder>)
    requires n <= |ds|
    ensures |r| == |ds|
    decreases if i < p.rounds then p.rounds - i else 0
  {
    if i >= p.rounds then ds
    else
      var next := JudgedAll(p, i, seek, seekEnd, Sampled(p, o, w, it, i, ds, n), n);
      if AllDone(next, n) then next else Rounds(p, o, w, it, seek, seekEnd, next, n, i + 1)
  }

  predicate Repeats(o: Oracle, w: nat, it: nat, d: Decoder, j: nat) {
    d.resultLen > 32 && o.repeats(w, it, j)
  }

  /** The decoder with its result cut to length, or failed because it repeats itself. */
  ghost function Cut(o: Oracle, w: nat, it: nat, d: Decoder, j: nat): Decoder {
    if d.failed || d.resultLen < 0 then d
    else d.(tokens := Resized(d.tokens, d.resultLen), failed := Repeats(o, w, it, d, j))
  }

  ghost function CutAll(o: Oracle, w: nat, it: nat, ds: seq<Decoder>, n: nat): (r: seq<Decoder>)
    ensures |r| == |ds|
  {
    seq(|ds|, j requires 0 <= j < |ds| => if j < n then Cut(o, w, it, ds[j], j) else ds[j])
  }

  /** The best of the first `n` decoders; the one before when none is better. */
  ghost function Best(o: Oracle, w: nat, it: nat, ds: seq<Decoder>, n: nat, best: nat): (r: nat)
    requires n <= |ds|
    ensures r == best || r < n
  {
    if n == 0 then best
    else if !ds[n - 1].failed && !Repeats(o, w, it, ds[n - 1], n - 1) && o.better(w, it, n - 1) then n - 1
    else Best(o, w, it, ds, n - 1, best)
  }

  function Count(o: Oracle, w: nat, it: nat): (n: nat)
    ensures 1 <= n <= MAX_DECODERS
  {
    var n := o.count(w, it);
    if n > MAX_DECODERS then MAX_DECODERS else if n < 1 then 1 else n
  }

  ghost function Started(ds: seq<Decoder>, n: nat): (r: seq<Decoder>)
    ensures |r| == |ds|
  {
    seq(|ds|, j requires 0 <= j < |ds| => if j < n then FRESH else ds[j])
  }

  /** The decoders after attempt `it`, before and after ranking. */
  ghost function Decoded(p: Params, o: Oracle, w: nat, it: nat, seek: int, seekEnd: int,
                         ds: seq<Decoder>): (r: seq<Decoder>)
    requires |ds| == MAX_DECODERS
    ensures |r| == |ds|
  {
    var n := Count(o, w, it);
    Rounds(p, o, w, it, seek, seekEnd, Started(ds, n), n, 0)
  }

  ghost function Tried(p: Params, o: Oracle, w: nat, it: nat, seek: int, seekEnd: int, ds: seq<Decoder>, best: nat)
    : (r: (seq<Decoder>, nat))
    requires |ds| == MAX_DECODERS && best < MAX_DECODERS
    ensures |r.0| == |ds| && r.1 < MAX_DECODERS
  {
    var d, n := Decoded(p, o, w, it, seek, seekEnd, ds), Count(o, w, it);
    (CutAll(o, w, it, d, n), Best(o, w, it, d, n, best))
  }

  /** The decoders and the best one after the attempts from `it` on. */
  ghost function Windowed(p: Params, o: Oracle, w: nat, seek: int, seekEnd: int, ds: seq<Decoder>, it: nat, best: nat)
    : (r: (seq<Decoder>, nat))
    requires |ds| == MAX_DECODERS && best < MAX_DECODERS
    ensures |r.0| == |ds| && r.1 < MAX_DECODERS
    decreases if it < |Temperatures(p)| then |Temperatures(p)| - it else 0
  {
    if it >= |Temperatures(p)| then (ds, best)
    else
      var (next, b) := Tried(p, o, w, it, seek, seekEnd, ds, best);
      if it == |Temperatures(p)| - 1 || !(next[b].failed || o.poor(w, it)) then (next, b)
      else Windowed(p, o, w, seek, seekEnd, next, it + 1, b)
  }

  predicate SingleEnding(p: Params, d: Decoder) {
    var len := |d.tokens|;
    len > 1 && d.tokens[len - 2] < p.beg && d.tokens[len - 1] > p.beg
  }

  /** How far the best decoder moves the window. */
  function Shift(p: Params, d: Decoder, seek: int, seekEnd: int): int {
    if SingleEnding(p, d) then (if seekEnd - seek < WINDOW then seekEnd - seek else WINDOW) else d.seekDelta
  }

  /** The decoders and the place after `k` windows. */
  ghost function After(p: Params, o: Oracle, start: int, seekEnd: int, ds: seq<Decoder>,
                       k: nat): (r: (seq<Decoder>, int))
    requires |ds| == MAX_DECODERS
    ensures |r.0| == |ds|
  {
    if k == 0 then (ds, start)
    else
      var (d, seek) := After(p, o, start, seekEnd, ds, k - 1);
      var (next, best) := Windowed(p, o, k - 1, seek, seekEnd, d, 0, 0);
      (next, seek + Shift(p, next[best], seek, seekEnd))
  }

  // ----- one attempt

  /** Every live decoder gets one more token. */
  method Sample(p: Params, o: Oracle, w: nat, it: nat, i: nat, decs: array<Decoder>, n: nat)
    requires n <= decs.Length && forall j :: 0 <= j < n ==> Ready(p, decs[j], i)
    modifies decs
    ensures decs[..] == Sampled(p, o, w, it, i, old(decs[..]), n)
    ensures forall j :: 0 <= j < n ==> Sound(decs[j])
    ensures forall j :: 0 <= j < n && Live(decs[j]) ==> |decs[j].tokens| == i + 1 && Tracks(p, decs[j], i)
  {
    hide Tracks;
    var was := decs[..];
    for j := 0 to n
      invariant forall k :: j <= k < decs.Length ==> decs[k] == was[k]
      invariant forall k :: 0 <= k < j ==> decs[k] == Grown(p, o, w, it, i, was, n, k) && Sound(decs[k])
      invariant forall k :: 0 <= k < j && Live(decs[k]) ==> |decs[k].tokens| == i + 1 && Tracks(p, decs[k], i)
    {
      assert Ready(p, was[j], i);
      if Live(decs[j]) {
        var from := was[j];
        if p.beam {
          var alive := LiveOnes(was, n);
          var k := o.parent(w, it, i, j) % |alive|;
          assert Ready(p, was[alive[k]], i);
          from := was[alive[k]];
        }
        TracksPrefix(p, from, o.token(w, it, i, j));
        decs[j] := from.(tokens := from.tokens + [o.token(w, it, i, j)]);
      }
    }
  }

  lemma TracksPrefix(p: Params, d: Decoder, token: int)
    requires Tracks(p, d, |d.tokens|)
    ensures Tracks(p, d.(tokens := d.tokens + [token]), |d.tokens|)
  {
  }

  method JudgeAll(p: Params, i: nat, seek: int, seekEnd: int, decs: array<Decoder>, n: nat)
    requires n <= decs.Length && forall j :: 0 <= j < n ==> Sound(decs[j])
    requires forall j :: 0 <= j < n && Live(decs[j]) ==> |decs[j].tokens| == i + 1 && Tracks(p, decs[j], i)
    modifies decs
    ensures decs[..] == JudgedAll(p, i, seek, seekEnd, old(decs[..]), n)
    ensures forall j :: 0 <= j < n ==> Ready(p, decs[j], i + 1)
  {
    hide Tracks, Judged;
    ghost var was := decs[..];
    for j := 0 to n
      invariant forall k :: j <= k < decs.Length ==> decs[k] == was[k]
      invariant forall k :: 0 <= k < j ==>
                  Ready(p, decs[k], i + 1) && decs[k] == JudgedAll(p, i, seek, seekEnd, was, n)[k]
    {
      if Live(decs[j]) {
        decs[j] := Judge(p, decs[j], i, seek, seekEnd);
      }
    }
  }

  /** One attempt at a window: all its decoders end up sound, and a result is what it says. */
  method Attempt(p: Params, o: Oracle, w: nat, it: nat, seek: int, seekEnd: int, decs: array<Decoder>, best0: nat)
    returns (best: nat)
    requires decs.Length == MAX_DECODERS && best0 < MAX_DECODERS
    modifies decs
    ensures (decs[..], best) == Tried(p, o, w, it, seek, seekEnd, old(decs[..]), best0)
    ensures best == best0 || best < Count(o, w, it)
    ensures forall j :: 0 <= j < Count(o, w, it) ==>
              Sound(decs[j]) && (!decs[j].failed ==> |decs[j].tokens| == decs[j].resultLen)
    ensures forall j :: Count(o, w, it) <= j < decs.Length ==> decs[j] == old(decs[j])
  {
    hide Tracks, Rounds, Sampled, JudgedAll;
    var n := Count(o, w, it);
    FreshReady(p);
    ghost var ds := decs[..];
    for j := 0 to n
      invariant forall k :: 0 <= k < j ==> decs[k] == FRESH
      invariant forall k :: j <= k < decs.Length ==> decs[k] == ds[k]
    {
      decs[j] := FRESH;
    }
    assert decs[..] == Started(ds, n);
    RunRounds(p, o, w, it, seek, seekEnd, decs, n);
    best := Rank(o, w, it, decs, n, best0);
  }

  method RunRounds(p: Params, o: Oracle, w: nat, it: nat, seek: int, seekEnd: int, decs: array<Decoder>, n: nat)
    requires n <= decs.Length && forall j :: 0 <= j < n ==> Ready(p, decs[j], 0)
    modifies decs
    ensures decs[..] == Rounds(p, o, w, it, seek, seekEnd, old(decs[..]), n, 0)
    ensures forall j :: 0 <= j < n ==> Sound(decs[j])
    ensures forall j :: n <= j < decs.Length ==> decs[j] == old(decs[j])
  {
    hide Tracks;
    var i := 0;
    ghost var ds := decs[..];
    while i < p.rounds
      invariant forall k :: 0 <= k < n ==> Ready(p, decs[k], i)
      invariant forall k :: n <= k < decs.Length ==> decs[k] == ds[k]
      invariant Rounds(p, o, w, it, seek, seekEnd, decs[..], n, i) == Rounds(p, o, w, it, seek, seekEnd, ds, n, 0)
    {
      ghost var was := decs[..];
      Sample(p, o, w, it, i, decs, n);
      JudgeAll(p, i, seek, seekEnd, decs, n);
      assert decs[..] == JudgedAll(p, i, seek, seekEnd, Sampled(p, o, w, it, i, was, n), n);
      assert forall k :: n <= k < decs.Length ==> decs[..][k] == was[k];
      if forall j :: 0 <= j < n ==> !Live(decs[j]) {
        assert AllDone(decs[..], n);
        return;
      }
      assert !AllDone(decs[..], n);
      i := i + 1;
    }
  }

  lemma FreshReady(p: Params)
    ensures Ready(p, FRESH, 0)
  {
  }

  method Rank(o: Oracle, w: nat, it: nat, decs: array<Decoder>, n: nat, best0: nat) returns (best: nat)
    requires n <= decs.Length && forall j :: 0 <= j < n ==> Sound(decs[j])
    modifies decs
    ensures decs[..] == CutAll(o, w, it, old(decs[..]), n) && best == Best(o, w, it, old(decs[..]), n, best0)
    ensures forall j :: 0 <= j < n ==> Sound(decs[j]) && (!decs[j].failed ==> |decs[j].tokens| == decs[j].resultLen)
  {
    best := best0;
    ghost var ds := decs[..];
    for j := 0 to n
      invariant best == Best(o, w, it, ds, j, best0)
      invariant forall k :: j <= k < decs.Length ==> decs[k] == ds[k]
      invariant forall k :: 0 <= k < j ==> decs[k] == Cut(o, w, it, ds[k], k)
      invariant forall k :: 0 <= k < j ==> Sound(decs[k]) && (!decs[k].failed ==> |decs[k].tokens| == decs[k].resultLen)
    {
      if !decs[j].failed {
        decs[j] := decs[j].(tokens := Resized(decs[j].tokens, decs[j].resultLen));
        if decs[j].resultLen > 32 && o.repeats(w, it, j) {
          decs[j] := decs[j].(failed := true);
        } else if o.better(w, it, j) {
          best := j;
        }
      }
    }
  }

  // ----- the main loop

  /** Try a window with rising temperatures; the best decoder may be left over from an earlier try.
      Without any temperature nothing happens. */
  method DecodeWindow(p: Params, o: Oracle, w: nat, seek: int, seekEnd: int, decs: array<Decoder>) returns (best: nat)
    requires decs.Length == MAX_DECODERS
    modifies decs
    ensures (decs[..], best) == Windowed(p, o, w, seek, seekEnd, old(decs[..]), 0, 0)
    ensures best < MAX_DECODERS && (Temperatures(p) != [] ==> Sound(decs[best]))
    ensures Temperatures(p) == [] ==> best == 0 && decs[..] == old(decs[..])
  {
    hide Tried;
    var temperatures := BuildTemperatures(p);
    best := 0;
    ghost var ds := decs[..];
    ghost var most := 0;
    for it := 0 to |temperatures|
      invariant best < MAX_DECODERS && most <= MAX_DECODERS && (it > 0 ==> best < most) && (it == 0 ==> best == 0)
      invariant forall j :: 0 <= j < most ==> Sound(decs[j])
      invariant it == 0 ==> decs[..] == ds
      invariant Windowed(p, o, w, seek, seekEnd, decs[..], it, best) == Windowed(p, o, w, seek, seekEnd, ds, 0, 0)
    {
      best := Attempt(p, o, w, it, seek, seekEnd, decs, best);
      if Count(o, w, it) > most {
        most := Count(o, w, it);
      }
      if it == |temperatures| - 1 || !(decs[best].failed || o.poor(w, it)) {
        return;
      }
    }
  }

  /** The tokens that go into the context of the next window. */
  method Result(d: Decoder) returns (context: seq<int>)
    requires d.resultLen <= |d.tokens|
    ensures context == if d.resultLen < 0 then [] else d.tokens[..d.resultLen]
  {
    context := [];
    var i := 0;
    while i < d.resultLen
      invariant 0 <= i && (i <= d.resultLen || d.resultLen < 0) && i <= |d.tokens| && context == d.tokens[..i]
      invariant d.resultLen < 0 ==> i == 0
    {
      context := context + [d.tokens[i]];
      i := i + 1;
    }
  }

  /** How the main loop ends: all audio is done, the caller stops it, or it is stuck for ever. */
  datatype Outcome = Finished | Stopped | Stuck

  /** Where the windows were: each starts where the one before it moved to. */
  ghost predicate Chain(p: Params, o: Oracle, start: int, seekEnd: int, ds: seq<Decoder>, seeks: seq<int>)
    requires |ds| == MAX_DECODERS
  {
    forall k :: 0 <= k < |seeks| ==>
      && seeks[k] == After(p, o, start, seekEnd, ds, k).1 && seeks[k] + DELTA_MIN < seekEnd && !o.stop(k)
      && seeks[k] + (if Temperatures(p) != [] then 2 else 1) <= After(p, o, start, seekEnd, ds, k + 1).1
  }

  /** Decode all audio from `seekStart` to `seekEnd`. With a temperature to try it ends, for every window
      moves on; without one it goes on exactly as the decoder that is left over from before says. */
  method Transcribe(p: Params, o: Oracle, seekStart: int, seekEnd: int, decs: array<Decoder>)
    returns (seek: int, outcome: Outcome, ghost seeks: seq<int>)
    requires decs.Length == MAX_DECODERS
    modifies decs
    ensures Chain(p, o, seekStart, seekEnd, old(decs[..]), seeks)
    ensures (decs[..], seek) == After(p, o, seekStart, seekEnd, old(decs[..]), |seeks|)
    ensures outcome.Finished? <==> seek + DELTA_MIN >= seekEnd
    ensures outcome.Stopped? <==> seek + DELTA_MIN < seekEnd && o.stop(|seeks|)
    ensures outcome.Stuck? ==> Temperatures(p) == [] && Shift(p, decs[0], seek, seekEnd) <= 0
    ensures |seeks| <= seek - seekStart && (Temperatures(p) != [] ==> 2 * |seeks| <= seek - seekStart)
  {
    hide Windowed, Temperatures, After;
    AfterNone(p, o, seekStart, seekEnd, decs[..]);
    seek, seeks := seekStart, [];
    ghost var ds := decs[..];
    if seekEnd < seekStart + DELTA_MIN {
      return seek, Finished, seeks;
    }
    var w := 0;
    var context := [];
    while true
      invariant w == |seeks| && Chain(p, o, seekStart, seekEnd, ds, seeks)
      invariant (decs[..], seek) == After(p, o, seekStart, seekEnd, ds, w)
      invariant |seeks| <= seek - seekStart && (Temperatures(p) != [] ==> 2 * |seeks| <= seek - seekStart)
      decreases seekEnd - seek
    {
      if seek + DELTA_MIN >= seekEnd {
        return seek, Finished, seeks;
      }
      if o.stop(w) {
        return seek, Stopped, seeks;
      }
      ghost var before := decs[..];
      var best := DecodeWindow(p, o, w, seek, seekEnd, decs);
      var d := decs[best];
      if d.resultLen <= |d.tokens| {    // always so with a temperature
        context := Result(d);
      }
      var delta := d.seekDelta;
      var len := |d.tokens|;
      if len > 1 && d.tokens[len - 2] < p.beg && d.tokens[len - 1] > p.beg {
        delta := if seekEnd - seek < WINDOW then seekEnd - seek else WINDOW;
      }
      assert delta == Shift(p, d, seek, seekEnd);
      if delta <= 0 {
        return seek, Stuck, seeks;
      }
      AfterOne(p, o, seekStart, seekEnd, ds, w);
      seeks := seeks + [seek];
      seek := seek + delta;
      w := w + 1;
      assert (decs[..], seek) == After(p, o, seekStart, seekEnd, ds, w);
    }
  }

  lemma AfterNone(p: Params, o: Oracle, start: int, seekEnd: int, ds: seq<Decoder>)
    requires |ds| == MAX_DECODERS
    ensures After(p, o, start, seekEnd, ds, 0) == (ds, start)
  {
  }

  lemma AfterOne(p: Params, o: Oracle, start: int, seekEnd: int, ds: seq<Decoder>, k: nat)
    requires |ds| == MAX_DECODERS
    ensures var (d, seek) := After(p, o, start, seekEnd, ds, k);
            var (next, best) := Windowed(p, o, k, seek, seekEnd, d, 0, 0);
            After(p, o, start, seekEnd, ds, k + 1) == (next, seek + Shift(p, next[best], seek, seekEnd))
  {
  }

  // ----- without a temperature

  /** Without a temperature the decoders stay as they are, and every window moves as far as decoder 0
      says. */
  lemma {:induction false} NothingTried(p: Params, o: Oracle, start: int, seekEnd: int, ds: seq<Decoder>, k: nat)
    requires |ds| == MAX_DECODERS && Temperatures(p) == []
    ensures After(p, o, start, seekEnd, ds, k).0 == ds
    ensures var seek := After(p, o, start, seekEnd, ds, k).1;
            After(p, o, start, seekEnd, ds, k + 1).1 == seek + Shift(p, ds[0], seek, seekEnd)
  {
    if k > 0 {
      NothingTried(p, o, start, seekEnd, ds, k - 1);
    }
  }

  /** If that is not forward, the loop never gets to the end of the audio. */
  lemma {:induction false} StuckForEver(p: Params, o: Oracle, start: int, seekEnd: int, ds: seq<Decoder>, k: nat)
    requires |ds| == MAX_DECODERS && Temperatures(p) == [] && !SingleEnding(p, ds[0]) && ds[0].seekDelta <= 0
    requires start + DELTA_MIN < seekEnd
    ensures After(p, o, start, seekEnd, ds, k).1 + DELTA_MIN < seekEnd
  {
    if k > 0 {
      StuckForEver(p, o, start, seekEnd, ds, k - 1);
      NothingTried(p, o, start, seekEnd, ds, k - 1);
    }
  }

  /** Such an input: a temperature of 1.2 in steps of 0.2, and a decoder that was never set and holds 0. */
  lemma HotStartHangs(o: Oracle, k: nat)
    ensures var p := Params(50364, 50257, 0, false, false, true, false, 220, 1.2, 0.2);
            var ds := seq(MAX_DECODERS, _ => FRESH.(seekDelta := 0));
            Temperatures(p) == [] && After(p, o, 0, 3000, ds, k) == (ds, 0)
  {
    var p := Params(50364, 50257, 0, false, false, true, false, 220, 1.2, 0.2);
    var ds := seq(MAX_DECODERS, _ => FRESH.(seekDelta := 0));
    NoTemperatureIff(p);
    if k > 0 {
      HotStartHangs(o, k - 1);
      NothingTried(p, o, 0, 3000, ds, k - 1);
      NothingTried(p, o, 0, 3000, ds, k);
    }
  }
}
