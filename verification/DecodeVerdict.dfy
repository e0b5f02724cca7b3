/** What an attempt makes of its decoders, by their tokens: each stops with the first token that completes it
    or makes it fail, and what has not failed is ranked. */
module DecodeVerdict {
  import opened DecodeLoop

  ghost predicate GoesOn(p: Params, tokens: seq<int>, seek: int, seekEnd: int) {
    !Fails(p, tokens, seek, seekEnd) && !Completes(p, tokens, seek, seekEnd)
  }

  /** The decoder went on with every token but perhaps the last, and is what its tokens make it. */
  ghost predicate Settled(p: Params, d: Decoder, seek: int, seekEnd: int) {
    && (forall k :: 0 <= k < |d.tokens| ==> GoesOn(p, d.tokens[..k], seek, seekEnd))
    && (if d.tokens == [] then d == FRESH else Decided(p, d, seek, seekEnd))
  }

  /** A live decoder before round `i`. */
  ghost predicate Waits(p: Params, d: Decoder, seek: int, seekEnd: int, i: nat) {
    Settled(p, d, seek, seekEnd) && (Live(d) ==> |d.tokens| == i && Tracks(p, d, i))
  }

  lemma LiveGoesOn(p: Params, d: Decoder, seek: int, seekEnd: int)
    requires Settled(p, d, seek, seekEnd) && Live(d)
    ensures GoesOn(p, d.tokens, seek, seekEnd)
  {
    hide Fails, Completes;
    if d.tokens == [] {
      NothingYet(p, seek, seekEnd);
    }
  }

  lemma NothingYet(p: Params, seek: int, seekEnd: int)
    ensures GoesOn(p, [], seek, seekEnd)
  {
  }

  /** One round keeps this for one decoder. */
  lemma RoundSettles(p: Params, d: Decoder, token: int, i: nat, seek: int, seekEnd: int)
    requires Waits(p, d, seek, seekEnd, i) && Live(d)
    ensures var e := Judged(p, d.(tokens := d.tokens + [token]), i, seek, seekEnd);
            Waits(p, e, seek, seekEnd, i + 1) && e.tokens == d.tokens + [token]
  {
    hide Fails, Completes, Decided, Tracks, Judged;
    var g := d.(tokens := d.tokens + [token]);
    var e := Judged(p, g, i, seek, seekEnd);
    TracksPrefix(p, d, token);
    JudgedDecided(p, g, i, seek, seekEnd);
    JudgedKeeps(p, g, i, seek, seekEnd);
    LiveGoesOn(p, d, seek, seekEnd);
    forall k | 0 <= k < |e.tokens|
      ensures GoesOn(p, e.tokens[..k], seek, seekEnd)
    {
      if k < |d.tokens| {
        assert e.tokens[..k] == d.tokens[..k];
      } else {
        assert e.tokens[..k] == d.tokens;
      }
    }
  }

  lemma JudgedKeeps(p: Params, d: Decoder, i: nat, seek: int, seekEnd: int)
    requires Live(d) && |d.tokens| == i + 1 && Tracks(p, d, i)
    ensures var e := Judged(p, d, i, seek, seekEnd); e.tokens == d.tokens && (Live(e) ==> Tracks(p, e, i + 1))
  {
  }

  ghost predicate AllWait(p: Params, ds: seq<Decoder>, n: nat, seek: int, seekEnd: int, i: nat)
    requires n <= |ds|
  {
    forall j :: 0 <= j < n ==> Waits(p, ds[j], seek, seekEnd, i)
  }

  lemma NextWaits(p: Params, o: Oracle, w: nat, it: nat, seek: int, seekEnd: int, ds: seq<Decoder>, n: nat, i: nat)
    requires n <= |ds| && AllWait(p, ds, n, seek, seekEnd, i)
    ensures AllWait(p, JudgedAll(p, i, seek, seekEnd, Sampled(p, o, w, it, i, ds, n), n), n, seek, seekEnd, i + 1)
  {
    hide Waits, Judged, LiveOnes;
    var next := JudgedAll(p, i, seek, seekEnd, Sampled(p, o, w, it, i, ds, n), n);
    forall j | 0 <= j < n
      ensures Waits(p, next[j], seek, seekEnd, i + 1)
    {
      if Live(ds[j]) {
        var alive := LiveOnes(ds, n);
        var from := if p.beam then alive[o.parent(w, it, i, j) % |alive|] else j;
        assert Waits(p, ds[from], seek, seekEnd, i) && Live(ds[from]);
        RoundSettles(p, ds[from], o.token(w, it, i, j), i, seek, seekEnd);
      } else {
        DoneWaits(p, ds[j], seek, seekEnd, i);
      }
    }
  }

  lemma DoneWaits(p: Params, d: Decoder, seek: int, seekEnd: int, i: nat)
    requires Waits(p, d, seek, seekEnd, i) && !Live(d)
    ensures Waits(p, d, seek, seekEnd, i + 1)
  {
    hide Settled;
  }

  lemma {:induction false} RoundsSettle(p: Params, o: Oracle, w: nat, it: nat, seek: int, seekEnd: int,
                                        ds: seq<Decoder>, n: nat, i: nat, j: nat)
    requires n <= |ds| && AllWait(p, ds, n, seek, seekEnd, i) && j < n && i <= p.rounds
    ensures var d := Rounds(p, o, w, it, seek, seekEnd, ds, n, i)[j];
            Settled(p, d, seek, seekEnd) && (Live(d) ==> |d.tokens| == p.rounds)
    decreases p.rounds - i
  {
    hide Settled, Sampled, JudgedAll;
    if i < p.rounds {
      NextWaits(p, o, w, it, seek, seekEnd, ds, n, i);
      var next := JudgedAll(p, i, seek, seekEnd, Sampled(p, o, w, it, i, ds, n), n);
      if !AllDone(next, n) {
        RoundsSettle(p, o, w, it, seek, seekEnd, next, n, i + 1, j);
      }
    }
  }

  /** After the rounds of an attempt every decoder has stopped with the first token that completes it or makes
      it fail, or has used up all rounds. */
  lemma DecodedSettled(p: Params, o: Oracle, w: nat, it: nat, seek: int, seekEnd: int, ds: seq<Decoder>, j: nat)
    requires |ds| == MAX_DECODERS && j < Count(o, w, it)
    ensures var d := Decoded(p, o, w, it, seek, seekEnd, ds)[j];
            Settled(p, d, seek, seekEnd) && (Live(d) ==> |d.tokens| == p.rounds)
  {
    hide Settled, Rounds;
    var n := Count(o, w, it);
    FreshWaits(p, seek, seekEnd);
    RoundsSettle(p, o, w, it, seek, seekEnd, Started(ds, n), n, 0, j);
  }

  lemma FreshWaits(p: Params, seek: int, seekEnd: int)
    ensures Waits(p, FRESH, seek, seekEnd, 0)
  {
  }

  // ----- ranking

  /** Decoder `j` takes part in the ranking. */
  ghost predicate Ranked(o: Oracle, w: nat, it: nat, d: Decoder, j: nat) {
    !d.failed && !(d.resultLen > 32 && o.repeats(w, it, j))
  }

  /** After the attempt a decoder has failed exactly when its tokens made it fail or its result of more than 32
      tokens repeats itself; what has not failed by its tokens is cut to its result. */
  lemma AttemptOutcome(p: Params, o: Oracle, w: nat, it: nat, seek: int, seekEnd: int, ds: seq<Decoder>, best: nat,
                       j: nat)
    requires |ds| == MAX_DECODERS && best < MAX_DECODERS && j < Count(o, w, it)
    ensures var d, e := Decoded(p, o, w, it, seek, seekEnd, ds)[j], Tried(p, o, w, it, seek, seekEnd, ds, best).0[j];
            && (e.failed <==> Fails(p, d.tokens, seek, seekEnd) || (d.resultLen > 32 && o.repeats(w, it, j)))
            && e.resultLen == d.resultLen && e.seekDelta == d.seekDelta
            && (!Fails(p, d.tokens, seek, seekEnd) ==>
                  0 <= d.resultLen <= |d.tokens| && e.tokens == d.tokens[..d.resultLen])
  {
    hide Rounds, Fails, Completes, LastStamp, StampStep;
    DecodedSettled(p, o, w, it, seek, seekEnd, ds, j);
    var d := Decoded(p, o, w, it, seek, seekEnd, ds)[j];
    FailsSome(p, seek, seekEnd);
    DecidedLength(p, d, seek, seekEnd);
  }

  lemma FailsSome(p: Params, seek: int, seekEnd: int)
    ensures !Fails(p, [], seek, seekEnd)
  {
  }

  lemma DecidedLength(p: Params, d: Decoder, seek: int, seekEnd: int)
    requires Settled(p, d, seek, seekEnd)
    ensures 0 <= d.resultLen <= |d.tokens|
  {
  }

  /** A decoder that ends its text after a timestamp, and does not go back in time, completes: it is ranked
      unless it repeats itself. */
  lemma EndOfTextRanked(p: Params, o: Oracle, w: nat, it: nat, seek: int, seekEnd: int, ds: seq<Decoder>, best: nat,
                        j: nat)
    requires |ds| == MAX_DECODERS && best < MAX_DECODERS && j < Count(o, w, it) && p.eot <= p.beg
    requires var t := Decoded(p, o, w, it, seek, seekEnd, ds)[j].tokens;
             t != [] && t[|t| - 1] == p.eot && exists k :: 0 <= k < |t| && t[k] > p.beg
    ensures var d, e := Decoded(p, o, w, it, seek, seekEnd, ds)[j], Tried(p, o, w, it, seek, seekEnd, ds, best).0[j];
            d.completed && (e.failed <==> d.resultLen > 32 && o.repeats(w, it, j))
  {
    hide Rounds, Tried;
    var t := Decoded(p, o, w, it, seek, seekEnd, ds)[j].tokens;
    DecodedSettled(p, o, w, it, seek, seekEnd, ds, j);
    AttemptOutcome(p, o, w, it, seek, seekEnd, ds, best, j);
    assert LastStamp(p, t, |t|) > 0;
  }

  /** The best decoder is the last ranked one that scores better than those before it. */
  lemma {:induction false} BestIs(o: Oracle, w: nat, it: nat, ds: seq<Decoder>, n: nat, best: nat)
    requires n <= |ds|
    ensures var r := Best(o, w, it, ds, n, best);
            if exists j :: 0 <= j < n && Ranked(o, w, it, ds[j], j) && o.better(w, it, j)
            then r < n && Ranked(o, w, it, ds[r], r) && o.better(w, it, r) &&
                 forall j :: r < j < n ==> !(Ranked(o, w, it, ds[j], j) && o.better(w, it, j))
            else r == best
    decreases n
  {
    if n > 0 {
      BestIs(o, w, it, ds, n - 1, best);
    }
  }

  // ----- where the tokens come from

  /** Every token was sampled in its own round: for this decoder, or with a beam for any. */
  ghost predicate Drawn(p: Params, o: Oracle, w: nat, it: nat, n: nat, d: Decoder, j: nat) {
    forall k :: 0 <= k < |d.tokens| ==> DrawnAt(p, o, w, it, n, d.tokens[k], k, j)
  }

  ghost predicate DrawnAt(p: Params, o: Oracle, w: nat, it: nat, n: nat, token: int, k: nat, j: nat) {
    if p.beam then exists i: nat :: i < n && token == o.token(w, it, k, i) else token == o.token(w, it, k, j)
  }

  ghost predicate AllDrawn(p: Params, o: Oracle, w: nat, it: nat, ds: seq<Decoder>, n: nat, i: nat)
    requires n <= |ds|
  {
    forall j :: 0 <= j < n ==> Drawn(p, o, w, it, n, ds[j], j) && (Live(ds[j]) ==> |ds[j].tokens| == i)
  }

  lemma NextDrawn(p: Params, o: Oracle, w: nat, it: nat, seek: int, seekEnd: int, ds: seq<Decoder>, n: nat, i: nat)
    requires n <= |ds| && AllDrawn(p, o, w, it, ds, n, i)
    ensures AllDrawn(p, o, w, it, JudgedAll(p, i, seek, seekEnd, Sampled(p, o, w, it, i, ds, n), n), n, i + 1)
  {
    hide Judged, LiveOnes;
    var next := JudgedAll(p, i, seek, seekEnd, Sampled(p, o, w, it, i, ds, n), n);
    var m := i + 1;
    forall j | 0 <= j < n
      ensures Drawn(p, o, w, it, n, next[j], j) && (Live(next[j]) ==> |next[j].tokens| == m)
    {
      if Live(ds[j]) {
        var alive := LiveOnes(ds, n);
        var from := if p.beam then alive[o.parent(w, it, i, j) % |alive|] else j;
        var g := ds[from].(tokens := ds[from].tokens + [o.token(w, it, i, j)]);
        JudgedTokens(p, g, i, seek, seekEnd);
        assert Drawn(p, o, w, it, n, ds[from], from);
        assert DrawnAt(p, o, w, it, n, g.tokens[i], i, j);
      }
    }
  }

  lemma JudgedTokens(p: Params, d: Decoder, i: nat, seek: int, seekEnd: int)
    requires d.tokens != []
    ensures Judged(p, d, i, seek, seekEnd).tokens == d.tokens
  {
  }

  lemma {:induction false} RoundsDrawn(p: Params, o: Oracle, w: nat, it: nat, seek: int, seekEnd: int,
                                       ds: seq<Decoder>, n: nat, i: nat, j: nat)
    requires n <= |ds| && AllDrawn(p, o, w, it, ds, n, i) && j < n && i <= p.rounds
    ensures Drawn(p, o, w, it, n, Rounds(p, o, w, it, seek, seekEnd, ds, n, i)[j], j)
    decreases p.rounds - i
  {
    hide Drawn, Sampled, JudgedAll;
    if i < p.rounds {
      NextDrawn(p, o, w, it, seek, seekEnd, ds, n, i);
      var next := JudgedAll(p, i, seek, seekEnd, Sampled(p, o, w, it, i, ds, n), n);
      if !AllDone(next, n) {
        RoundsDrawn(p, o, w, it, seek, seekEnd, next, n, i + 1, j);
      }
    }
  }

  lemma DecodedDrawn(p: Params, o: Oracle, w: nat, it: nat, seek: int, seekEnd: int, ds: seq<Decoder>, j: nat)
    requires |ds| == MAX_DECODERS && j < Count(o, w, it)
    ensures Drawn(p, o, w, it, Count(o, w, it), Decoded(p, o, w, it, seek, seekEnd, ds)[j], j)
  {
    hide Rounds;
    var n := Count(o, w, it);
    RoundsDrawn(p, o, w, it, seek, seekEnd, Started(ds, n), n, 0, j);
  }

  // ----- a window

  /** The decoders and the best one after `k` attempts. */
  ghost function Attempts(p: Params, o: Oracle, w: nat, seek: int, seekEnd: int, ds: seq<Decoder>, it: nat, best: nat,
                          k: nat): (r: (seq<Decoder>, nat))
    requires |ds| == MAX_DECODERS && best < MAX_DECODERS
    ensures |r.0| == |ds| && r.1 < MAX_DECODERS
  {
    if k == 0 then (ds, best)
    else
      var (d, b) := Attempts(p, o, w, seek, seekEnd, ds, it, best, k - 1);
      Tried(p, o, w, it + k - 1, seek, seekEnd, d, b)
  }

  /** After `k` attempts the best decoder has failed, or is not good enough. */
  ghost predicate FallsBack(p: Params, o: Oracle, w: nat, seek: int, seekEnd: int, ds: seq<Decoder>, it: nat, best: nat,
                            k: nat)
    requires |ds| == MAX_DECODERS && best < MAX_DECODERS && k > 0
  {
    var (d, b) := Attempts(p, o, w, seek, seekEnd, ds, it, best, k);
    d[b].failed || o.poor(w, it + k - 1)
  }

  /** The attempts after the first one are those that start from where it ends. */
  lemma {:induction false} AttemptsShift(p: Params, o: Oracle, w: nat, seek: int, seekEnd: int, ds: seq<Decoder>,
                                         it: nat, best: nat, k: nat)
    requires |ds| == MAX_DECODERS && best < MAX_DECODERS
    ensures var (d, b) := Tried(p, o, w, it, seek, seekEnd, ds, best);
            Attempts(p, o, w, seek, seekEnd, ds, it, best, k + 1) == Attempts(p, o, w, seek, seekEnd, d, it + 1, b, k)
  {
    hide Tried;
    if k > 0 {
      AttemptsShift(p, o, w, seek, seekEnd, ds, it, best, k - 1);
    } else {
      assert Attempts(p, o, w, seek, seekEnd, ds, it, best, 0) == (ds, best);
    }
  }

  /** A window falls back to the next temperature as long as the best decoder has failed or is not good enough
      and there is one; `tries` attempts are made. */
  lemma {:induction false} WindowTries(p: Params, o: Oracle, w: nat, seek: int, seekEnd: int, ds: seq<Decoder>, it: nat,
                                       best: nat) returns (tries: nat)
    requires |ds| == MAX_DECODERS && best < MAX_DECODERS && it < |Temperatures(p)|
    ensures 1 <= tries <= |Temperatures(p)| - it
    ensures Windowed(p, o, w, seek, seekEnd, ds, it, best) == Attempts(p, o, w, seek, seekEnd, ds, it, best, tries)
    ensures forall k :: 1 <= k < tries ==> FallsBack(p, o, w, seek, seekEnd, ds, it, best, k)
    ensures tries < |Temperatures(p)| - it ==> !FallsBack(p, o, w, seek, seekEnd, ds, it, best, tries)
    decreases |Temperatures(p)| - it
  {
    hide Tried, Temperatures;
    var (d, b) := Tried(p, o, w, it, seek, seekEnd, ds, best);
    AttemptsShift(p, o, w, seek, seekEnd, ds, it, best, 0);
    tries := 1;
    if it + 1 < |Temperatures(p)| && (d[b].failed || o.poor(w, it)) {
      var more := WindowTries(p, o, w, seek, seekEnd, d, it + 1, b);
      tries := more + 1;
      forall k | 1 <= k <= tries
        ensures k > 1 ==> (FallsBack(p, o, w, seek, seekEnd, ds, it, best, k) <==>
                           FallsBack(p, o, w, seek, seekEnd, d, it + 1, b, k - 1))
        ensures k == 1 ==> FallsBack(p, o, w, seek, seekEnd, ds, it, best, k)
      {
        AttemptsShift(p, o, w, seek, seekEnd, ds, it, best, k - 1);
      }
      AttemptsShift(p, o, w, seek, seekEnd, ds, it, best, more);
    }
  }

  /** A window moves on by the step of its best decoder; but when that ends with text and one timestamp, by 30 s
      or to the end of the audio. */
  lemma WindowMoves(p: Params, o: Oracle, start: int, seekEnd: int, ds: seq<Decoder>, k: nat)
    requires |ds| == MAX_DECODERS
    ensures var (d, seek) := After(p, o, start, seekEnd, ds, k);
            var (next, best) := Windowed(p, o, k, seek, seekEnd, d, 0, 0);
            var t := next[best].tokens;
            After(p, o, start, seekEnd, ds, k + 1) ==
            (next,
             if |t| >= 2 && t[|t| - 2] < p.beg && p.beg < t[|t| - 1]
             then (if seek + 3000 < seekEnd then seek + 3000 else seekEnd)
             else seek + next[best].seekDelta)
  {
    hide Windowed;
    AfterOne(p, o, start, seekEnd, ds, k);
  }
}
