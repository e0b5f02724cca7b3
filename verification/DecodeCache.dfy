/** An attempt of the decoding loop on the shared cache: the rounds that the session runs are those that
    the sampler draws and the loop judges. */
module DecodeCache {
  import DecodeLoop
  import KvCache
  import KvBeam
  import KvSession

  type Decoder = DecodeLoop.Decoder

  /** Which attempt it is, and of how many decoders. */
  datatype Setting = Setting(p: DecodeLoop.Params, o: DecodeLoop.Oracle, w: nat, it: nat, seek: int, seekEnd: int,
                             n: nat)

  /** The decoders after round `i`. */
  ghost function Next(c: Setting, ds: seq<Decoder>, i: nat): (r: seq<Decoder>)
    requires c.n <= |ds|
    ensures |r| == |ds|
  {
    DecodeLoop.JudgedAll(c.p, i, c.seek, c.seekEnd, DecodeLoop.Sampled(c.p, c.o, c.w, c.it, i, ds, c.n), c.n)
  }

  /** The decoders after `k` rounds. */
  ghost function Later(c: Setting, ds: seq<Decoder>, k: nat): (r: seq<Decoder>)
    requires c.n <= |ds|
    ensures |r| == |ds|
  {
    if k == 0 then ds else Next(c, Later(c, ds, k - 1), k - 1)
  }

  /** From which decoder `j` goes on in round `i`. */
  ghost function Parent(c: Setting, ds: seq<Decoder>, i: nat, j: nat): nat
    requires j < c.n <= |ds|
  {
    if DecodeLoop.Live(ds[j]) then
      var alive := DecodeLoop.LiveOnes(ds, c.n);
      alive[c.o.parent(c.w, c.it, i, j) % |alive|]
    else j
  }

  /** Round `i` as the cache sees it: what the sampler draws, and who ends because the loop says so. */
  ghost function Drawn(c: Setting, ds: seq<Decoder>, i: nat): KvSession.Round
    requires c.n <= |ds|
  {
    KvSession.Round(
      seq(c.n, j requires 0 <= j < c.n => Parent(c, ds, i, j)),
      seq(c.n, j requires 0 <= j < c.n => c.o.token(c.w, c.it, i, j)),
      seq(c.n, j requires 0 <= j < c.n => !DecodeLoop.Live(Next(c, ds, i)[j])))
  }

  /** How many rounds there are from round `i` on: until all are done, or the text context is full. */
  ghost function Count(c: Setting, ds: seq<Decoder>, i: nat): (r: nat)
    requires c.n <= |ds|
    ensures i + r <= c.p.rounds || r == 0
    decreases if i < c.p.rounds then c.p.rounds - i else 0
  {
    if i >= c.p.rounds then 0
    else 1 + if DecodeLoop.AllDone(Next(c, ds, i), c.n) then 0 else Count(c, Next(c, ds, i), i + 1)
  }

  ghost function Drawings(c: Setting, ds: seq<Decoder>): (r: seq<KvSession.Round>)
    requires c.n <= |ds|
    ensures |r| == Count(c, ds, 0)
  {
    seq(Count(c, ds, 0), k requires 0 <= k < Count(c, ds, 0) => Drawn(c, Later(c, ds, k), k))
  }

  /** The loop leaves the decoders of the last round, and only after it everybody is done. */
  lemma {:induction false} LoopRounds(c: Setting, ds: seq<Decoder>, i: nat)
    requires c.n <= |ds|
    ensures var d, m := Later(c, ds, i), Count(c, Later(c, ds, i), i);
            && DecodeLoop.Rounds(c.p, c.o, c.w, c.it, c.seek, c.seekEnd, d, c.n, i) == Later(c, ds, i + m)
            && (forall k: nat :: i < k < i + m ==> !DecodeLoop.AllDone(Later(c, ds, k), c.n))
    decreases if i < c.p.rounds then c.p.rounds - i else 0
  {
    hide DecodeLoop.AllDone, DecodeLoop.Sampled, DecodeLoop.JudgedAll;
    if i < c.p.rounds {
      var next := Later(c, ds, i + 1);
      if !DecodeLoop.AllDone(next, c.n) {
        LoopRounds(c, ds, i + 1);
      }
    }
  }

  lemma LoopAll(c: Setting, ds: seq<Decoder>)
    requires c.n <= |ds|
    ensures DecodeLoop.Rounds(c.p, c.o, c.w, c.it, c.seek, c.seekEnd, ds, c.n, 0) == Later(c, ds, Count(c, ds, 0))
    ensures forall k: nat :: 0 < k < Count(c, ds, 0) ==> !DecodeLoop.AllDone(Later(c, ds, k), c.n)
  {
    hide DecodeLoop.Rounds, DecodeLoop.AllDone, Count, Next;
    LoopRounds(c, ds, 0);
  }

  ghost function LiveOf(ds: seq<Decoder>, n: nat): (r: seq<bool>)
    requires n <= |ds|
    ensures |r| == n
  {
    seq(n, j requires 0 <= j < n => DecodeLoop.Live(ds[j]))
  }

  ghost function TokensOf(ds: seq<Decoder>, n: nat): (r: seq<seq<int>>)
    requires n <= |ds|
    ensures |r| == n
  {
    seq(n, j requires 0 <= j < n => ds[j].tokens)
  }

  /** What round `i` makes of one decoder. */
  lemma DrawnOne(c: Setting, ds: seq<Decoder>, i: nat, j: nat)
    requires j < c.n <= |ds|
    ensures var k, next := Parent(c, ds, i, j), Next(c, ds, i)[j];
            && (DecodeLoop.Live(ds[j]) ==> k < c.n && DecodeLoop.Live(ds[k]))
            && (DecodeLoop.Live(next) ==> DecodeLoop.Live(ds[j]))
            && next.tokens == if DecodeLoop.Live(ds[j])
                              then ds[if c.p.beam then k else j].tokens + [c.o.token(c.w, c.it, i, j)]
                              else ds[j].tokens
  {
    hide DecodeLoop.Judged, DecodeLoop.LiveOnes;
    if DecodeLoop.Live(ds[j]) {
      JudgedTokens(c.p, DecodeLoop.Grown(c.p, c.o, c.w, c.it, i, ds, c.n, j), i, c.seek, c.seekEnd);
    }
  }

  /** A round of the loop is a round of the session. */
  lemma AdvanceDrawn(c: Setting, ds: seq<Decoder>, i: nat)
    requires c.n <= |ds| && c.n <= KvBeam.MAX_DECODERS
    ensures var r, live := Drawn(c, ds, i), LiveOf(ds, c.n);
            && KvSession.RoundOk(r, c.n, live, c.p.beam)
            && KvSession.Advance(r, live, TokensOf(ds, c.n), c.p.beam) ==
               (LiveOf(Next(c, ds, i), c.n), TokensOf(Next(c, ds, i), c.n))
  {
    hide Next, Parent, DecodeLoop.Live;
    var r, live, tokens := Drawn(c, ds, i), LiveOf(ds, c.n), TokensOf(ds, c.n);
    var next := Next(c, ds, i);
    forall j | 0 <= j < c.n
      ensures live[j] ==> r.parent[j] < c.n && live[r.parent[j]]
    {
      DrawnOne(c, ds, i, j);
    }
    assert KvBeam.Family(live, r.parent);
    forall j | 0 <= j < c.n
      ensures next[j].tokens == KvSession.NextTokens(r, live, tokens, c.p.beam, j)
      ensures DecodeLoop.Live(next[j]) <==> live[j] && !r.ends[j]
    {
      DrawnOne(c, ds, i, j);
    }
    SameAdvance(r, live, tokens, c.p.beam, next, c.n);
  }

  lemma SameAdvance(r: KvSession.Round, live: seq<bool>, tokens: seq<seq<int>>, beam: bool, ds: seq<Decoder>, n: nat)
    requires n == |live| == |tokens| <= |ds| && KvSession.RoundOk(r, n, live, beam)
    requires forall j :: 0 <= j < n ==> ds[j].tokens == KvSession.NextTokens(r, live, tokens, beam, j)
    requires forall j :: 0 <= j < n ==> (DecodeLoop.Live(ds[j]) <==> live[j] && !r.ends[j])
    ensures KvSession.Advance(r, live, tokens, beam) == (LiveOf(ds, n), TokensOf(ds, n))
  {
    hide KvSession.NextTokens, DecodeLoop.Live;
    var (l, t) := KvSession.Advance(r, live, tokens, beam);
    assert l == LiveOf(ds, n);
    assert t == TokensOf(ds, n);
  }

  lemma JudgedTokens(p: DecodeLoop.Params, d: Decoder, i: nat, seek: int, seekEnd: int)
    requires d.tokens != []
    ensures DecodeLoop.Judged(p, d, i, seek, seekEnd).tokens == d.tokens
  {
  }

  /** The session has the live decoders and the tokens of the loop after every round. */
  lemma {:induction false} SameDecoders(c: Setting, ds: seq<Decoder>, k: nat)
    requires c.n <= |ds| && c.n <= KvBeam.MAX_DECODERS && k <= Count(c, ds, 0)
    requires forall j :: 0 <= j < c.n ==> ds[j] == DecodeLoop.FRESH
    ensures KvSession.After(Drawings(c, ds), c.n, c.p.beam, k) ==
            (LiveOf(Later(c, ds, k), c.n), TokensOf(Later(c, ds, k), c.n))
    decreases k
  {
    hide KvSession.Advance, KvSession.RoundOk, Next, Drawn;
    if k == 0 {
      assert LiveOf(ds, c.n) == seq(c.n, _ => true);
      assert TokensOf(ds, c.n) == seq(c.n, _ => []);
    } else {
      SameDecoders(c, ds, k - 1);
      AdvanceDrawn(c, Later(c, ds, k - 1), k - 1);
      assert Drawings(c, ds)[k - 1] == Drawn(c, Later(c, ds, k - 1), k - 1);
    }
  }

  /** An attempt on the cache: with enough cells it ends with exactly the decoders of the loop, and in every
      round each live decoder has seen exactly its own history. */
  method RunAttempt(session: KvSession.Session, rounds: seq<KvSession.Round>, pad: nat, ghost c: Setting,
                    ghost ds: seq<Decoder>, beam: bool)
    returns (end: KvSession.End, k: nat, ghost views: seq<KvSession.View>)
    requires session.Fits() && KvSession.Padding(pad) && |session.prompt| + |rounds| < KvCache.MAX_POS
    requires |ds| == DecodeLoop.MAX_DECODERS && c.n == DecodeLoop.Count(c.o, c.w, c.it) == session.n && beam == c.p.beam
    requires rounds == Drawings(c, DecodeLoop.Started(ds, c.n))
    requires KvSession.Top(session.prompt, session.n, |rounds|) <= session.cache.cells.Length
    modifies session, session.cache, session.cache.cells, session.cache.rows
    ensures var d := DecodeLoop.Decoded(c.p, c.o, c.w, c.it, c.seek, c.seekEnd, ds);
            session.live == LiveOf(d, c.n) && session.tokens == TokensOf(d, c.n)
    ensures k == |rounds| && (end.AllDone? || end.RoundsOver?)
    ensures KvSession.SawOwn(views, session.prompt, rounds, session.n, beam)
  {
    hide KvSession.SawOwn, KvSession.Top, Drawings, Later, Count, DecodeLoop.Rounds;
    ghost var d0 := DecodeLoop.Started(ds, c.n);
    end, k, views := KvSession.Run(session, rounds, beam, pad);
    AttemptRounds(c, d0, k);
    if end.Unfit? {
      assert false;
    }
  }

  /** What is left to say after `k` rounds: the next one fits, and somebody is live until the last. */
  lemma AttemptRounds(c: Setting, ds: seq<Decoder>, k: nat)
    requires c.n <= |ds| && c.n <= KvBeam.MAX_DECODERS && k <= Count(c, ds, 0)
    requires forall j :: 0 <= j < c.n ==> ds[j] == DecodeLoop.FRESH
    ensures var d := Later(c, ds, k);
            && KvSession.After(Drawings(c, ds), c.n, c.p.beam, k) == (LiveOf(d, c.n), TokensOf(d, c.n))
            && (k < Count(c, ds, 0) ==>
                  && KvSession.RoundOk(Drawings(c, ds)[k], c.n, LiveOf(d, c.n), c.p.beam)
                  && (k > 0 ==> exists j :: 0 <= j < c.n && LiveOf(d, c.n)[j]))
            && (k == Count(c, ds, 0) ==> d == DecodeLoop.Rounds(c.p, c.o, c.w, c.it, c.seek, c.seekEnd, ds, c.n, 0))
  {
    hide KvSession.After, KvSession.Advance, KvSession.RoundOk, Next, Drawn, DecodeLoop.Rounds, Later, Count;
    SameDecoders(c, ds, k);
    LoopAll(c, ds);
    var d := Later(c, ds, k);
    if k < Count(c, ds, 0) {
      AdvanceDrawn(c, d, k);
      if k > 0 {
        assert !DecodeLoop.AllDone(d, c.n);
        var j :| 0 <= j < c.n && DecodeLoop.Live(d[j]);
        assert LiveOf(d, c.n)[j];
      }
    }
  }
}
