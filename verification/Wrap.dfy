/** Wrapping a long segment of the transcript into pieces of a maximal length. */
module Wrap {
  import opened Seqs

  datatype Token = Token(id: int, t0: int)

  datatype Segment = Segment(t0: int, t1: int, text: string, tokens: seq<Token>, turn: bool)

  /** The texts of tokens and how they are wrapped. Tokens from `eot` on have no text. */
  datatype Rules = Rules(str: int -> string, eot: int, maxLen: int, onWord: bool) {
    function TextOf(t: Token): string {
      if t.id >= eot then "" else str(t.id)
    }

    /** A new piece may start with this token. */
    predicate MaySplit(t: Token) {
      t.id < eot && (!onWord || (|str(t.id)| > 0 && str(t.id)[0] == ' '))
    }
  }

  ghost function Text(r: Rules, ts: seq<Token>): string {
    if ts == [] then "" else Text(r, ts[..|ts| - 1]) + r.TextOf(ts[|ts| - 1])
  }

  ghost function Flat(s: seq<Segment>): seq<Token> {
    if s == [] then [] else Flat(s[..|s| - 1]) + s[|s| - 1].tokens
  }

  ghost function FlatText(s: seq<Segment>): string {
    if s == [] then "" else FlatText(s[..|s| - 1]) + s[|s| - 1].text
  }

  /** No token at which the piece could have been split is past the maximal length. */
  ghost predicate Fits(r: Rules, ts: seq<Token>) {
    forall i :: 0 < i < |ts| && r.MaySplit(ts[i]) ==> |Text(r, ts[..i])| + |r.TextOf(ts[i])| <= r.maxLen
  }

  /** The pieces before the last one: they join up in time and text, and each ends because what comes
      next may be split off and does not fit. `next` starts what follows. */
  ghost predicate Closed(r: Rules, done: seq<Segment>, t0: int, next: Token, start: int) {
    && (done == [] ==> start == t0)
    && (done != [] ==> done[0].t0 == t0 && done[|done| - 1].t1 == start == next.t0 && Breaks(r, done[|done| - 1], next))
    && (forall k :: 0 <= k < |done| ==>
        done[k].tokens != [] && done[k].text == Text(r, done[k].tokens) && !done[k].turn && Fits(r, done[k].tokens))
    && (forall k :: 0 < k < |done| ==>
        done[k - 1].t1 == done[k].t0 == done[k].tokens[0].t0 && Breaks(r, done[k - 1], done[k].tokens[0]))
  }

  ghost predicate Breaks(r: Rules, s: Segment, next: Token) {
    r.MaySplit(next) && |s.text| + |r.TextOf(next)| > r.maxLen
  }

  /** What wrapping `whole` has to give. */
  ghost predicate Wrapped(r: Rules, whole: Segment, pieces: seq<Segment>) {
    pieces != [] &&
    var n := |pieces| - 1;
    var last := pieces[n];
    && Flat(pieces) == whole.tokens
    && last.t1 == whole.t1 && last.turn == whole.turn && last.text == Text(r, last.tokens) && Fits(r, last.tokens)
    && (n > 0 ==> last.tokens != [])
    && Closed(r, pieces[..n], whole.t0, if last.tokens != [] then last.tokens[0] else Token(0, 0), last.t0)
  }

  lemma TextSnoc(r: Rules, ts: seq<Token>, i: nat)
    requires i < |ts|
    ensures Text(r, ts[..i + 1]) == Text(r, ts[..i]) + r.TextOf(ts[i])
  {
    assert ts[..i + 1][..i] == ts[..i];
  }

  lemma FlatNone(ts: seq<Token>)
    ensures Flat([]) + ts == ts
  {
  }

  lemma FlatSnoc(s: seq<Segment>, a: Segment)
    ensures Flat(s + [a]) == Flat(s) + a.tokens && FlatText(s + [a]) == FlatText(s) + a.text
  {
    assert (s + [a])[..|s|] == s;
  }

  /** Wrap the last segment; `n` is the number of pieces. */
  method WrapSegment(r: Rules, all: seq<Segment>) returns (result: seq<Segment>, n: nat)
    requires all != []
    ensures n >= 1 && |result| == |all| - 1 + n && result[..|all| - 1] == all[..|all| - 1]
    ensures Wrapped(r, all[|all| - 1], result[|all| - 1..])
  {
    hide Text, Fits, Flat, Closed, Wrapped, Breaks;
    var before := all[..|all| - 1];
    ghost var whole := all[|all| - 1];
    var done: seq<Segment> := [];
    var back, segment := all[|all| - 1], all[|all| - 1];
    n := 1;
    var acc, text, i := 0, "", 0;
    Start(r, segment.tokens);
    FlatNone(whole.tokens);
    ClosedNone(r, whole.t0);
    while i < |segment.tokens|
      invariant 0 <= i <= |segment.tokens| && n == |done| + 1 && back.tokens == segment.tokens
      invariant text == Text(r, segment.tokens[..i]) && acc == |text| && Fits(r, segment.tokens[..i])
      invariant Flat(done) + segment.tokens == whole.tokens && (done != [] ==> segment.tokens != [])
      invariant back.t0 == segment.t0 && back.t1 == segment.t1 == whole.t1 && back.turn == segment.turn == whole.turn
      invariant Closed(r, done, whole.t0, if segment.tokens != [] then segment.tokens[0] else Token(0, 0), back.t0)
      decreases |segment.tokens|, |segment.tokens| - i
    {
      var token := segment.tokens[i];
      TextSnoc(r, segment.tokens, i);
      if token.id >= r.eot {
        FitsSnoc(r, segment.tokens, i);
        i := i + 1;
        continue;
      }
      var txt := r.str(token.id);
      var cur := |txt|;
      if acc + cur > r.maxLen && i > 0 && (!r.onWord || (cur > 0 && txt[0] == ' ')) {
        back := Segment(back.t0, token.t0, text, segment.tokens[..i], false);
        var next := Segment(token.t0, segment.t1, "", segment.tokens[i..], segment.turn);
        assert Breaks(r, back, token) by {
          BreaksHere(r, back, token);
        }
        CloseOne(r, done, whole.t0, segment.tokens[0], back, token);
        FlatSplit(done, back, segment.tokens, i);
        done := done + [back];
        segment, back := next, next;
        acc, text, i := 0, "", 0;
        n := n + 1;
        Start(r, segment.tokens);
      } else {
        FitsSnoc(r, segment.tokens, i);
        acc := acc + cur;
        text := text + txt;
        i := i + 1;
      }
    }
    assert segment.tokens[..i] == segment.tokens;
    back := back.(text := text);
    result := before + (done + [back]);
    assert result[|all| - 1..] == done + [back];
    Finish(r, whole, done, back);
  }

  lemma ClosedNone(r: Rules, t0: int)
    ensures forall next :: Closed(r, [], t0, next, t0)
  {
  }

  lemma BreaksHere(r: Rules, s: Segment, next: Token)
    requires r.MaySplit(next) && |s.text| + |r.TextOf(next)| > r.maxLen
    ensures Breaks(r, s, next)
  {
  }

  lemma FlatSplit(done: seq<Segment>, back: Segment, ts: seq<Token>, i: nat)
    requires i <= |ts| && back.tokens == ts[..i]
    ensures Flat(done + [back]) + ts[i..] == Flat(done) + ts
  {
    hide Flat;
    FlatSnoc(done, back);
    Assoc(Flat(done), ts[..i], ts[i..]);
    assert ts[..i] + ts[i..] == ts;
  }

  lemma Finish(r: Rules, whole: Segment, done: seq<Segment>, back: Segment)
    requires Flat(done) + back.tokens == whole.tokens && (done != [] ==> back.tokens != [])
    requires back.t1 == whole.t1 && back.turn == whole.turn && back.text == Text(r, back.tokens) && Fits(r, back.tokens)
    requires Closed(r, done, whole.t0, if back.tokens != [] then back.tokens[0] else Token(0, 0), back.t0)
    ensures Wrapped(r, whole, done + [back])
  {
    hide Text, Fits, Flat, Closed;
    FlatSnoc(done, back);
    assert (done + [back])[..|done|] == done;
  }

  lemma Start(r: Rules, ts: seq<Token>)
    ensures Text(r, ts[..0]) == "" && Fits(r, ts[..0])
  {
  }

  lemma FitsSnoc(r: Rules, ts: seq<Token>, i: nat)
    requires i < |ts| && Fits(r, ts[..i])
    requires i == 0 || !r.MaySplit(ts[i]) || |Text(r, ts[..i])| + |r.TextOf(ts[i])| <= r.maxLen
    ensures Fits(r, ts[..i + 1])
  {
    hide Text;
    var a, b := ts[..i], ts[..i + 1];
    forall k | 0 < k < |b| && r.MaySplit(b[k])
      ensures |Text(r, b[..k])| + |r.TextOf(b[k])| <= r.maxLen
    {
      assert b[..k] == ts[..k] && b[k] == ts[k];
      if k < i {
        assert a[..k] == ts[..k] && a[k] == ts[k];
      }
    }
  }

  lemma CloseOne(r: Rules, done: seq<Segment>, t0: int, first: Token, back: Segment, next: Token)
    requires Closed(r, done, t0, first, back.t0) && back.tokens != [] && back.tokens[0] == first
    requires back.text == Text(r, back.tokens) && !back.turn && Fits(r, back.tokens) && back.t1 == next.t0
    requires Breaks(r, back, next)
    ensures Closed(r, done + [back], t0, next, next.t0)
  {
    hide Text, Fits, Breaks;
  }

  /** Wrapping conserves the text. */
  lemma {:induction false} TextConserved(r: Rules, pieces: seq<Segment>)
    requires forall k :: 0 <= k < |pieces| ==> pieces[k].text == Text(r, pieces[k].tokens)
    ensures FlatText(pieces) == Text(r, Flat(pieces))
  {
    if pieces != [] {
      var n := |pieces| - 1;
      TextConserved(r, pieces[..n]);
      TextJoin(r, Flat(pieces[..n]), pieces[n].tokens);
    }
  }

  lemma TextStep(r: Rules, ts: seq<Token>, t: Token)
    ensures Text(r, ts + [t]) == Text(r, ts) + r.TextOf(t)
  {
    assert (ts + [t])[..|ts|] == ts;
  }

  lemma {:induction false} TextJoin(r: Rules, a: seq<Token>, b: seq<Token>)
    ensures Text(r, a + b) == Text(r, a) + Text(r, b)
  {
    hide Text;
    if b == [] {
      Start(r, b);
      assert b[..0] == b && a + b == a;
    } else {
      var c, t := b[..|b| - 1], b[|b| - 1];
      TextJoin(r, a, c);
      TextStep(r, c, t);
      TextStep(r, a + c, t);
      assert c + [t] == b;
      Assoc(a, c, [t]);
      Assoc(Text(r, a), Text(r, c), r.TextOf(t));
    }
  }

  lemma WrappedText(r: Rules, whole: Segment, pieces: seq<Segment>)
    requires Wrapped(r, whole, pieces)
    ensures FlatText(pieces) == Text(r, whole.tokens)
  {
    hide Fits, Breaks, Text, FlatText, Flat;
    var n := |pieces| - 1;
    forall k | 0 <= k < |pieces|
      ensures pieces[k].text == Text(r, pieces[k].tokens)
    {
      if k < n {
        assert pieces[..n][k] == pieces[k];
      }
    }
    TextConserved(r, pieces);
  }

  /** A piece starts only at a token with text (with a space in front, if words are to stay whole) that
      would have made the piece before it too long. */
  lemma BreakPoints(r: Rules, whole: Segment, pieces: seq<Segment>, k: nat)
    requires Wrapped(r, whole, pieces) && 0 < k < |pieces|
    ensures pieces[k].tokens != [] && pieces[k].tokens[0].id < r.eot
    ensures var txt := r.str(pieces[k].tokens[0].id);
            && r.maxLen < |Text(r, pieces[k - 1].tokens)| + |txt|
            && (r.onWord ==> [' '] <= txt)
    ensures pieces[k].t0 == pieces[k - 1].t1 == pieces[k].tokens[0].t0
  {
    hide Fits, Text, Flat;
    var n := |pieces| - 1;
    assert pieces[..n][k - 1] == pieces[k - 1];
    if k < n {
      assert pieces[..n][k] == pieces[k];
    }
  }

  /** When splitting is not bound to words, a piece is within the length or has no text but that of
      its first token. */
  lemma {:induction false} PieceLength(r: Rules, ts: seq<Token>)
    requires Fits(r, ts) && !r.onWord
    ensures |Text(r, ts)| <= r.maxLen || Text(r, ts) == Text(r, if ts == [] then [] else [ts[0]])
  {
    if |ts| > 1 {
      var m := |ts| - 1;
      assert ts[..m] + [ts[m]] == ts;
      forall i | 0 < i < m && r.MaySplit(ts[..m][i])
        ensures |Text(r, ts[..m][..i])| + |r.TextOf(ts[..m][i])| <= r.maxLen
      {
        assert ts[..m][..i] == ts[..i];
      }
      PieceLength(r, ts[..m]);
      if r.MaySplit(ts[m]) {
        assert |Text(r, ts[..m])| + |r.TextOf(ts[m])| <= r.maxLen;
      }
    } else if |ts| == 1 {
      assert ts == [ts[0]];
    }
  }
}
