/** Accepting code points, and the token filter that has to predict acceptance. */
module GrammarFilter {
  import opened GrammarRules
  import opened GrammarEngine

  // ----- accepting a code point

  /** In a well formed rule an item of a class is followed by something that starts anew. */
  lemma ItemFits(rule: seq<Elem>, i: nat)
    requires WellFormedRule(rule) && i < |rule| && IsCharElem(rule[i]) && !rule[i].RngUpper?
    ensures var n := i + ItemLen(rule[i..]); n < |rule| && !rule[n].RngUpper?
  {
    var n := i + ItemLen(rule[i..]);
    assert n < |rule| && Fits(rule, n);
  }

  lemma {:induction false} ClassFits(rule: seq<Elem>, i: nat)
    requires WellFormedRule(rule) && i < |rule| && IsCharElem(rule[i]) && !rule[i].RngUpper?
    ensures var j := i + ClassLen(rule[i..]); j < |rule| && !rule[j].RngUpper? && !rule[j].CharAlt?
    decreases |rule| - i
  {
    hide WellFormedRule, ItemLen;
    ItemFits(rule, i);
    var es := rule[i..];
    var n := ItemLen(es);
    var next := i + n;
    assert es[n] == rule[next];
    if rule[next].CharAlt? {
      assert es[n..] == rule[next..];
      ClassFits(rule, next);
    }
  }

  /** The position after the character class at `p`. */
  function AfterClass(g: Rules, p: Pos): (q: Pos)
    requires WellFormed(g) && ValidPos(g, p) && IsClassStart(At(g, p))
    ensures Continues(g, q)
  {
    ClassFits(g[p.rule], p.idx);
    Pos(p.rule, p.idx + ClassLen(From(g, p)))
  }

  /** The stack once the class on top has been matched. */
  function Matched(g: Rules, st: Stack): (r: Stack)
    requires WellFormed(g) && Waiting(g, st) && st != []
    ensures ValidStack(g, r)
  {
    PushRest(g, Pop(st), AfterClass(g, Top(st)))
  }

  /** The stacks that one stack turns into when it reads `chr`. */
  function AcceptOne(g: Rules, st: Stack, chr: nat): (sts: seq<Stack>)
    requires WellFormed(g) && NoLeftRecursion(g) && Waiting(g, st)
    ensures AllWaiting(g, sts)
  {
    if st != [] && ClassHas(From(g, Top(st)), chr) then
      AdvanceWaits(g, Matched(g, st));
      Advance(g, Matched(g, st))
    else []
  }

  function Accept(g: Rules, sts: seq<Stack>, chr: nat): (r: seq<Stack>)
    requires WellFormed(g) && NoLeftRecursion(g) && AllWaiting(g, sts)
    ensures AllWaiting(g, r)
  {
    if sts == [] then [] else
      assert Waiting(g, sts[0]);
      AcceptOne(g, sts[0], chr) + Accept(g, sts[1..], chr)
  }

  /** Reading code points one after the other. */
  function Run(g: Rules, sts: seq<Stack>, cs: Word): (r: seq<Stack>)
    requires WellFormed(g) && NoLeftRecursion(g) && AllWaiting(g, sts)
    ensures AllWaiting(g, r)
    decreases |cs|
  {
    if cs == [] then sts else Run(g, Accept(g, sts, cs[0]), cs[1..])
  }

  lemma AcceptOneIntro(g: Rules, st: Stack, chr: nat, w: Word)
    requires WellFormed(g) && Waiting(g, st) && st != [] && StackLang(g, st, [chr] + w)
    ensures ClassHas(From(g, Top(st)), chr) && StackLang(g, Matched(g, st), w)
  {
    hide IsTree, WellFormed, ClassLen, ClassHas;
    var p := Top(st);
    var u: Word, v: Word :| Cat([chr] + w, u, v) && Lang(g, From(g, p), u) && StackLang(g, Pop(st), v);
    LangClass(g, From(g, p), u);
    assert u[0] == ([chr] + w)[0];
    assert From(g, p)[ClassLen(From(g, p))..] == From(g, AfterClass(g, p));
    PushRestIntro(g, Pop(st), AfterClass(g, p), u[1..], v);
    assert w == ([chr] + w)[1..] == u[1..] + v;
  }

  lemma AcceptOneElim(g: Rules, st: Stack, chr: nat, w: Word)
    requires WellFormed(g) && Waiting(g, st) && st != []
    requires ClassHas(From(g, Top(st)), chr) && StackLang(g, Matched(g, st), w)
    ensures StackLang(g, st, [chr] + w)
  {
    hide Lang, WellFormed, ClassLen, ClassHas, StackLang;
    var p := Top(st);
    var u, v := PushRestElim(g, Pop(st), AfterClass(g, p), w);
    assert From(g, p)[ClassLen(From(g, p))..] == From(g, AfterClass(g, p));
    assert ([chr] + u)[1..] == u;
    LangClass(g, From(g, p), [chr] + u);
    StackIntro(g, st, [chr] + u, v);
    assert ([chr] + u) + v == [chr] + (u + v);
  }

  lemma AcceptOneLang(g: Rules, st: Stack, chr: nat, w: Word)
    requires WellFormed(g) && NoLeftRecursion(g) && Waiting(g, st)
    ensures StacksLang(g, AcceptOne(g, st, chr), w) <==> StackLang(g, st, [chr] + w)
  {
    if st != [] {
      hide StackLang, NoLeftRecursion, WellFormed, ClassHas, Matched;
      if ClassHas(From(g, Top(st)), chr) {
        AdvanceLang(g, Matched(g, st), w);
        if StackLang(g, Matched(g, st), w) {
          AcceptOneElim(g, st, chr, w);
        }
      }
      if StackLang(g, st, [chr] + w) {
        AcceptOneIntro(g, st, chr, w);
      }
    }
  }

  /** After reading `chr` the stacks derive exactly what they derived with `chr` in front. */
  lemma {:induction false} AcceptLang(g: Rules, sts: seq<Stack>, chr: nat, w: Word)
    requires WellFormed(g) && NoLeftRecursion(g) && AllWaiting(g, sts)
    ensures StacksLang(g, Accept(g, sts, chr), w) <==> StacksLang(g, sts, [chr] + w)
  {
    if sts != [] {
      AcceptOneLang(g, sts[0], chr, w);
      AcceptLang(g, sts[1..], chr, w);
      StacksLangConcat(g, AcceptOne(g, sts[0], chr), Accept(g, sts[1..], chr), w);
      StacksLangConcat(g, [sts[0]], sts[1..], [chr] + w);
      assert [sts[0]] + sts[1..] == sts;
      SingleStackLang(g, sts[0], [chr] + w);
    }
  }

  lemma SingleStackLang(g: Rules, st: Stack, w: Word)
    ensures StacksLang(g, [st], w) <==> StackLang(g, st, w)
  {
    assert [st][0] == st;
  }

  lemma {:induction false} RunLang(g: Rules, sts: seq<Stack>, cs: Word, w: Word)
    requires WellFormed(g) && NoLeftRecursion(g) && AllWaiting(g, sts)
    ensures StacksLang(g, Run(g, sts, cs), w) <==> StacksLang(g, sts, cs + w)
    decreases |cs|
  {
    if cs == [] {
      assert cs + w == w;
    } else {
      RunLang(g, Accept(g, sts, cs[0]), cs[1..], w);
      AcceptLang(g, sts, cs[0], cs[1..] + w);
      assert [cs[0]] + (cs[1..] + w) == cs + w;
    }
  }

  // ----- the initial stacks

  /** The stacks for the alternatives of rule `r` from the one at `s` on. */
  function InitFrom(g: Rules, r: nat, s: nat): (sts: seq<Stack>)
    requires WellFormed(g) && NoLeftRecursion(g) && AltStart(g, r, s)
    ensures sts != [] && AllWaiting(g, sts)
    decreases |g| + if r < |g| then |g[r]| - s else 0
  {
    StartContinues(g, r, s);
    AdvanceWaits(g, PushRest(g, [], Pos(r, s)));
    var n := NextAlt(g, r, s);
    Advance(g, PushRest(g, [], Pos(r, s))) + if n < |g[r]| then InitFrom(g, r, n) else []
  }

  lemma StartContinues(g: Rules, r: nat, s: nat)
    requires WellFormed(g) && AltStart(g, r, s)
    ensures Continues(g, Pos(r, s))
  {
    assert WellFormedRule(g[r]) && Fits(g[r], s);
  }

  ghost predicate RuleLangFrom(g: Rules, r: nat, s: nat, w: Word) {
    exists t: nat :: s <= t && AltStart(g, r, t) && Lang(g, g[r][t..], w)
  }

  lemma {:induction false} InitFromLang(g: Rules, r: nat, s: nat, w: Word)
    requires WellFormed(g) && NoLeftRecursion(g) && AltStart(g, r, s)
    ensures StacksLang(g, InitFrom(g, r, s), w) <==> RuleLangFrom(g, r, s, w)
    decreases |g[r]| - s
  {
    hide IsTree, NoLeftRecursion;
    StartContinues(g, r, s);
    var st := PushRest(g, [], Pos(r, s));
    AdvanceLang(g, st, w);
    if StackLang(g, st, w) {
      var u, v := PushRestElim(g, [], Pos(r, s), w);
      assert w == u;
    }
    if Lang(g, g[r][s..], w) {
      PushRestIntro(g, [], Pos(r, s), w, []);
      assert w + [] == w;
    }
    var n := NextAlt(g, r, s);
    assert RuleLangFrom(g, r, s, w) <==> Lang(g, g[r][s..], w) || RuleLangFrom(g, r, n, w);
    var rest := if n < |g[r]| then InitFrom(g, r, n) else [];
    if n < |g[r]| {
      InitFromLang(g, r, n, w);
    }
    StacksLangConcat(g, Advance(g, st), rest, w);
  }

  /** The recogniser started on a rule and fed with `cs` goes on with exactly the words that
      complete `cs` to a word of the rule. */
  lemma RecogniserCorrect(g: Rules, start: nat, cs: Word, w: Word)
    requires WellFormed(g) && NoLeftRecursion(g) && start < |g|
    ensures WellFormedRule(g[start])
    ensures StacksLang(g, Run(g, InitFrom(g, start, 0), cs), w) <==> RuleLang(g, start, cs + w)
  {
    assert WellFormedRule(g[start]);
    RunLang(g, InitFrom(g, start, 0), cs, w);
    InitFromLang(g, start, 0, cs + w);
  }

  /** A word belongs to the start rule exactly when reading it leaves an empty stack. */
  lemma EmptyStackIffWord(g: Rules, start: nat, cs: Word)
    requires WellFormed(g) && NoLeftRecursion(g) && start < |g|
    ensures WellFormedRule(g[start])
    ensures [] in Run(g, InitFrom(g, start, 0), cs) <==> RuleLang(g, start, cs)
  {
    RecogniserCorrect(g, start, cs, []);
    assert cs + [] == cs;
    var sts := Run(g, InitFrom(g, start, 0), cs);
    if [] in sts {
      var i :| 0 <= i < |sts| && sts[i] == [];
      assert StackLang(g, sts[i], []);
    }
    if StacksLang(g, sts, []) {
      var i :| 0 <= i < |sts| && StackLang(g, sts[i], []);
      WaitingNotNullable(g, sts[i]);
    }
  }

  lemma WaitingNotNullable(g: Rules, st: Stack)
    requires Waiting(g, st) && StackLang(g, st, [])
    ensures st == []
  {
    if st != [] {
      var u: Word, v: Word :| Cat([], u, v) && Lang(g, From(g, Top(st)), u) && StackLang(g, Pop(st), v);
      LangClass(g, From(g, Top(st)), u);
    }
  }

  // ----- partial characters

  /** A UTF-8 sequence cut short: the bits read so far and how many bytes are missing
      (negative after an invalid sequence). */
  datatype Partial = Partial(value: nat, remain: int)

  function Shift(n: nat): nat {
    if n == 0 then 1 else 64 * Shift(n - 1)
  }

  /** The lowest and highest code points that the sequence can be completed to. */
  function Low(p: Partial): nat
    requires p.remain >= 0
  {
    var low := p.value * Shift(p.remain);
    if low != 0 then low
    else if p.remain == 2 then 0x800
    else if p.remain == 3 then 0x10000
    else 0
  }

  function High(p: Partial): int
    requires p.remain >= 0
  {
    p.value * Shift(p.remain) + Shift(p.remain) - 1
  }

  predicate ItemMeets(es: seq<Elem>, low: int, high: int)
    requires |es| > 0 && IsCharElem(es[0])
  {
    if ItemLen(es) == 2 then es[0].c <= high && low <= es[1].c else low <= es[0].c <= high
  }

  predicate ItemsMeet(es: seq<Elem>, low: int, high: int)
    requires |es| > 0 && IsCharElem(es[0])
  {
    var n := ItemLen(es);
    ItemMeets(es, low, high) || (n < |es| && es[n].CharAlt? && ItemsMeet(es[n..], low, high))
  }

  predicate MatchPartial(es: seq<Elem>, p: Partial)
    requires |es| > 0 && IsClassStart(es[0])
  {
    if p.remain < 0 || (p.remain == 1 && p.value < 2) then false
    else ItemsMeet(es, Low(p), High(p)) == es[0].Char?
  }

  /** No character can complete the cut sequence. */
  predicate Dead(p: Partial) {
    p.remain < 0 || (p.remain == 1 && p.value < 2)
  }

  /** A range of the class at the head is written upside down, with both ends in the interval. */
  predicate Crossed(es: seq<Elem>, low: int, high: int)
    requires |es| > 0 && IsCharElem(es[0])
  {
    var n := ItemLen(es);
    (n == 2 && low <= es[1].c < es[0].c <= high) || (n < |es| && es[n].CharAlt? && Crossed(es[n..], low, high))
  }

  /** Some code point of the interval is listed in the class at the head. */
  ghost predicate ListsSome(es: seq<Elem>, low: nat, high: int)
    requires |es| > 0 && IsCharElem(es[0])
  {
    exists c: nat {:trigger ItemsHave(es, c)} :: low <= c <= high && ItemsHave(es, c)
  }

  lemma {:induction false} ItemsMeetIff(es: seq<Elem>, low: nat, high: int)
    requires |es| > 0 && IsCharElem(es[0]) && low <= high
    ensures ItemsMeet(es, low, high) <==> ListsSome(es, low, high) || Crossed(es, low, high)
    decreases |es|
  {
    var n := ItemLen(es);
    var more := n < |es| && es[n].CharAlt?;
    if more {
      ItemsMeetIff(es[n..], low, high);
    }
    if ListsSome(es, low, high) {
      var c: nat :| low <= c <= high && ItemsHave(es, c);
      if !ItemHas(es, c) {
        assert ItemsHave(es[n..], c);
      }
    }
    if ItemMeets(es, low, high) {
      if n == 1 || es[0].c <= es[1].c {
        var c: nat := if es[0].c < low then low else es[0].c;
        assert ItemsHave(es, c);
      }
    } else if more && ListsSome(es[n..], low, high) {
      var c: nat :| low <= c <= high && ItemsHave(es[n..], c);
      assert ItemsHave(es, c);
    }
  }

  lemma {:induction false} ShiftPositive(n: nat)
    ensures Shift(n) > 0
  {
    if n > 0 {
      ShiftPositive(n - 1);
    }
  }

  /** A cut sequence that can be completed has an interval of completions. */
  lemma Completions(p: Partial)
    requires !Dead(p)
    ensures Low(p) <= High(p)
  {
    ShiftPositive(p.remain);
    if p.value == 0 {
      assert Shift(2) == 64 * Shift(1) == 4096;
      assert Shift(3) == 64 * Shift(2);
    }
  }

  /** What passing `match_partial_char` means. For a regular class: some completion belongs to it, or a
      range that is written upside down has both ends among the completions. For a negated one: every
      completion belongs to it, and there is no such range. */
  lemma MatchPartialMeaning(es: seq<Elem>, p: Partial)
    requires |es| > 0 && IsClassStart(es[0])
    ensures Dead(p) ==> !MatchPartial(es, p)
    ensures !Dead(p) && es[0].Char? ==>
              (MatchPartial(es, p) <==>
               (exists c: nat :: Low(p) <= c <= High(p) && ClassHas(es, c)) || Crossed(es, Low(p), High(p)))
    ensures !Dead(p) && es[0].CharNot? ==>
              (MatchPartial(es, p) <==>
               (forall c: nat :: Low(p) <= c <= High(p) ==> ClassHas(es, c)) && !Crossed(es, Low(p), High(p)))
  {
    hide Low, High, ItemsMeet, ItemsHave, Crossed;
    if !Dead(p) {
      Completions(p);
      ItemsMeetIff(es, Low(p), High(p));
      if ListsSome(es, Low(p), High(p)) {
        var c: nat :| Low(p) <= c <= High(p) && ItemsHave(es, c);
        assert ClassHas(es, c) == es[0].Char?;
      }
    }
  }

  /** Some completion of the cut sequence belongs to the class. */
  ghost predicate SomeFits(es: seq<Elem>, p: Partial)
    requires |es| > 0 && IsClassStart(es[0]) && p.remain >= 0
  {
    exists c: nat :: Low(p) <= c <= High(p) && ClassHas(es, c)
  }

  ghost predicate ListsAll(es: seq<Elem>, low: nat, high: int)
    requires |es| > 0 && IsCharElem(es[0])
  {
    forall c: nat {:trigger ItemsHave(es, c)} :: low <= c <= high ==> ItemsHave(es, c)
  }

  /** A negated class is tested for "some completion belongs to it" exactly when no item of the class
      meets the completions, or the items list them all. */
  lemma NegatedPartialIff(es: seq<Elem>, p: Partial)
    requires |es| > 0 && es[0].CharNot? && !Dead(p)
    ensures (MatchPartial(es, p) <==> SomeFits(es, p)) <==>
            !ItemsMeet(es, Low(p), High(p)) || ListsAll(es, Low(p), High(p))
  {
    hide Low, High, ItemsMeet, ItemsHave, Crossed;
    Completions(p);
    ItemsMeetIff(es, Low(p), High(p));
    assert MatchPartial(es, p) <==> !ItemsMeet(es, Low(p), High(p));
    assert SomeFits(es, p) <==> !ListsAll(es, Low(p), High(p)) by {
      if SomeFits(es, p) {
        var c: nat :| Low(p) <= c <= High(p) && ClassHas(es, c);
        assert !ItemsHave(es, c);
      } else {
        forall c: nat | Low(p) <= c <= High(p)
          ensures ItemsHave(es, c)
        {
          assert !ClassHas(es, c);
        }
      }
    }
    if ListsAll(es, Low(p), High(p)) {
      assert ItemsHave(es, Low(p));
    }
  }

  /** A class such as [\u00FF-\u00C0] passes the first byte of U+00C0 to U+00FF, and contains nothing. */
  lemma CrossedRangePasses(c: nat)
    ensures var es := [Char(0xFF), RngUpper(0xC0), End]; MatchPartial(es, Partial(3, 1)) && !ClassHas(es, c)
  {
    var es := [Char(0xFF), RngUpper(0xC0), End];
    assert Shift(1) == 64;
    assert ItemMeets(es, Low(Partial(3, 1)), High(Partial(3, 1)));
  }

  /** For a negated class the test is not "some completion belongs to the class": the class of
      everything but U+00E9 rejects the first byte of a two-byte sequence that can still
      become U+00E8. */
  lemma NegatedPartialTooStrict()
    ensures var es := [CharNot(0xE9), End]; var p := Partial(3, 1);
            !MatchPartial(es, p) && Low(p) <= 0xE8 <= High(p) && ClassHas(es, 0xE8)
  {
    var es := [CharNot(0xE9), End];
    assert Shift(1) == 64;
    assert ItemMeets(es, Low(Partial(3, 1)), High(Partial(3, 1)));
  }

  // ----- the token filter

  /** A token under test: the code points of its text with the terminating 0, and how far they
      have been read. */
  datatype Candidate = Candidate(id: int, text: Word, at: nat, partial: Partial)

  predicate Terminated(c: Candidate) {
    c.at < |c.text| && c.text[|c.text| - 1] == 0
  }

  /** All candidates have read at least `lo` code points and have at most `h` left. */
  predicate Bounded(cands: seq<Candidate>, lo: nat, h: nat) {
    forall i :: 0 <= i < |cands| ==>
      Terminated(cands[i]) && lo <= cands[i].at && |cands[i].text| - cands[i].at <= h
  }

  /** The code points still to be read: everything before the next 0. */
  function Unread(text: Word, at: nat): Word
    requires at < |text| && text[|text| - 1] == 0
    decreases |text| - at
  {
    if text[at] == 0 then [] else [text[at]] + Unread(text, at + 1)
  }

  datatype Verdict = Kept | Rejected | ReadOn

  /** What one stack has to say about a candidate at once. */
  function Judge(g: Rules, st: Stack, c: Candidate): Verdict
    requires WellFormed(g) && Waiting(g, st) && Terminated(c)
  {
    var chr := c.text[c.at];
    if st == [] then
      if chr != 0 || c.partial.remain != 0 then Rejected else Kept
    else if chr == 0 then
      if c.partial.remain != 0 && !MatchPartial(From(g, Top(st)), c.partial) then Rejected else Kept
    else if ClassHas(From(g, Top(st)), chr) then ReadOn
    else Rejected
  }

  function RejectedNow(g: Rules, st: Stack, cands: seq<Candidate>, ghost lo: nat, ghost h: nat): (r: seq<Candidate>)
    requires WellFormed(g) && Waiting(g, st) && Bounded(cands, lo, h)
    ensures Bounded(r, lo, h)
  {
    if cands == [] then [] else
      assert Terminated(cands[0]);
      var rest := RejectedNow(g, st, cands[1..], lo, h);
      if Judge(g, st, cands[0]) == Rejected then [cands[0]] + rest else rest
  }

  function Fwd(c: Candidate): Candidate {
    c.(at := c.at + 1)
  }

  /** The candidates to be read on, each past its next code point. */
  function NextCandidates(g: Rules, st: Stack, cands: seq<Candidate>, ghost lo: nat, ghost h: nat): (r: seq<Candidate>)
    requires WellFormed(g) && Waiting(g, st) && Bounded(cands, lo, h) && h > 0
    ensures Bounded(r, lo + 1, h - 1)
  {
    if cands == [] then [] else
      assert Terminated(cands[0]);
      var rest := NextCandidates(g, st, cands[1..], lo, h);
      if Judge(g, st, cands[0]) == ReadOn then [Fwd(cands[0])] + rest else rest
  }

  /** Every candidate one code point back. */
  function StepBack(cands: seq<Candidate>, ghost lo: nat, ghost h: nat): (r: seq<Candidate>)
    requires Bounded(cands, lo + 1, h)
    ensures Bounded(r, lo, h + 1)
  {
    if cands == [] then [] else
      assert Terminated(cands[0]) && lo + 1 <= cands[0].at;
      [cands[0].(at := cands[0].at - 1)] + StepBack(cands[1..], lo, h)
  }

  function RejectForStack(g: Rules, st: Stack, cands: seq<Candidate>, ghost lo: nat, ghost h: nat): (r: seq<Candidate>)
    requires WellFormed(g) && NoLeftRecursion(g) && Waiting(g, st) && Bounded(cands, lo, h)
    ensures Bounded(r, lo, h)
    decreases h, 0, 0
  {
    var now := RejectedNow(g, st, cands, lo, h);
    if st == [] || cands == [] then now else
      AdvanceWaits(g, Matched(g, st));
      assert Terminated(cands[0]);
      var next := NextCandidates(g, st, cands, lo, h);
      now + StepBack(Reject(g, Advance(g, Matched(g, st)), next, lo + 1, h - 1), lo, h - 1)
  }

  function Reject(g: Rules, sts: seq<Stack>, cands: seq<Candidate>, ghost lo: nat, ghost h: nat): (r: seq<Candidate>)
    requires WellFormed(g) && NoLeftRecursion(g) && AllWaiting(g, sts) && Bounded(cands, lo, h)
    ensures Bounded(r, lo, h)
    decreases h, 2, 0
  {
    if cands == [] || sts == [] then [] else RejectRest(g, sts, cands, lo, h)
  }

  /** The loop over the stacks: every stack only looks at what the ones before it rejected. */
  function RejectRest(g: Rules, sts: seq<Stack>, cands: seq<Candidate>, ghost lo: nat,
                      ghost h: nat): (r: seq<Candidate>)
    requires WellFormed(g) && NoLeftRecursion(g) && AllWaiting(g, sts) && Bounded(cands, lo, h)
    ensures Bounded(r, lo, h)
    decreases h, 1, |sts|
  {
    if sts == [] then cands else
      assert Waiting(g, sts[0]);
      RejectRest(g, sts[1..], RejectForStack(g, sts[0], cands, lo, h), lo, h)
  }

  // ----- the filter predicts the recogniser

  /** The stacks after reading the rest of a candidate leave room for it. */
  ghost predicate Alive(g: Rules, sts: seq<Stack>, partial: Partial)
    requires AllWaiting(g, sts)
  {
    if partial.remain == 0 then sts != []
    else exists i :: 0 <= i < |sts| && sts[i] != [] && Waiting(g, sts[i]) && MatchPartial(From(g, Top(sts[i])), partial)
  }

  ghost predicate Passes(g: Rules, sts: seq<Stack>, c: Candidate)
    requires WellFormed(g) && NoLeftRecursion(g) && AllWaiting(g, sts) && Terminated(c)
  {
    Alive(g, Run(g, sts, Unread(c.text, c.at)), c.partial)
  }

  lemma {:induction false} AcceptConcat(g: Rules, a: seq<Stack>, b: seq<Stack>, chr: nat)
    requires WellFormed(g) && NoLeftRecursion(g) && AllWaiting(g, a) && AllWaiting(g, b)
    ensures AllWaiting(g, a + b)
    ensures Accept(g, a + b, chr) == Accept(g, a, chr) + Accept(g, b, chr)
  {
    hide NoLeftRecursion, WellFormed, AcceptOne, Waiting;
    if a == [] {
      assert a + b == b;
    } else {
      AcceptConcat(g, a[1..], b, chr);
      assert (a + b)[1..] == a[1..] + b;
    }
  }

  lemma {:induction false} RunConcat(g: Rules, a: seq<Stack>, b: seq<Stack>, cs: Word)
    requires WellFormed(g) && NoLeftRecursion(g) && AllWaiting(g, a) && AllWaiting(g, b)
    ensures AllWaiting(g, a + b)
    ensures Run(g, a + b, cs) == Run(g, a, cs) + Run(g, b, cs)
    decreases |cs|
  {
    if cs != [] {
      AcceptConcat(g, a, b, cs[0]);
      RunConcat(g, Accept(g, a, cs[0]), Accept(g, b, cs[0]), cs[1..]);
    }
  }

  lemma PassesConcat(g: Rules, a: seq<Stack>, b: seq<Stack>, c: Candidate)
    requires WellFormed(g) && NoLeftRecursion(g) && AllWaiting(g, a) && AllWaiting(g, b) && Terminated(c)
    ensures AllWaiting(g, a + b)
    ensures Passes(g, a + b, c) <==> Passes(g, a, c) || Passes(g, b, c)
  {
    hide NoLeftRecursion, WellFormed, Run, MatchPartial, Unread;
    var cs := Unread(c.text, c.at);
    RunConcat(g, a, b, cs);
    var ra, rb := Run(g, a, cs), Run(g, b, cs);
    assert forall i :: 0 <= i < |ra| ==> (ra + rb)[i] == ra[i];
    assert forall i :: 0 <= i < |rb| ==> (ra + rb)[|ra| + i] == rb[i];
  }

  lemma RunEmpty(g: Rules, cs: Word)
    requires WellFormed(g) && NoLeftRecursion(g)
    ensures Run(g, [], cs) == []
    decreases |cs|
  {
    if cs != [] {
      RunEmpty(g, cs[1..]);
    }
  }

  /** What a stack says at once agrees with reading the whole candidate. */
  lemma JudgePasses(g: Rules, st: Stack, c: Candidate)
    requires WellFormed(g) && NoLeftRecursion(g) && Waiting(g, st) && Terminated(c)
    ensures AllWaiting(g, [st])
    ensures Judge(g, st, c) == Rejected ==> !Passes(g, [st], c)
    ensures Judge(g, st, c) == Kept ==> Passes(g, [st], c)
    ensures Judge(g, st, c) == ReadOn ==>
              st != [] && Terminated(Fwd(c)) && AllWaiting(g, Advance(g, Matched(g, st))) &&
              (Passes(g, [st], c) <==> Passes(g, Advance(g, Matched(g, st)), Fwd(c)))
  {
    hide NoLeftRecursion, WellFormed, ClassHas, MatchPartial, Matched, Advance;
    var chr := c.text[c.at];
    if chr == 0 {
      assert Run(g, [st], Unread(c.text, c.at)) == [st];
      assert [st][0] == st;
    } else {
      var cs := Unread(c.text, c.at);
      assert cs[0] == chr && cs[1..] == Unread(c.text, c.at + 1);
      assert [st][1..] == [];
      assert Accept(g, [st], chr) == AcceptOne(g, st, chr);
      if st != [] && ClassHas(From(g, Top(st)), chr) {
        AdvanceWaits(g, Matched(g, st));
      } else {
        RunEmpty(g, cs[1..]);
      }
    }
  }

  lemma CountConcat(a: seq<Candidate>, b: seq<Candidate>, c: Candidate)
    ensures multiset(a + b)[c] == multiset(a)[c] + multiset(b)[c]
  {
  }

  lemma CountCons(x: Candidate, s: seq<Candidate>, c: Candidate)
    ensures multiset([x] + s)[c] == (if x == c then 1 else 0) + multiset(s)[c]
  {
  }

  lemma {:induction false} RejectedNowCount(g: Rules, st: Stack, cands: seq<Candidate>, lo: nat, h: nat, c: Candidate)
    requires WellFormed(g) && Waiting(g, st) && Bounded(cands, lo, h) && Terminated(c)
    ensures multiset(RejectedNow(g, st, cands, lo, h))[c] ==
            if Judge(g, st, c) == Rejected then multiset(cands)[c] else 0
  {
    if cands != [] {
      hide NoLeftRecursion, WellFormed, Waiting, Judge;
      var rest := cands[1..];
      assert cands == [cands[0]] + rest;
      CountCons(cands[0], rest, c);
      CountCons(cands[0], RejectedNow(g, st, rest, lo, h), c);
      RejectedNowCount(g, st, rest, lo, h, c);
    }
  }

  lemma {:induction false} NextCount(g: Rules, st: Stack, cands: seq<Candidate>, lo: nat, h: nat, c: Candidate)
    requires WellFormed(g) && Waiting(g, st) && Bounded(cands, lo, h) && h > 0 && Terminated(c)
    ensures multiset(NextCandidates(g, st, cands, lo, h))[Fwd(c)] ==
            if Judge(g, st, c) == ReadOn then multiset(cands)[c] else 0
  {
    if cands != [] {
      hide NoLeftRecursion, WellFormed, Waiting, Judge;
      var rest := cands[1..];
      assert cands == [cands[0]] + rest;
      assert Fwd(cands[0]) == Fwd(c) ==> cands[0] == c;
      CountCons(cands[0], rest, c);
      CountCons(Fwd(cands[0]), NextCandidates(g, st, rest, lo, h), Fwd(c));
      NextCount(g, st, rest, lo, h, c);
    }
  }

  lemma {:induction false} StepBackCount(cands: seq<Candidate>, lo: nat, h: nat, c: Candidate)
    requires Bounded(cands, lo + 1, h)
    ensures multiset(StepBack(cands, lo, h))[c] == multiset(cands)[Fwd(c)]
  {
    if cands != [] {
      var x, rest := cands[0], cands[1..];
      assert cands == [x] + rest && Terminated(x) && lo + 1 <= x.at;
      var back := StepBack(rest, lo, h);
      assert StepBack(cands, lo, h) == [x.(at := x.at - 1)] + back;
      CountCons(x, rest, Fwd(c));
      CountCons(x.(at := x.at - 1), back, c);
      StepBackCount(rest, lo, h, c);
    }
  }

  lemma {:induction false} RejectForStackCount(g: Rules, st: Stack, cands: seq<Candidate>, lo: nat, h: nat,
                                               c: Candidate)
    requires WellFormed(g) && NoLeftRecursion(g) && Waiting(g, st) && Bounded(cands, lo, h) && Terminated(c)
    ensures AllWaiting(g, [st])
    ensures multiset(RejectForStack(g, st, cands, lo, h))[c] == if Passes(g, [st], c) then 0 else multiset(cands)[c]
    decreases h, 0, 0
  {
    hide NoLeftRecursion, WellFormed, Waiting, Judge, Passes, Matched, RejectedNow, NextCandidates, Reject;
    JudgePasses(g, st, c);
    RejectedNowCount(g, st, cands, lo, h, c);
    if st != [] && cands != [] {
      hide RejectForStack;
      RejectForStackSum(g, st, cands, lo, h, c);
      var next := NextCandidates(g, st, cands, lo, h);
      var sts := Advance(g, Matched(g, st));
      NextCount(g, st, cands, lo, h, c);
      if Terminated(Fwd(c)) {
        RejectCount(g, sts, next, lo + 1, h - 1, Fwd(c));
      } else {
        assert Fwd(c) !in Reject(g, sts, next, lo + 1, h - 1);
      }
    }
  }

  lemma BoundedLeft(cands: seq<Candidate>, lo: nat, h: nat)
    requires Bounded(cands, lo, h) && cands != []
    ensures h > 0
  {
    assert Terminated(cands[0]);
  }

  /** A stack rejects a candidate now, or through the stacks that come after its next code point. */
  lemma RejectForStackSum(g: Rules, st: Stack, cands: seq<Candidate>, lo: nat, h: nat, c: Candidate)
    requires WellFormed(g) && NoLeftRecursion(g) && Waiting(g, st) && Bounded(cands, lo, h) && st != [] && cands != []
    ensures h > 0 && AllWaiting(g, Advance(g, Matched(g, st))) && Advance(g, Matched(g, st)) != []
    ensures multiset(RejectForStack(g, st, cands, lo, h))[c] ==
            multiset(RejectedNow(g, st, cands, lo, h))[c] +
            multiset(Reject(g, Advance(g, Matched(g, st)), NextCandidates(g, st, cands, lo, h), lo + 1, h - 1))[Fwd(c)]
  {
    hide NoLeftRecursion, WellFormed, Waiting, Matched, RejectedNow, NextCandidates, StepBack, Reject, Bounded;
    AdvanceWaits(g, Matched(g, st));
    BoundedLeft(cands, lo, h);
    var now := RejectedNow(g, st, cands, lo, h);
    var rejects := Reject(g, Advance(g, Matched(g, st)), NextCandidates(g, st, cands, lo, h), lo + 1, h - 1);
    var back := StepBack(rejects, lo, h - 1);
    assert RejectForStack(g, st, cands, lo, h) == now + back;
    CountConcat(now, back, c);
    StepBackCount(rejects, lo, h - 1, c);
  }

  /** The filter rejects exactly the candidates after which the recogniser is stuck, each as often
      as it was given, and whatever the order of the stacks. */
  lemma {:induction false} RejectCount(g: Rules, sts: seq<Stack>, cands: seq<Candidate>, lo: nat, h: nat, c: Candidate)
    requires WellFormed(g) && NoLeftRecursion(g) && AllWaiting(g, sts) && Bounded(cands, lo, h) && Terminated(c)
    requires sts != []
    ensures multiset(Reject(g, sts, cands, lo, h))[c] == if Passes(g, sts, c) then 0 else multiset(cands)[c]
    decreases h, 2, 0
  {
    if cands != [] {
      RejectRestCount(g, sts, cands, lo, h, c);
    }
  }

  lemma {:induction false} RejectRestCount(g: Rules, sts: seq<Stack>, cands: seq<Candidate>, lo: nat, h: nat,
                                           c: Candidate)
    requires WellFormed(g) && NoLeftRecursion(g) && AllWaiting(g, sts) && Bounded(cands, lo, h) && Terminated(c)
    ensures multiset(RejectRest(g, sts, cands, lo, h))[c] == if Passes(g, sts, c) then 0 else multiset(cands)[c]
    decreases h, 1, |sts|
  {
    if sts == [] {
      RunEmpty(g, Unread(c.text, c.at));
    } else {
      assert Waiting(g, sts[0]);
      RejectForStackCount(g, sts[0], cands, lo, h, c);
      RejectRestCount(g, sts[1..], RejectForStack(g, sts[0], cands, lo, h), lo, h, c);
      PassesConcat(g, [sts[0]], sts[1..], c);
      assert [sts[0]] + sts[1..] == sts;
    }
  }

  /** A candidate passes a list of stacks exactly when it passes one of them. */
  lemma {:induction false} PassesAny(g: Rules, sts: seq<Stack>, c: Candidate)
    requires WellFormed(g) && NoLeftRecursion(g) && AllWaiting(g, sts) && Terminated(c)
    ensures Passes(g, sts, c) <==> exists st :: st in sts && Waiting(g, st) && Passes(g, [st], c)
  {
    hide NoLeftRecursion, WellFormed;
    if sts == [] {
      RunEmpty(g, Unread(c.text, c.at));
    } else {
      hide Passes, Waiting;
      assert Waiting(g, sts[0]);
      assert sts == [sts[0]] + sts[1..];
      PassesConcat(g, [sts[0]], sts[1..], c);
      PassesAny(g, sts[1..], c);
      assert forall st :: st in sts <==> st == sts[0] || st in sts[1..];
    }
  }

  /** The order of the stacks does not matter to the filter. */
  lemma RejectOrderFree(g: Rules, a: seq<Stack>, b: seq<Stack>, cands: seq<Candidate>, lo: nat, h: nat)
    requires WellFormed(g) && NoLeftRecursion(g) && AllWaiting(g, a) && AllWaiting(g, b)
    requires Bounded(cands, lo, h) && multiset(a) == multiset(b)
    ensures multiset(Reject(g, a, cands, lo, h)) == multiset(Reject(g, b, cands, lo, h))
  {
    hide NoLeftRecursion, WellFormed, Passes, Waiting;
    assert forall st :: st in a <==> st in multiset(a);
    assert forall st :: st in b <==> st in multiset(b);
    assert |a| == |multiset(a)| == |b|;
    if a != [] {
      var ra, rb := Reject(g, a, cands, lo, h), Reject(g, b, cands, lo, h);
      forall c: Candidate
        ensures multiset(ra)[c] == multiset(rb)[c]
      {
        if Terminated(c) {
          RejectCount(g, a, cands, lo, h, c);
          RejectCount(g, b, cands, lo, h, c);
          PassesAny(g, a, c);
          PassesAny(g, b, c);
        } else {
          assert c !in ra && c !in rb;
        }
      }
    }
  }
}
