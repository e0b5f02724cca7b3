/** The nondeterministic pushdown recogniser of the grammar engine. */
module GrammarEngine {
  import opened Seqs
  import opened GrammarRules

  /** A position is the pointer of the engine: a rule and an index into it. */
  datatype Pos = Pos(rule: nat, idx: nat)

  /** A pushdown stack; the top is the last element. */
  type Stack = seq<Pos>

  predicate InRange(g: Rules, p: Pos) {
    p.rule < |g| && p.idx < |g[p.rule]|
  }

  function At(g: Rules, p: Pos): Elem
    requires InRange(g, p)
  {
    g[p.rule][p.idx]
  }

  function From(g: Rules, p: Pos): seq<Elem>
    requires InRange(g, p)
  {
    g[p.rule][p.idx..]
  }

  /** Stacks are only ever left on a rule reference or at the start of a character class. */
  predicate ValidPos(g: Rules, p: Pos) {
    InRange(g, p) && (At(g, p).RuleRef? || IsClassStart(At(g, p)))
  }

  predicate ValidStack(g: Rules, st: Stack) {
    forall i :: 0 <= i < |st| ==> ValidPos(g, st[i])
  }

  /** An advanced stack is empty or waits for a character. */
  predicate Waiting(g: Rules, st: Stack) {
    ValidStack(g, st) && (st != [] ==> IsClassStart(At(g, Top(st))))
  }

  predicate AllWaiting(g: Rules, sts: seq<Stack>) {
    forall i :: 0 <= i < |sts| ==> Waiting(g, sts[i])
  }

  function Top(st: Stack): Pos
    requires st != []
  {
    st[|st| - 1]
  }

  function Pop(st: Stack): Stack
    requires st != []
  {
    st[..|st| - 1]
  }

  /** Push the rest of a sequence, unless nothing is left of it. */
  function PushRest(g: Rules, st: Stack, p: Pos): (r: Stack)
    requires InRange(g, p)
    ensures ValidStack(g, st) && (IsEnd(At(g, p)) || ValidPos(g, p)) ==> ValidStack(g, r)
  {
    if IsEnd(At(g, p)) then st else st + [p]
  }

  /** The language of a stack: the top first, then what is below it. */
  ghost predicate StackLang(g: Rules, st: Stack, w: Word) {
    if st == [] then w == []
    else InRange(g, Top(st)) && exists u: Word, v: Word {:trigger Cat(w, u, v)} ::
        Cat(w, u, v) && Lang(g, From(g, Top(st)), u) && StackLang(g, Pop(st), v)
  }

  lemma StackIntro(g: Rules, st: Stack, u: Word, v: Word)
    requires ValidStack(g, st) && st != [] && Lang(g, From(g, Top(st)), u) && StackLang(g, Pop(st), v)
    ensures StackLang(g, st, u + v)
  {
    assert Cat(u + v, u, v);
  }

  ghost predicate StacksLang(g: Rules, sts: seq<Stack>, w: Word) {
    exists i :: 0 <= i < |sts| && StackLang(g, sts[i], w)
  }

  // ----- left recursion

  /** Index `i` of rule `r` can be reached without consuming a character from the start of one
      of its alternatives. */
  ghost predicate LeftPos(g: Rules, r: nat, i: nat) {
    r < |g| && i < |g[r]| &&
    (AltStart(g, r, i) ||
     (i > 0 && LeftPos(g, r, i - 1) && g[r][i - 1].RuleRef? && RuleLang(g, g[r][i - 1].rule, [])))
  }

  ghost predicate LeftEdge(g: Rules, a: nat, b: nat) {
    exists i: nat :: LeftPos(g, a, i) && g[a][i] == RuleRef(b)
  }

  /** `path` follows left edges. */
  ghost predicate LeftPath(g: Rules, path: seq<nat>) {
    && |path| > 0
    && (forall i :: 0 <= i < |path| ==> path[i] < |g|)
    && (forall i :: 0 <= i < |path| - 1 ==> LeftEdge(g, path[i], path[i + 1]))
  }

  /** No rule reaches itself before a character has been consumed. */
  ghost predicate NoLeftRecursion(g: Rules) {
    forall path :: LeftPath(g, path) && |path| > 1 ==> path[0] != path[|path| - 1]
  }

  ghost predicate Ranks(g: Rules, rank: seq<nat>) {
    |rank| == |g| &&
    forall a, b :: 0 <= a < |g| && 0 <= b < |g| && LeftEdge(g, a, b) ==> rank[b] < rank[a]
  }

  // Without left recursion the longest left path from a rule ranks the rules.

  lemma {:induction false} DistinctBounded(s: seq<nat>, n: nat)
    requires forall i :: 0 <= i < |s| ==> s[i] < n
    requires forall i, j :: 0 <= i < j < |s| ==> s[i] != s[j]
    ensures |s| <= n
    decreases n
  {
    if s == [] {
    } else if n - 1 in s {
      var k :| 0 <= k < |s| && s[k] == n - 1;
      var t := s[..k] + s[k + 1..];
      forall i, j | 0 <= i < j < |t|
        ensures t[i] != t[j]
      {
        assert t[i] == s[if i < k then i else i + 1] && t[j] == s[if j < k then j else j + 1];
      }
      DistinctBounded(t, n - 1);
    } else {
      DistinctBounded(s, n - 1);
    }
  }

  lemma LeftPathBounded(g: Rules, path: seq<nat>)
    requires NoLeftRecursion(g) && LeftPath(g, path)
    ensures |path| <= |g|
  {
    forall i, j | 0 <= i < j < |path|
      ensures path[i] != path[j]
    {
      var cycle := path[i..j + 1];
      assert forall k :: 0 <= k < |cycle| ==> cycle[k] == path[i + k];
      assert LeftPath(g, cycle);
    }
    DistinctBounded(path, |g|);
  }

  ghost predicate HasPath(g: Rules, a: nat, len: nat) {
    exists path :: LeftPath(g, path) && path[0] == a && |path| == len
  }

  /** The number of rules on the longest left path from `a`, when it is at most `n`. */
  ghost function Longest(g: Rules, a: nat, n: nat): (m: nat)
    ensures m <= n
    ensures m > 0 ==> HasPath(g, a, m)
    ensures forall k :: m < k <= n ==> !HasPath(g, a, k)
  {
    if n == 0 || HasPath(g, a, n) then n else Longest(g, a, n - 1)
  }

  lemma LongestDecreases(g: Rules, a: nat, b: nat)
    requires NoLeftRecursion(g) && a < |g| && b < |g| && LeftEdge(g, a, b)
    ensures Longest(g, b, |g|) < Longest(g, a, |g|)
  {
    assert LeftPath(g, [b]);
    assert HasPath(g, b, 1);
    var m := Longest(g, b, |g|);
    var path :| LeftPath(g, path) && path[0] == b && |path| == m;
    var longer := [a] + path;
    assert LeftPath(g, longer) by {
      forall i | 0 <= i < |longer| - 1
        ensures LeftEdge(g, longer[i], longer[i + 1])
      {
        if i > 0 {
          assert longer[i] == path[i - 1] && longer[i + 1] == path[i];
        }
      }
    }
    LeftPathBounded(g, longer);
    assert HasPath(g, a, m + 1);
  }

  lemma RanksExist(g: Rules)
    requires NoLeftRecursion(g)
    ensures exists rank :: Ranks(g, rank)
  {
    var rank := seq(|g|, (a: nat) => Longest(g, a, |g|));
    forall a, b | 0 <= a < |g| && 0 <= b < |g| && LeftEdge(g, a, b)
      ensures rank[b] < rank[a]
    {
      LongestDecreases(g, a, b);
    }
    assert Ranks(g, rank);
  }

  ghost function Rank(g: Rules): (rank: seq<nat>)
    requires NoLeftRecursion(g)
    ensures Ranks(g, rank)
  {
    RanksExist(g);
    var rank :| Ranks(g, rank);
    rank
  }

  // ----- the termination measure of advancing a stack

  /** An upper bound for the references expanded before the sequence at `(r, i)` meets a character. */
  ghost function Cost(g: Rules, r: nat, i: nat): nat
    requires WellFormed(g) && NoLeftRecursion(g) && r < |g| && i < |g[r]|
    decreases if LeftPos(g, r, i) then 0 else 1,
              if LeftPos(g, r, i) then Rank(g)[r] else 0,
              |g[r]| - i
  {
    if g[r][i].RuleRef? then
      var b := g[r][i].rule;
      assert LeftPos(g, r, i) ==> LeftEdge(g, r, b);
      1 + CostFrom(g, b, 0) + if RuleLang(g, b, []) then Cost(g, r, i + 1) else 0
    else 0
  }

  /** The sum of the costs of the alternatives of rule `r` that start at or after `s`. */
  ghost function CostFrom(g: Rules, r: nat, s: nat): nat
    requires WellFormed(g) && NoLeftRecursion(g) && r < |g| && s <= |g[r]|
    decreases 0, Rank(g)[r], |g[r]| + 1 - s
  {
    if s == |g[r]| then 0
    else (if AltStart(g, r, s) then Cost(g, r, s) else 0) + CostFrom(g, r, s + 1)
  }

  lemma {:induction false} CostFromBounds(g: Rules, r: nat, s: nat, t: nat)
    requires WellFormed(g) && NoLeftRecursion(g) && AltStart(g, r, t) && s <= t
    ensures Cost(g, r, t) <= CostFrom(g, r, s)
    decreases t - s
  {
    if s < t {
      CostFromBounds(g, r, s + 1, t);
    }
  }

  ghost function StackCost(g: Rules, st: Stack): nat
    requires WellFormed(g) && NoLeftRecursion(g) && ValidStack(g, st)
  {
    if st == [] then 0
    else Cost(g, Top(st).rule, Top(st).idx)
         + if Lang(g, From(g, Top(st)), []) then StackCost(g, Pop(st)) else 0
  }

  /** The stack that `advance_stack` goes on with after choosing alternative `s` of the rule on top. */
  function Expand(g: Rules, st: Stack, s: nat): (r: Stack)
    requires WellFormed(g) && OnRule(g, st) && AltStart(g, TopRule(g, st), s)
    ensures ValidStack(g, r)
  {
    var p := Top(st);
    ExpandValid(g, p, s);
    var st1 := PushRest(g, Pop(st), Pos(p.rule, p.idx + 1));
    PushRest(g, st1, Pos(At(g, p).rule, s))
  }

  lemma ExpandValid(g: Rules, p: Pos, s: nat)
    requires WellFormed(g) && ValidPos(g, p) && At(g, p).RuleRef? && AltStart(g, At(g, p).rule, s)
    ensures p.idx + 1 < |g[p.rule]|
    ensures var q := Pos(p.rule, p.idx + 1); IsEnd(At(g, q)) || ValidPos(g, q)
    ensures var q := Pos(At(g, p).rule, s); IsEnd(At(g, q)) || ValidPos(g, q)
  {
    assert WellFormedRule(g[p.rule]);
    assert Fits(g[p.rule], p.idx + 1);
    var r := At(g, p).rule;
    assert WellFormedRule(g[r]);
    assert Fits(g[r], s);
  }

  lemma NullableRef(g: Rules, p: Pos)
    requires WellFormed(g) && ValidPos(g, p) && At(g, p).RuleRef?
    requires p.idx + 1 < |g[p.rule]|
    ensures Lang(g, From(g, p), []) <==>
            RuleLang(g, At(g, p).rule, []) && Lang(g, From(g, Pos(p.rule, p.idx + 1)), [])
  {
    assert From(g, p)[1..] == From(g, Pos(p.rule, p.idx + 1));
    if Lang(g, From(g, p), []) {
      var s, u, v := LangRefElim(g, From(g, p), []);
      assert u == [] && v == [];
    }
    if RuleLang(g, At(g, p).rule, []) && Lang(g, From(g, Pos(p.rule, p.idx + 1)), []) {
      var s: nat :| AltStart(g, At(g, p).rule, s) && Lang(g, g[At(g, p).rule][s..], []);
      var e: Word := [];
      LangRefIntro(g, From(g, p), s, e, e);
      assert e + e == e;
    }
  }

  lemma PushRestCost(g: Rules, st: Stack, p: Pos)
    requires WellFormed(g) && NoLeftRecursion(g) && ValidStack(g, st)
    requires InRange(g, p) && (IsEnd(At(g, p)) || ValidPos(g, p))
    ensures ValidStack(g, PushRest(g, st, p))
    ensures StackCost(g, PushRest(g, st, p)) ==
            Cost(g, p.rule, p.idx) + if Lang(g, From(g, p), []) then StackCost(g, st) else 0
  {
    if IsEnd(At(g, p)) {
      LangEnd(g, From(g, p), []);
    } else {
      var st1 := PushRest(g, st, p);
      assert Top(st1) == p && Pop(st1) == st;
    }
  }

  lemma ExpandCost(g: Rules, st: Stack, s: nat)
    requires WellFormed(g) && NoLeftRecursion(g) && OnRule(g, st) && AltStart(g, TopRule(g, st), s)
    ensures StackCost(g, Expand(g, st, s)) < StackCost(g, st)
  {
    var p := Top(st);
    var q, a := Pos(p.rule, p.idx + 1), Pos(At(g, p).rule, s);
    ExpandValid(g, p, s);
    PushRestCost(g, Pop(st), q);
    PushRestCost(g, PushRest(g, Pop(st), q), a);
    NullableRef(g, p);
    CostFromBounds(g, a.rule, 0, s);
    assert Lang(g, From(g, a), []) ==> RuleLang(g, a.rule, []);
  }

  // ----- advancing a stack

  /** The index of the ALT or END that closes the alternative containing index `i`. */
  function ScanToEnd(rule: seq<Elem>, i: nat): (e: nat)
    requires WellFormedRule(rule) && i < |rule|
    ensures i <= e < |rule| && IsEnd(rule[e])
    ensures forall k :: i <= k < e ==> !IsEnd(rule[k])
    decreases |rule| - i
  {
    if IsEnd(rule[i]) then i else ScanToEnd(rule, i + 1)
  }

  /** The next alternative of rule `r` after the one at `s`, or the length of the rule. */
  function NextAlt(g: Rules, r: nat, s: nat): (n: nat)
    requires WellFormed(g) && AltStart(g, r, s)
    ensures s < n <= |g[r]|
    ensures n < |g[r]| ==> AltStart(g, r, n)
    ensures forall t: nat :: s < t < n ==> !AltStart(g, r, t)
  {
    var e := ScanToEnd(g[r], s);
    if g[r][e].Alt? then e + 1 else |g[r]|
  }

  /** The stack is not empty and has a reference to a rule on top. */
  predicate OnRule(g: Rules, st: Stack) {
    ValidStack(g, st) && st != [] && At(g, Top(st)).RuleRef?
  }

  function TopRule(g: Rules, st: Stack): nat
    requires OnRule(g, st)
  {
    At(g, Top(st)).rule
  }

  /** All stacks that wait for a character and that the given stack can turn into. */
  function Advance(g: Rules, st: Stack): (sts: seq<Stack>)
    requires WellFormed(g) && NoLeftRecursion(g) && ValidStack(g, st)
    decreases StackCost(g, st), 1, 0
  {
    if st == [] then [[]]
    else if At(g, Top(st)).RuleRef? then AdvanceFrom(g, st, 0)
    else [st]
  }

  /** The loop of `advance_stack` over the alternatives of the rule on top, from the one at `s`. */
  function AdvanceFrom(g: Rules, st: Stack, s: nat): (sts: seq<Stack>)
    requires WellFormed(g) && NoLeftRecursion(g) && OnRule(g, st) && AltStart(g, TopRule(g, st), s)
    decreases StackCost(g, st), 0, |g[TopRule(g, st)]| - s
  {
    ExpandCost(g, st, s);
    var n := NextAlt(g, TopRule(g, st), s);
    Advance(g, Expand(g, st, s)) + if n < |g[TopRule(g, st)]| then AdvanceFrom(g, st, n) else []
  }

  /** Advancing never gives up, and leaves every stack empty or waiting for a character. */
  lemma {:induction false} AdvanceWaits(g: Rules, st: Stack)
    requires WellFormed(g) && NoLeftRecursion(g) && ValidStack(g, st)
    ensures Advance(g, st) != [] && AllWaiting(g, Advance(g, st))
    decreases StackCost(g, st), 1, 0
  {
    if OnRule(g, st) {
      AdvanceFromWaits(g, st, 0);
    }
  }

  lemma {:induction false} AdvanceFromWaits(g: Rules, st: Stack, s: nat)
    requires WellFormed(g) && NoLeftRecursion(g) && OnRule(g, st) && AltStart(g, TopRule(g, st), s)
    ensures AdvanceFrom(g, st, s) != [] && AllWaiting(g, AdvanceFrom(g, st, s))
    decreases StackCost(g, st), 0, |g[TopRule(g, st)]| - s
  {
    ExpandCost(g, st, s);
    AdvanceWaits(g, Expand(g, st, s));
    var n := NextAlt(g, TopRule(g, st), s);
    if n < |g[TopRule(g, st)]| {
      AdvanceFromWaits(g, st, n);
    }
  }

  lemma PushRestElim(g: Rules, st: Stack, p: Pos, w: Word) returns (u: Word, v: Word)
    requires ValidStack(g, st) && InRange(g, p) && (IsEnd(At(g, p)) || ValidPos(g, p))
    requires StackLang(g, PushRest(g, st, p), w)
    ensures w == u + v && Lang(g, From(g, p), u) && StackLang(g, st, v)
  {
    if IsEnd(At(g, p)) {
      LangEnd(g, From(g, p), []);
      u, v := [], w;
    } else {
      var st1 := PushRest(g, st, p);
      assert Top(st1) == p && Pop(st1) == st;
      u, v :| Cat(w, u, v) && Lang(g, From(g, Top(st1)), u) && StackLang(g, Pop(st1), v);
    }
  }

  lemma PushRestIntro(g: Rules, st: Stack, p: Pos, u: Word, v: Word)
    requires ValidStack(g, st) && InRange(g, p) && (IsEnd(At(g, p)) || ValidPos(g, p))
    requires Lang(g, From(g, p), u) && StackLang(g, st, v)
    ensures ValidStack(g, PushRest(g, st, p)) && StackLang(g, PushRest(g, st, p), u + v)
  {
    if IsEnd(At(g, p)) {
      LangEnd(g, From(g, p), u);
      assert u + v == v;
    } else {
      var st1 := PushRest(g, st, p);
      assert Top(st1) == p && Pop(st1) == st;
      assert Cat(u + v, u, v);
    }
  }

  /** Some alternative of the rule on top, from the one at `s` on, lets the stack derive `w`. */
  ghost predicate ExpandsTo(g: Rules, st: Stack, s: nat, w: Word)
    requires WellFormed(g) && OnRule(g, st)
  {
    exists t: nat {:trigger AltStart(g, TopRule(g, st), t)} ::
      s <= t && AltStart(g, TopRule(g, st), t) && StackLang(g, Expand(g, st, t), w)
  }

  /** Choosing an alternative for the rule on top splits the language of the stack. */
  lemma ExpandLang(g: Rules, st: Stack, w: Word)
    requires WellFormed(g) && OnRule(g, st)
    ensures StackLang(g, st, w) <==> ExpandsTo(g, st, 0, w)
  {
    hide Lang, Expand;
    if StackLang(g, st, w) {
      var u: Word, v: Word :| Cat(w, u, v) && Lang(g, From(g, Top(st)), u) && StackLang(g, Pop(st), v);
      var s, u1, u2 := LangRefElim(g, From(g, Top(st)), u);
      ExpandIntro(g, st, s, u1, u2, v);
      assert w == u1 + (u2 + v);
    }
    if ExpandsTo(g, st, 0, w) {
      var s: nat :| 0 <= s && AltStart(g, TopRule(g, st), s) && StackLang(g, Expand(g, st, s), w);
      ExpandElim(g, st, s, w);
    }
  }

  lemma ExpandIntro(g: Rules, st: Stack, s: nat, u1: Word, u2: Word, v: Word)
    requires WellFormed(g) && OnRule(g, st) && AltStart(g, TopRule(g, st), s)
    requires Lang(g, g[TopRule(g, st)][s..], u1)
    requires Lang(g, From(g, Top(st))[1..], u2) && StackLang(g, Pop(st), v)
    ensures StackLang(g, Expand(g, st, s), u1 + (u2 + v))
  {
    var p := Top(st);
    var q := Pos(p.rule, p.idx + 1);
    ExpandValid(g, p, s);
    assert From(g, p)[1..] == From(g, q);
    PushRestIntro(g, Pop(st), q, u2, v);
    PushRestIntro(g, PushRest(g, Pop(st), q), Pos(At(g, p).rule, s), u1, u2 + v);
  }

  lemma ExpandElim(g: Rules, st: Stack, s: nat, w: Word)
    requires WellFormed(g) && OnRule(g, st) && AltStart(g, TopRule(g, st), s) && StackLang(g, Expand(g, st, s), w)
    ensures StackLang(g, st, w)
  {
    hide Lang, StackLang, WellFormed;
    var p := Top(st);
    var q := Pos(p.rule, p.idx + 1);
    ExpandValid(g, p, s);
    var u1, x := PushRestElim(g, PushRest(g, Pop(st), q), Pos(At(g, p).rule, s), w);
    var u2, v := PushRestElim(g, Pop(st), q, x);
    assert From(g, p)[1..] == From(g, q);
    LangRefIntro(g, From(g, p), s, u1, u2);
    StackIntro(g, st, u1 + u2, v);
    Assoc(u1, u2, v);
  }

  lemma StacksLangConcat(g: Rules, a: seq<Stack>, b: seq<Stack>, w: Word)
    ensures StacksLang(g, a + b, w) <==> StacksLang(g, a, w) || StacksLang(g, b, w)
  {
    if StacksLang(g, a, w) {
      var i :| 0 <= i < |a| && StackLang(g, a[i], w);
      assert (a + b)[i] == a[i];
    }
    if StacksLang(g, b, w) {
      var i :| 0 <= i < |b| && StackLang(g, b[i], w);
      assert (a + b)[|a| + i] == b[i];
    }
  }

  /** Advancing a stack keeps its language. */
  lemma {:induction false} AdvanceLang(g: Rules, st: Stack, w: Word)
    requires WellFormed(g) && NoLeftRecursion(g) && ValidStack(g, st)
    ensures StacksLang(g, Advance(g, st), w) <==> StackLang(g, st, w)
    decreases StackCost(g, st), 1, 0
  {
    if OnRule(g, st) {
      AdvanceFromLang(g, st, 0, w);
      ExpandLang(g, st, w);
    } else {
      assert Advance(g, st) == [st];
      assert Advance(g, st)[0] == st;
    }
  }

  lemma {:induction false} AdvanceFromLang(g: Rules, st: Stack, s: nat, w: Word)
    requires WellFormed(g) && NoLeftRecursion(g) && OnRule(g, st) && AltStart(g, TopRule(g, st), s)
    ensures StacksLang(g, AdvanceFrom(g, st, s), w) <==> ExpandsTo(g, st, s, w)
    decreases StackCost(g, st), 0, |g[TopRule(g, st)]| - s
  {
    hide StackLang, NoLeftRecursion, Expand;
    ExpandCost(g, st, s);
    AdvanceLang(g, Expand(g, st, s), w);
    var n := NextAlt(g, TopRule(g, st), s);
    ExpandsToNext(g, st, s, n, w);
    var rest := if n < |g[TopRule(g, st)]| then AdvanceFrom(g, st, n) else [];
    if n < |g[TopRule(g, st)]| {
      AdvanceFromLang(g, st, n, w);
    }
    StacksLangConcat(g, Advance(g, Expand(g, st, s)), rest, w);
  }

  lemma ExpandsToNext(g: Rules, st: Stack, s: nat, next: nat, w: Word)
    requires WellFormed(g) && OnRule(g, st) && AltStart(g, TopRule(g, st), s) && s < next
    requires forall t: nat :: s < t < next ==> !AltStart(g, TopRule(g, st), t)
    ensures ExpandsTo(g, st, s, w) <==> StackLang(g, Expand(g, st, s), w) || ExpandsTo(g, st, next, w)
  {
    if ExpandsTo(g, st, s, w) {
      var t: nat :| s <= t && AltStart(g, TopRule(g, st), t) && StackLang(g, Expand(g, st, t), w);
      if t != s {
        assert next <= t;
      }
    }
  }

  // ----- exactly when advancing terminates

  /** The recursion of `advance_stack` on `st` is at most `n` calls deep. */
  ghost predicate Halts(g: Rules, st: Stack, n: nat)
    requires WellFormed(g) && ValidStack(g, st)
    decreases n
  {
    OnRule(g, st) ==>
      n > 0 && forall s: nat :: AltStart(g, TopRule(g, st), s) ==> Halts(g, Expand(g, st, s), n - 1)
  }

  lemma HaltsExpand(g: Rules, st: Stack, s: nat, n: nat)
    requires WellFormed(g) && OnRule(g, st) && AltStart(g, TopRule(g, st), s) && Halts(g, st, n)
    ensures n > 0 && Halts(g, Expand(g, st, s), n - 1)
  {
  }

  ghost predicate Terminates(g: Rules, st: Stack)
    requires WellFormed(g) && ValidStack(g, st)
  {
    exists n: nat :: Halts(g, st, n)
  }

  lemma {:induction false} HaltsMonotone(g: Rules, st: Stack, n: nat, m: nat)
    requires WellFormed(g) && ValidStack(g, st) && Halts(g, st, n) && n <= m
    ensures Halts(g, st, m)
    decreases n
  {
    if OnRule(g, st) {
      forall s: nat | AltStart(g, TopRule(g, st), s)
        ensures Halts(g, Expand(g, st, s), m - 1)
      {
        HaltsMonotone(g, Expand(g, st, s), n - 1, m - 1);
      }
    }
  }

  lemma {:induction false} HaltsWithinCost(g: Rules, st: Stack)
    requires WellFormed(g) && NoLeftRecursion(g) && ValidStack(g, st)
    ensures Halts(g, st, StackCost(g, st))
    decreases StackCost(g, st)
  {
    if OnRule(g, st) {
      ExpandCost(g, st, 0);
      forall s: nat | AltStart(g, TopRule(g, st), s)
        ensures Halts(g, Expand(g, st, s), StackCost(g, st) - 1)
      {
        ExpandCost(g, st, s);
        HaltsWithinCost(g, Expand(g, st, s));
        HaltsMonotone(g, Expand(g, st, s), StackCost(g, Expand(g, st, s)), StackCost(g, st) - 1);
      }
    }
  }

  /** `p` is where a stack may go on, or an end that is never pushed. */
  predicate Continues(g: Rules, p: Pos) {
    InRange(g, p) && (IsEnd(At(g, p)) || ValidPos(g, p))
  }

  /** What a halting call pushes on a stack and derives nothing, it also takes off again. */
  lemma {:induction false} NullableHalts(g: Rules, st: Stack, p: Pos, t: Tree, n: nat)
    requires WellFormed(g) && ValidStack(g, st) && Continues(g, p)
    requires IsTree(g, From(g, p), t) && Yield(t) == []
    requires Halts(g, PushRest(g, st, p), n)
    ensures Halts(g, st, n)
    decreases t
  {
    if t.Call? {
      var st1 := PushRest(g, st, p);
      assert Top(st1) == p && Pop(st1) == st;
      ExpandValid(g, p, t.alt);
      var q := Pos(p.rule, p.idx + 1);
      assert From(g, p)[1..] == From(g, q);
      assert Halts(g, Expand(g, st1, t.alt), n - 1);
      NullableHalts(g, PushRest(g, st, q), Pos(TopRule(g, st1), t.alt), t.sub, n - 1);
      NullableHalts(g, st, q, t.rest, n - 1);
      HaltsMonotone(g, st, n - 1, n);
    }
  }

  lemma NextContinues(g: Rules, p: Pos)
    requires WellFormed(g) && ValidPos(g, p) && At(g, p).RuleRef?
    ensures Continues(g, Pos(p.rule, p.idx + 1))
  {
    assert WellFormedRule(g[p.rule]) && Fits(g[p.rule], p.idx + 1);
  }

  /** What a call on the rule on top leaves below the alternative that it pushes. */
  function Below(g: Rules, st: Stack): (r: Stack)
    requires WellFormed(g) && OnRule(g, st)
    ensures ValidStack(g, r)
  {
    NextContinues(g, Top(st));
    PushRest(g, Pop(st), Pos(Top(st).rule, Top(st).idx + 1))
  }

  /** A halting call on a rule reaches every left position of the rule, one call deeper. */
  lemma {:induction false} LeftPosHalts(g: Rules, st: Stack, i: nat, n: nat)
    requires WellFormed(g) && OnRule(g, st) && LeftPos(g, TopRule(g, st), i) && Halts(g, st, n)
    ensures Continues(g, Pos(TopRule(g, st), i)) && n > 0
    ensures Halts(g, PushRest(g, Below(g, st), Pos(TopRule(g, st), i)), n - 1)
    decreases i
  {
    var r := TopRule(g, st);
    if AltStart(g, r, i) {
      ExpandValid(g, Top(st), i);
      assert Halts(g, Expand(g, st, i), n - 1);
    } else {
      LeftPosHalts(g, st, i - 1, n);
      SkipNullable(g, Below(g, st), Pos(r, i - 1), n - 1);
    }
  }

  lemma NullableTree(g: Rules, r: nat) returns (s: nat, t: Tree)
    requires RuleLang(g, r, [])
    ensures AltStart(g, r, s) && IsTree(g, g[r][s..], t) && Yield(t) == []
  {
    s :| AltStart(g, r, s) && Lang(g, g[r][s..], []);
    t :| IsTree(g, g[r][s..], t) && Yield(t) == [];
  }

  lemma ExpandPushed(g: Rules, st: Stack, p: Pos, s: nat)
    requires WellFormed(g) && ValidStack(g, st) && ValidPos(g, p) && At(g, p).RuleRef? && AltStart(g, At(g, p).rule, s)
    ensures Continues(g, Pos(p.rule, p.idx + 1)) && Continues(g, Pos(At(g, p).rule, s))
    ensures OnRule(g, PushRest(g, st, p)) && TopRule(g, PushRest(g, st, p)) == At(g, p).rule
    ensures ValidStack(g, PushRest(g, st, Pos(p.rule, p.idx + 1)))
    ensures Expand(g, PushRest(g, st, p), s) ==
            PushRest(g, PushRest(g, st, Pos(p.rule, p.idx + 1)), Pos(At(g, p).rule, s))
  {
    hide WellFormed;
    ExpandValid(g, p, s);
    var st1 := PushRest(g, st, p);
    assert Top(st1) == p && Pop(st1) == st;
  }

  /** A halting call on a nullable rule reaches what follows the rule. */
  lemma SkipNullable(g: Rules, st: Stack, p: Pos, n: nat)
    requires WellFormed(g) && ValidStack(g, st) && ValidPos(g, p) && At(g, p).RuleRef?
    requires RuleLang(g, At(g, p).rule, []) && Halts(g, PushRest(g, st, p), n)
    ensures Continues(g, Pos(p.rule, p.idx + 1))
    ensures Halts(g, PushRest(g, st, Pos(p.rule, p.idx + 1)), n)
  {
    hide IsTree, WellFormed, RuleLang, Lang, Halts, PushRest, Expand, OnRule, ValidStack, AltStart;
    var st1 := PushRest(g, st, p);
    var b := At(g, p).rule;
    var s, t := NullableTree(g, b);
    ExpandPushed(g, st, p, s);
    var st2 := PushRest(g, st, Pos(p.rule, p.idx + 1));
    HaltsExpand(g, st1, s, n);
    NullableHalts(g, st2, Pos(b, s), t, n - 1);
    HaltsMonotone(g, st2, n - 1, n);
  }

  lemma LeftEdgeHalts(g: Rules, st: Stack, b: nat, n: nat) returns (st': Stack)
    requires WellFormed(g) && OnRule(g, st) && LeftEdge(g, TopRule(g, st), b) && Halts(g, st, n)
    ensures n > 0 && OnRule(g, st') && TopRule(g, st') == b && Halts(g, st', n - 1)
  {
    var i: nat :| LeftPos(g, TopRule(g, st), i) && g[TopRule(g, st)][i] == RuleRef(b);
    LeftPosHalts(g, st, i, n);
    st' := PushRest(g, Below(g, st), Pos(TopRule(g, st), i));
    assert Top(st') == Pos(TopRule(g, st), i);
  }

  lemma {:induction false} LeftPathHalts(g: Rules, st: Stack, path: seq<nat>, n: nat) returns (st': Stack, m: nat)
    requires WellFormed(g) && OnRule(g, st) && LeftPath(g, path) && TopRule(g, st) == path[0] && Halts(g, st, n)
    ensures OnRule(g, st') && TopRule(g, st') == path[|path| - 1] && Halts(g, st', m)
    ensures m + |path| - 1 == n
    decreases |path|
  {
    if |path| == 1 {
      st', m := st, n;
    } else {
      var st1 := LeftEdgeHalts(g, st, path[1], n);
      assert LeftPath(g, path[1..]) by {
        forall i | 0 <= i < |path[1..]| - 1
          ensures LeftEdge(g, path[1..][i], path[1..][i + 1])
        {
          assert LeftEdge(g, path[i + 1], path[i + 1 + 1]);
        }
      }
      st', m := LeftPathHalts(g, st1, path[1..], n - 1);
    }
  }

  lemma {:induction false} LeftCycleDiverges(g: Rules, st: Stack, path: seq<nat>, n: nat)
    requires LeftPath(g, path) && |path| > 1 && path[0] == path[|path| - 1]
    requires WellFormed(g) && OnRule(g, st) && TopRule(g, st) == path[0]
    ensures !Halts(g, st, n)
    decreases n
  {
    if Halts(g, st, n) {
      var st', m := LeftPathHalts(g, st, path, n);
      LeftCycleDiverges(g, st', path, m);
    }
  }

  /** `advance_stack` terminates on every stack exactly when the grammar has no left recursion. */
  lemma AdvanceTerminatesIff(g: Rules)
    requires WellFormed(g)
    ensures NoLeftRecursion(g) <==> forall st :: ValidStack(g, st) ==> Terminates(g, st)
  {
    if NoLeftRecursion(g) {
      forall st | ValidStack(g, st)
        ensures Terminates(g, st)
      {
        HaltsWithinCost(g, st);
      }
    } else {
      var path :| LeftPath(g, path) && |path| > 1 && path[0] == path[|path| - 1];
      var a := path[|path| - 2];
      assert LeftEdge(g, a, path[|path| - 2 + 1]);
      var i: nat :| LeftPos(g, a, i) && g[a][i] == RuleRef(path[0]);
      var st := [Pos(a, i)];
      assert OnRule(g, st) && TopRule(g, st) == path[0];
      forall n: nat
        ensures !Halts(g, st, n)
      {
        LeftCycleDiverges(g, st, path, n);
      }
    }
  }
}
