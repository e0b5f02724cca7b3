/** The meaning of rule definitions, and the proof that the compiled rules have the same one. */
module GrammarMeaning {
  import opened Seqs
  import opened GrammarRules
  import opened GrammarText
  import opened GrammarCompile

  type Env = map<Name, seq<Alternative>>

  // ----- the meaning of definitions

  /** The words of a literal or character class. */
  ghost predicate TermHas(es: seq<Elem>, w: Word)
    decreases |es|
  {
    if es == [] then w == []
    else IsClassStart(es[0]) && w != [] && ClassHas(es, w[0]) && TermHas(es[ClassLen(es)..], w[1..])
  }

  datatype Deriv =
    | DTerm(w: Word)
    | DAlt(alt: nat, parts: seq<Deriv>)
    | DMany(parts: seq<Deriv>)

  predicate CountOk(op: Op, n: nat) {
    match op case Star => true case Plus => n > 0 case Opt => n <= 1
  }

  ghost predicate IsDeriv(env: Env, s: Sym, d: Deriv)
    decreases d, 0
  {
    match s
    case Term(es) => d.DTerm? && TermHas(es, d.w)
    case Ref(name) => name in env && AltsDeriv(env, env[name], d)
    case Group(alts) => AltsDeriv(env, alts, d)
    case Repeat(op, body) =>
      d.DMany? && CountOk(op, |d.parts|) &&
      forall i :: 0 <= i < |d.parts| ==> IsDeriv(env, body, d.parts[i])
  }

  /** The derivation follows one of the alternatives. */
  ghost predicate AltsDeriv(env: Env, alts: seq<Alternative>, d: Deriv)
    decreases d, -1
  {
    d.DAlt? && d.alt < |alts| && SeqDeriv(env, alts[d.alt].syms, d.parts)
  }

  ghost predicate SeqDeriv(env: Env, syms: seq<Sym>, ds: seq<Deriv>)
    decreases ds, 1
  {
    |ds| == |syms| && forall i :: 0 <= i < |ds| ==> IsDeriv(env, syms[i], ds[i])
  }

  function Spell(d: Deriv): Word
    decreases d, 0
  {
    match d
    case DTerm(w) => w
    case DAlt(_, parts) => SpellAll(parts)
    case DMany(parts) => SpellAll(parts)
  }

  function SpellAll(ds: seq<Deriv>): Word
    decreases ds, 1
  {
    if ds == [] then [] else SpellAll(ds[..|ds| - 1]) + Spell(ds[|ds| - 1])
  }

  /** The words of a rule, by its name. */
  ghost predicate Means(env: Env, name: Name, w: Word) {
    exists d :: IsDeriv(env, Ref(name), d) && Spell(d) == w
  }

  lemma SpellSnoc(ds: seq<Deriv>, d: Deriv)
    ensures SpellAll(ds + [d]) == SpellAll(ds) + Spell(d)
  {
    var all := ds + [d];
    assert all[..|all| - 1] == ds && all[|all| - 1] == d;
  }

  lemma {:induction false} SpellCons(d: Deriv, ds: seq<Deriv>)
    ensures SpellAll([d] + ds) == Spell(d) + SpellAll(ds)
    decreases |ds|
  {
    var all := [d] + ds;
    if ds == [] {
      assert all[..0] == [] && all[0] == d;
    } else {
      var n := |ds| - 1;
      assert all[..|all| - 1] == [d] + ds[..n] && all[|all| - 1] == ds[n];
      SpellCons(d, ds[..n]);
      assert Spell(d) + SpellAll(ds[..n]) + Spell(ds[n]) == Spell(d) + (SpellAll(ds[..n]) + Spell(ds[n]));
    }
  }

  // ----- measures

  function Size(t: Tree): nat {
    match t
    case Done => 0
    case Chr(_, rest) => 1 + Size(rest)
    case Call(_, sub, rest) => 1 + Size(sub) + Size(rest)
  }

  function Weight(d: Deriv): nat
    decreases d, 0
  {
    match d
    case DTerm(_) => 0
    case DAlt(_, parts) => 1 + WeightAll(parts)
    case DMany(parts) => 1 + WeightAll(parts)
  }

  function WeightAll(ds: seq<Deriv>): nat
    decreases ds, 1
  {
    if ds == [] then 0 else 1 + Weight(ds[0]) + WeightAll(ds[1..])
  }

  lemma {:induction false} WeightPart(ds: seq<Deriv>, i: nat)
    requires i < |ds|
    ensures Weight(ds[i]) < WeightAll(ds) && WeightAll(ds[..i]) + Weight(ds[i]) < WeightAll(ds)
    decreases |ds|
  {
    if i > 0 {
      WeightPart(ds[1..], i - 1);
      assert ds[..i][0] == ds[0] && ds[..i][1..] == ds[1..][..i - 1];
    }
  }

  // ----- a piece of a rule in its context

  predicate Clean(tail: seq<Elem>) {
    tail == [] || (!tail[0].CharAlt? && !tail[0].RngUpper?)
  }

  lemma {:induction false} ClassInContext(es: seq<Elem>, tail: seq<Elem>, c: nat)
    requires es != [] && IsCharElem(es[0]) && Clean(tail)
    ensures ClassLen(es + tail) == ClassLen(es) && ItemsHave(es + tail, c) == ItemsHave(es, c)
    decreases |es|
  {
    var n := ItemLen(es);
    assert ItemLen(es + tail) == n;
    if n < |es| && es[n].CharAlt? {
      assert (es + tail)[n..] == es[n..] + tail;
      ClassInContext(es[n..], tail, c);
    }
  }

  lemma {:induction false} ExtractTerm(g: Rules, es: seq<Elem>, tail: seq<Elem>, t: Tree) returns (w: Word, t2: Tree)
    requires (forall i :: 0 <= i < |es| ==> IsCharElem(es[i])) && Clean(tail) && IsTree(g, es + tail, t)
    ensures TermHas(es, w) && IsTree(g, tail, t2) && Yield(t) == w + Yield(t2) && Size(t2) <= Size(t)
    decreases |es|
  {
    if es == [] {
      assert es + tail == tail;
      w, t2 := [], t;
    } else {
      ClassInContext(es, tail, t.c);
      var n := ClassLen(es);
      DropConcat(es, tail, n);
      var w1;
      w1, t2 := ExtractTerm(g, es[n..], tail, t.rest);
      w := [t.c] + w1;
      assert w[1..] == w1;
      Assoc([t.c], w1, Yield(t2));
    }
  }

  lemma ChrTree(g: Rules, es: seq<Elem>, c: nat, t: Tree)
    requires es != [] && IsClassStart(es[0]) && ClassHas(es, c) && IsTree(g, es[ClassLen(es)..], t)
    ensures IsTree(g, es, Chr(c, t)) && Yield(Chr(c, t)) == [c] + Yield(t)
  {
    hide ItemsHave, ClassLen, AltStart;
  }

  lemma {:induction false} BuildTerm(g: Rules, es: seq<Elem>, tail: seq<Elem>, w: Word, t2: Tree) returns (t: Tree)
    requires TermHas(es, w) && Clean(tail) && IsTree(g, tail, t2)
    ensures IsTree(g, es + tail, t) && Yield(t) == w + Yield(t2)
    decreases |es|
  {
    hide ItemsHave, ClassLen, IsTree, Yield;
    if es == [] {
      assert es + tail == tail;
      t := t2;
    } else {
      ClassInContext(es, tail, w[0]);
      var n := ClassLen(es);
      DropConcat(es, tail, n);
      var t1 := BuildTerm(g, es[n..], tail, w[1..], t2);
      t := Chr(w[0], t1);
      ChrTree(g, es + tail, w[0], t1);
      Assoc([w[0]], w[1..], Yield(t2));
      assert [w[0]] + w[1..] == w;
    }
  }

  // ----- later states keep what a compiled piece needs

  /** In `f` every name of `st` has the same number and every synthesized rule of `st` is the same. */
  ghost predicate Extends(f: St, st: St) {
    && (forall name :: name in st.ids ==> name in f.ids && f.ids[name] == st.ids[name])
    && (forall name :: name in st.ids && !Plain(name) && RuleAt(st, st.ids[name]) != [] ==>
          RuleAt(f, st.ids[name]) == RuleAt(st, st.ids[name]))
  }

  lemma ExtendsBack(f: St, a: St, b: St)
    requires Extends(f, b) && Grows(a, b) && Inv(a)
    ensures Extends(f, a)
  {
  }

  /** `f` holds the compiled form of every definition, each compiled from the state `origin` gives. */
  ghost predicate Linked(f: St, env: Env, origin: map<Name, St>) {
    && (forall name :: name in env ==> DefLinked(f, env, origin, name))
    && (forall name :: name in f.ids && Plain(name) && name !in env ==> RuleAt(f, f.ids[name]) == [])
  }

  ghost predicate DefLinked(f: St, env: Env, origin: map<Name, St>, name: Name)
    requires name in env
  {
    && name in origin && name in f.ids && Plain(name) && AltsOk(env[name]) && Inv(origin[name])
    && var (st, rule) := CompileAlts(origin[name], name, env[name]);
       Extends(f, st) && RuleAt(f, f.ids[name]) == rule + [End]
  }

  // ----- alternatives of a compiled rule

  /** Alternative `k` starts at `s`, was compiled from `stk` and is followed by `tail`. */
  ghost predicate AltAt(st: St, base: Name, alts: seq<Alternative>, k: nat, s: nat, stk: St, tail: seq<Elem>) {
    var (st1, rule) := CompileAlts(st, base, alts);
    && k < |alts| && s <= |rule| && (s == 0 || rule[s - 1].Alt?)
    && Inv(stk)
    && var (st2, es) := CompileSeq(stk, base, alts[k].syms);
       Inv(st2) && Grows(st2, st1) && rule[s..] == es + tail && (tail == [] || tail[0].Alt?)
  }

  lemma AltLast(st: St, base: Name, alts: seq<Alternative>) returns (s: nat, stk: St)
    requires Inv(st) && Plain(base) && AltsOk(alts)
    ensures AltAt(st, base, alts, |alts| - 1, s, stk, [])
    ensures |alts| == 1 ==> s == 0
    ensures |alts| > 1 ==> s == |CompileAlts(st, base, alts[..|alts| - 1]).1| + 1
  {
    hide Inv, Grows, WellFormedBody, CompileSeq;
    var n := |alts| - 1;
    var (st1, rule0) := CompileAlts(st, base, alts[..n]);
    CompileAltsGrows(st, base, alts[..n]);
    CompileSeqGrows(st1, base, alts[n].syms);
    var (st2, es) := CompileSeq(st1, base, alts[n].syms);
    GrowsRefl(st2);
    stk := st1;
    s := if n == 0 then 0 else |rule0| + 1;
    var rule := CompileAlts(st, base, alts).1;
    assert rule[s..] == es + [];
  }

  lemma AltEarlier(st: St, base: Name, alts: seq<Alternative>, k: nat, s: nat, stk: St, tail: seq<Elem>)
    returns (tail1: seq<Elem>)
    requires Inv(st) && Plain(base) && AltsOk(alts) && |alts| > 1
    requires AltAt(st, base, alts[..|alts| - 1], k, s, stk, tail)
    ensures AltAt(st, base, alts, k, s, stk, tail1)
  {
    hide Inv, Grows, WellFormedBody;
    var n := |alts| - 1;
    var (st1, rule0) := CompileAlts(st, base, alts[..n]);
    CompileAltsGrows(st, base, alts[..n]);
    CompileSeqGrows(st1, base, alts[n].syms);
    var (st2, es) := CompileSeq(st1, base, alts[n].syms);
    var stm := CompileSeq(stk, base, alts[k].syms).0;
    assert alts[..n][k] == alts[k];
    GrowsTrans(stm, st1, st2);
    tail1 := tail + ([Alt] + es);
    var rule := CompileAlts(st, base, alts).1;
    Assoc(rule0, [Alt], es);
    assert rule == rule0 + ([Alt] + es);
    DropConcat(rule0, [Alt] + es, s);
    Assoc(CompileSeq(stk, base, alts[k].syms).1, tail, [Alt] + es);
  }

  /** Every start of an alternative in the flat rule is one of a compiled alternative. */
  lemma {:induction false} FindAlt(st: St, base: Name, alts: seq<Alternative>, s: nat)
    returns (k: nat, stk: St, tail: seq<Elem>)
    requires Inv(st) && Plain(base) && AltsOk(alts)
    requires var rule := CompileAlts(st, base, alts).1; s <= |rule| && (s == 0 || rule[s - 1].Alt?)
    ensures AltAt(st, base, alts, k, s, stk, tail)
    decreases |alts|
  {
    hide Inv, Grows, WellFormedBody, AltAt, CompileSeq;
    var n := |alts| - 1;
    var last;
    last, stk := AltLast(st, base, alts);
    if s == last {
      k, tail := n, [];
    } else {
      var (st1, rule0) := CompileAlts(st, base, alts[..n]);
      CompileAltsGrows(st, base, alts[..n]);
      CompileSeqGrows(st1, base, alts[n].syms);
      var es := CompileSeq(st1, base, alts[n].syms).1;
      var rule := CompileAlts(st, base, alts).1;
      if n == 0 {
        assert false;
      } else {
        assert rule == rule0 + [Alt] + es;
        assert s <= |rule0|;
        k, stk, tail := FindAlt(st, base, alts[..n], s);
        tail := AltEarlier(st, base, alts, k, s, stk, tail);
      }
    }
  }

  lemma {:induction false} AltOf(st: St, base: Name, alts: seq<Alternative>, k: nat)
    returns (s: nat, stk: St, tail: seq<Elem>)
    requires Inv(st) && Plain(base) && AltsOk(alts) && k < |alts|
    ensures AltAt(st, base, alts, k, s, stk, tail)
    decreases |alts|
  {
    var n := |alts| - 1;
    if k == n {
      s, stk := AltLast(st, base, alts);
      tail := [];
    } else {
      s, stk, tail := AltOf(st, base, alts[..n], k);
      tail := AltEarlier(st, base, alts, k, s, stk, tail);
    }
  }

  // ----- synthesized rules are found again in the final table

  lemma GroupKept(f: St, st: St, base: Name, alts: seq<Alternative>)
    requires Inv(st) && Plain(base) && AltsOk(alts) && Extends(f, CompileSym(st, base, Group(alts)).0)
    ensures var st1 := GenId(st, base).0; var (st2, rule) := CompileAlts(st1, base, alts);
            Inv(st1) && Extends(f, st2) && RuleAt(f, |st.ids|) == rule + [End]
  {
    hide Inv, RuleOk, WellFormedBody, RuleAt, AddRule;
    GenIdGrows(st, base);
    var (st1, id) := GenId(st, base);
    CompileAltsGrows(st1, base, alts);
    var (st2, rule) := CompileAlts(st1, base, alts);
    CloseRule(rule, |st2.ids|);
    DefineGrows(st, base, st2, rule + [End]);
    SynthKept(f, st1, st2, base, id, rule + [End]);
  }

  /** What holds for a table with a synthesized rule just defined holds without it. */
  lemma SynthKept(f: St, b: St, c: St, base: Name, id: nat, rule: seq<Elem>)
    requires Inv(c) && Grows(b, c) && SynthName(base, id) in b.ids && b.ids[SynthName(base, id)] == id
    requires RuleAt(c, id) == [] && rule != [] && id < |c.ids| && RuleOk(rule, |c.ids|)
    requires Extends(f, AddRule(c, id, rule))
    ensures Extends(f, c) && RuleAt(f, id) == rule
  {
    AddRuleAt(c, id, rule);
    SynthNotPlain(base, id);
    var d := AddRule(c, id, rule);
    assert SynthName(base, id) in d.ids && d.ids[SynthName(base, id)] == id;
    forall name | name in c.ids && !Plain(name) && RuleAt(c, c.ids[name]) != []
      ensures RuleAt(f, c.ids[name]) == RuleAt(c, c.ids[name])
    {
      assert d.ids[name] != id;
    }
  }

  lemma RepeatKept(f: St, st: St, base: Name, op: Op, body: Sym)
    requires Inv(st) && Plain(base) && SymOk(body) && Extends(f, CompileSym(st, base, Repeat(op, body)).0)
    ensures var (st1, es) := CompileSym(st, base, body);
            Inv(st1) && Extends(f, st1) && PieceOk(es) && RuleAt(f, |st1.ids|) == RepeatRule(op, |st1.ids|, es)
  {
    hide Inv, RuleOk, WellFormedBody, RuleAt, AddRule, RepeatRule;
    CompileSymGrows(st, base, body);
    var (st1, es) := CompileSym(st, base, body);
    GenIdGrows(st1, base);
    var (st2, id) := GenId(st1, base);
    GrowsRefl(st2);
    GrowsCount(st1, st2);
    RepeatRuleOk(op, id, es, |st2.ids|);
    DefineGrows(st1, base, st2, RepeatRule(op, id, es));
    SynthKept(f, st2, st2, base, id, RepeatRule(op, id, es));
    ExtendsBack(f, st1, st2);
  }

  /** The elements after the repeated symbol in the first alternative of a repetition. */
  function AfterFirst(op: Op, id: nat, es: seq<Elem>): seq<Elem> {
    (if op.Opt? then [] else [RuleRef(id)]) + [Alt] + (if op.Plus? then es else []) + [End]
  }

  lemma RepeatAlts(op: Op, id: nat, es: seq<Elem>, s: nat)
    requires PieceOk(es) && s < |RepeatRule(op, id, es)|
    ensures s == 0 ==> RepeatRule(op, id, es)[s..] == es + AfterFirst(op, id, es)
    ensures s > 0 && RepeatRule(op, id, es)[s - 1].Alt? ==>
              RepeatRule(op, id, es)[s..] == (if op.Plus? then es else []) + [End]
  {
    var rule := RepeatRule(op, id, es);
    var again := if op.Opt? then [] else [RuleRef(id)];
    var last := if op.Plus? then es else [];
    assert rule == es + again + [Alt] + last + [End];
    if s == 0 {
      assert rule[0..] == rule;
    } else if rule[s - 1].Alt? {
      var n := |es| + |again|;
      assert s == n + 1;
      assert rule[s..] == last + [End];
    }
  }

  // ----- from a derivation of the flat rules to one of the definitions

  lemma {:induction false} ExtractSym(f: St, env: Env, origin: map<Name, St>, st: St, base: Name, s: Sym,
                                      tail: seq<Elem>, t: Tree)
    returns (d: Deriv, t2: Tree)
    requires Linked(f, env, origin) && Inv(st) && Plain(base) && SymOk(s) && Clean(tail)
    requires Extends(f, CompileSym(st, base, s).0) && IsTree(f.rules, CompileSym(st, base, s).1 + tail, t)
    ensures IsDeriv(env, s, d) && IsTree(f.rules, tail, t2) && Yield(t) == Spell(d) + Yield(t2) && Size(t2) <= Size(t)
    decreases Size(t), 0, s, 0
  {
    hide Inv, Grows, Extends, Linked, AltsOk, IsTree, IsDeriv, RepeatRule;
    match s
    case Term(es) =>
      var w;
      w, t2 := ExtractTerm(f.rules, es, tail, t);
      d := DTerm(w);
      TermDeriv(env, es, w);
    case Ref(name) =>
      CallTree(f.rules, GetId(st, name).1, tail, t);
      RefKept(f, env, origin, st, name, t.alt);
      t2 := t.rest;
      d := ExtractAlts(f, env, origin, origin[name], name, env[name], f.ids[name], t.alt, t.sub);
      RefDeriv(env, name, d);
    case Group(alts) =>
      GroupKept(f, st, base, alts);
      CallTree(f.rules, |st.ids|, tail, t);
      t2 := t.rest;
      d := ExtractAlts(f, env, origin, GenId(st, base).0, base, alts, |st.ids|, t.alt, t.sub);
      GroupDeriv(env, alts, d);
    case Repeat(op, body) =>
      var id := |CompileSym(st, base, body).0.ids|;
      CallTree(f.rules, id, tail, t);
      t2 := t.rest;
      var parts := ExtractRepeat(f, env, origin, st, base, op, body, t.alt, t.sub);
      d := DMany(parts);
  }

  lemma TermDeriv(env: Env, es: seq<Elem>, w: Word)
    ensures IsDeriv(env, Term(es), DTerm(w)) <==> TermHas(es, w)
  {
  }

  lemma RefDeriv(env: Env, name: Name, d: Deriv)
    ensures IsDeriv(env, Ref(name), d) <==> name in env && AltsDeriv(env, env[name], d)
  {
  }

  lemma GroupDeriv(env: Env, alts: seq<Alternative>, d: Deriv)
    ensures IsDeriv(env, Group(alts), d) <==> AltsDeriv(env, alts, d)
  {
  }

  /** A reference that is derived at all refers to a defined rule. */
  lemma RefKept(f: St, env: Env, origin: map<Name, St>, st: St, name: Name, s: nat)
    requires Linked(f, env, origin) && Inv(st) && Plain(name)
    requires Extends(f, GetId(st, name).0) && AltStart(f.rules, GetId(st, name).1, s)
    ensures name in f.ids && GetId(st, name).1 == f.ids[name] && name in env && DefLinked(f, env, origin, name)
  {
    GetIdGrows(st, name);
    assert RuleAt(f, f.ids[name]) != [];
  }

  lemma {:induction false} ExtractAlts(f: St, env: Env, origin: map<Name, St>, st: St, base: Name,
                                       alts: seq<Alternative>, id: nat, s: nat, t: Tree)
    returns (d: Deriv)
    requires Linked(f, env, origin) && Inv(st) && Plain(base) && AltsOk(alts)
    requires Extends(f, CompileAlts(st, base, alts).0) && RuleAt(f, id) == CompileAlts(st, base, alts).1 + [End]
    requires AltStart(f.rules, id, s) && IsTree(f.rules, f.rules[id][s..], t)
    ensures AltsDeriv(env, alts, d) && Yield(t) == Spell(d)
    decreases Size(t), 1, alts, 2
  {
    hide Inv, Grows, Extends, Linked, CompileAlts, CompileSeq;
    var rule := CompileAlts(st, base, alts).1;
    var k, stk, tail := FindAlt(st, base, alts, s);
    DropConcat(rule, [End], s);
    var (st2, es) := CompileSeq(stk, base, alts[k].syms);
    Assoc(es, tail, [End]);
    ExtendsBack(f, st2, CompileAlts(st, base, alts).0);
    var ds, t2 := ExtractSeq(f, env, origin, stk, base, alts[k].syms, tail + [End], t);
    assert t2.Done?;
    d := DAlt(k, ds);
  }

  lemma {:induction false} ExtractSeq(f: St, env: Env, origin: map<Name, St>, st: St, base: Name, syms: seq<Sym>,
                                      tail: seq<Elem>, t: Tree)
    returns (ds: seq<Deriv>, t2: Tree)
    requires Linked(f, env, origin) && Inv(st) && Plain(base) && SeqOk(syms) && Clean(tail)
    requires Extends(f, CompileSeq(st, base, syms).0) && IsTree(f.rules, CompileSeq(st, base, syms).1 + tail, t)
    ensures SeqDeriv(env, syms, ds) && IsTree(f.rules, tail, t2) && Yield(t) == SpellAll(ds) + Yield(t2)
    ensures Size(t2) <= Size(t)
    decreases Size(t), 0, syms, 1
  {
    hide Inv, Grows, Extends, Linked, IsTree, CompileSym, IsDeriv, Spell;
    if syms == [] {
      assert [] + tail == tail;
      ds, t2 := [], t;
    } else {
      var n := |syms| - 1;
      var (st1, es) := CompileSeq(st, base, syms[..n]);
      CompileSeqGrows(st, base, syms[..n]);
      CompileSymGrows(st1, base, syms[n]);
      var (st2, e) := CompileSym(st1, base, syms[n]);
      ExtendsBack(f, st1, st2);
      Assoc(es, e, tail);
      PieceClean(e, tail);
      var t1, d;
      ds, t1 := ExtractSeq(f, env, origin, st, base, syms[..n], e + tail, t);
      d, t2 := ExtractSym(f, env, origin, st1, base, syms[n], tail, t1);
      SpellSnoc(ds, d);
      SeqDerivSnoc(env, syms, ds, d);
      Assoc(SpellAll(ds), Spell(d), Yield(t2));
      ds := ds + [d];
    }
  }

  lemma SeqDerivSnoc(env: Env, syms: seq<Sym>, ds: seq<Deriv>, d: Deriv)
    requires syms != [] && SeqDeriv(env, syms[..|syms| - 1], ds) && IsDeriv(env, syms[|syms| - 1], d)
    ensures SeqDeriv(env, syms, ds + [d])
  {
    var n := |syms| - 1;
    forall i | 0 <= i < |ds + [d]|
      ensures IsDeriv(env, syms[i], (ds + [d])[i])
    {
      assert i < n ==> syms[..n][i] == syms[i];
    }
  }

  lemma ManyCons(env: Env, op: Op, body: Sym, d: Deriv, parts: seq<Deriv>)
    requires IsDeriv(env, body, d) && CountOk(op, 1 + |parts|)
    requires forall i :: 0 <= i < |parts| ==> IsDeriv(env, body, parts[i])
    ensures IsDeriv(env, Repeat(op, body), DMany([d] + parts)) && SpellAll([d] + parts) == Spell(d) + SpellAll(parts)
  {
    SpellCons(d, parts);
  }

  lemma PieceClean(e: seq<Elem>, tail: seq<Elem>)
    requires PieceOk(e) && Clean(tail)
    ensures Clean(e + tail)
  {
    if e == [] {
      assert e + tail == tail;
    } else {
      assert Fits(e, 0);
    }
  }

  lemma {:induction false} ExtractRepeat(f: St, env: Env, origin: map<Name, St>, st: St, base: Name, op: Op,
                                         body: Sym, s: nat, t: Tree)
    returns (parts: seq<Deriv>)
    requires Linked(f, env, origin) && Inv(st) && Plain(base) && SymOk(body) && body != Term([])
    requires Extends(f, CompileSym(st, base, Repeat(op, body)).0)
    requires var id := |CompileSym(st, base, body).0.ids|;
             AltStart(f.rules, id, s) && IsTree(f.rules, f.rules[id][s..], t)
    ensures IsDeriv(env, Repeat(op, body), DMany(parts)) && Yield(t) == SpellAll(parts)
    decreases Size(t), 1, body, 3
  {
    hide Inv, Grows, Extends, Linked, RepeatRule, CompileSym, SpellAll;
    RepeatKept(f, st, base, op, body);
    var (st1, es) := CompileSym(st, base, body);
    var id := |st1.ids|;
    RepeatAlts(op, id, es, s);
    SpellNone();
    if s == 0 {
      var tail := AfterFirst(op, id, es);
      var d, t1 := ExtractSym(f, env, origin, st, base, body, tail, t);
      if op.Opt? {
        parts := [d] + [];
        ManyCons(env, op, body, d, []);
      } else {
        assert tail == [RuleRef(id)] + tail[1..] && tail[1..][0].Alt?;
        CallTree(f.rules, id, tail[1..], t1);
        var more := ExtractRepeat(f, env, origin, st, base, op, body, t1.alt, t1.sub);
        parts := [d] + more;
        ManyCons(env, op, body, d, more);
        assert Yield(t1) == Yield(t1.sub) + Yield(t1.rest) && Yield(t1.rest) == [];
      }
    } else if op.Plus? {
      var d, t1 := ExtractSym(f, env, origin, st, base, body, [End], t);
      parts := [d] + [];
      ManyCons(env, op, body, d, []);
    } else {
      parts := [];
    }
  }

  lemma SpellNone()
    ensures SpellAll([]) == []
  {
  }

  // ----- and back

  lemma {:induction false} BuildSym(f: St, env: Env, origin: map<Name, St>, st: St, base: Name, s: Sym,
                                    tail: seq<Elem>, d: Deriv, t2: Tree)
    returns (t: Tree)
    requires Linked(f, env, origin) && Inv(st) && Plain(base) && SymOk(s) && Clean(tail)
    requires Extends(f, CompileSym(st, base, s).0) && IsDeriv(env, s, d) && IsTree(f.rules, tail, t2)
    ensures IsTree(f.rules, CompileSym(st, base, s).1 + tail, t) && Yield(t) == Spell(d) + Yield(t2)
    decreases Weight(d), 2
  {
    hide Inv, Grows, Extends, Linked, AltsOk, IsTree, RepeatRule;
    match s
    case Term(es) =>
      t := BuildTerm(f.rules, es, tail, d.w, t2);
    case Ref(name) =>
      NameKept(f, env, origin, st, name);
      var alt, sub := BuildAlts(f, env, origin, origin[name], name, env[name], f.ids[name], d);
      t := Call(alt, sub, t2);
      CallTree(f.rules, f.ids[name], tail, t);
    case Group(alts) =>
      GroupKept(f, st, base, alts);
      var alt, sub := BuildAlts(f, env, origin, GenId(st, base).0, base, alts, |st.ids|, d);
      t := Call(alt, sub, t2);
      CallTree(f.rules, |st.ids|, tail, t);
    case Repeat(op, body) =>
      var id := |CompileSym(st, base, body).0.ids|;
      var alt, sub := BuildRepeat(f, env, origin, st, base, op, body, d.parts);
      t := Call(alt, sub, t2);
      CallTree(f.rules, id, tail, t);
  }

  lemma NameKept(f: St, env: Env, origin: map<Name, St>, st: St, name: Name)
    requires Linked(f, env, origin) && Inv(st) && Plain(name) && Extends(f, GetId(st, name).0) && name in env
    ensures name in f.ids && GetId(st, name).1 == f.ids[name] && DefLinked(f, env, origin, name)
  {
    GetIdGrows(st, name);
  }

  lemma {:induction false} BuildAlts(f: St, env: Env, origin: map<Name, St>, st: St, base: Name,
                                     alts: seq<Alternative>, id: nat, d: Deriv)
    returns (s: nat, t: Tree)
    requires Linked(f, env, origin) && Inv(st) && Plain(base) && AltsOk(alts) && AltsDeriv(env, alts, d)
    requires Extends(f, CompileAlts(st, base, alts).0) && RuleAt(f, id) == CompileAlts(st, base, alts).1 + [End]
    ensures AltStart(f.rules, id, s) && IsTree(f.rules, f.rules[id][s..], t) && Yield(t) == Spell(d)
    decreases Weight(d), 1
  {
    hide Inv, Grows, Extends, Linked, CompileAlts, CompileSeq;
    var rule := CompileAlts(st, base, alts).1;
    var stk, tail;
    s, stk, tail := AltOf(st, base, alts, d.alt);
    DropConcat(rule, [End], s);
    var (st2, es) := CompileSeq(stk, base, alts[d.alt].syms);
    Assoc(es, tail, [End]);
    ExtendsBack(f, st2, CompileAlts(st, base, alts).0);
    t := BuildSeq(f, env, origin, stk, base, alts[d.alt].syms, tail + [End], d.parts, Done);
  }

  lemma {:induction false} BuildSeq(f: St, env: Env, origin: map<Name, St>, st: St, base: Name, syms: seq<Sym>,
                                    tail: seq<Elem>, ds: seq<Deriv>, t2: Tree)
    returns (t: Tree)
    requires Linked(f, env, origin) && Inv(st) && Plain(base) && SeqOk(syms) && Clean(tail)
    requires Extends(f, CompileSeq(st, base, syms).0) && SeqDeriv(env, syms, ds) && IsTree(f.rules, tail, t2)
    ensures IsTree(f.rules, CompileSeq(st, base, syms).1 + tail, t) && Yield(t) == SpellAll(ds) + Yield(t2)
    decreases WeightAll(ds), 0
  {
    hide Inv, Grows, Extends, Linked, IsTree, CompileSym, IsDeriv, Spell, WeightAll;
    if syms == [] {
      assert [] + tail == tail;
      t := t2;
    } else {
      var n := |syms| - 1;
      var (st1, es) := CompileSeq(st, base, syms[..n]);
      CompileSeqGrows(st, base, syms[..n]);
      CompileSymGrows(st1, base, syms[n]);
      var (st2, e) := CompileSym(st1, base, syms[n]);
      ExtendsBack(f, st1, st2);
      Assoc(es, e, tail);
      PieceClean(e, tail);
      WeightPart(ds, n);
      var t1 := BuildSym(f, env, origin, st1, base, syms[n], tail, ds[n], t2);
      assert SeqDeriv(env, syms[..n], ds[..n]);
      t := BuildSeq(f, env, origin, st, base, syms[..n], e + tail, ds[..n], t1);
      Assoc(SpellAll(ds[..n]), Spell(ds[n]), Yield(t2));
    }
  }

  lemma {:induction false} BuildRepeat(f: St, env: Env, origin: map<Name, St>, st: St, base: Name, op: Op, body: Sym,
                                       parts: seq<Deriv>)
    returns (s: nat, t: Tree)
    requires Linked(f, env, origin) && Inv(st) && Plain(base) && SymOk(body) && body != Term([])
    requires Extends(f, CompileSym(st, base, Repeat(op, body)).0)
    requires CountOk(op, |parts|) && forall i :: 0 <= i < |parts| ==> IsDeriv(env, body, parts[i])
    ensures var id := |CompileSym(st, base, body).0.ids|;
            AltStart(f.rules, id, s) && IsTree(f.rules, f.rules[id][s..], t)
    ensures Yield(t) == SpellAll(parts)
    decreases WeightAll(parts), 3
  {
    hide Inv, Grows, Extends, Linked, CompileSym, SpellAll, IsDeriv;
    RepeatKept(f, st, base, op, body);
    var (st1, es) := CompileSym(st, base, body);
    var id := |st1.ids|;
    SpellNone();
    var second := |es| + (if op.Opt? then 0 else 1) + 1;
    assert RepeatRule(op, id, es)[second - 1].Alt?;
    if parts == [] {
      RepeatAlts(op, id, es, second);
      s, t := second, Done;
    } else {
      var d, more := parts[0], parts[1..];
      assert parts == [d] + more;
      SpellCons(d, more);
      if op.Plus? && more == [] {
        RepeatAlts(op, id, es, second);
        s := second;
        t := BuildSym(f, env, origin, st, base, body, [End], d, Done);
      } else {
        RepeatAlts(op, id, es, 0);
        var tail := AfterFirst(op, id, es);
        s := 0;
        var t1 := Done;
        if !op.Opt? {
          var alt, sub := BuildRepeat(f, env, origin, st, base, op, body, more);
          assert tail[0] == RuleRef(id) && tail[1..][0].Alt?;
          t1 := Call(alt, sub, Done);
          assert Yield(t1) == SpellAll(more);
        }
        t := BuildSym(f, env, origin, st, base, body, tail, d, t1);
      }
    }
  }

  // ----- whole texts

  /** The definitions in force: the last one of each name. */
  function EnvOf(defs: seq<Def>): Env {
    if defs == [] then map[]
    else EnvOf(defs[..|defs| - 1])[defs[|defs| - 1].name := defs[|defs| - 1].alts]
  }

  /** The state from which the definition in force of each name was compiled. */
  function OriginOf(defs: seq<Def>): map<Name, St> {
    if defs == [] then map[]
    else
      var n := |defs| - 1;
      OriginOf(defs[..n])[defs[n].name := GetId(CompileDefs(defs[..n]), defs[n].name).0]
  }

  /** Every synthesized name has a rule. */
  ghost predicate AllSynthDefined(st: St) {
    forall name :: name in st.ids && !Plain(name) ==> RuleAt(st, st.ids[name]) != []
  }

  lemma ExtendsTrans(c: St, b: St, a: St)
    requires Extends(c, b) && Extends(b, a)
    ensures Extends(c, a)
  {
  }

  /** What a further definition does to the tables: it adds symbols and synthesized rules, and
      replaces the rule of its own name. */
  lemma CompileDefSteps(st: St, def: Def)
    requires Inv(st) && DefOk(def)
    ensures var (st1, id) := GetId(st, def.name); var (st2, rule) := CompileAlts(st1, def.name, def.alts);
            var f := CompileDef(st, def);
            Inv(st1) && Inv(f) && Grows(st, st2) && NewDefined(st, st2) && f.ids == st2.ids &&
            def.name in f.ids && f.ids[def.name] == id && RuleAt(f, id) == rule + [End] &&
            forall k: nat :: k != id ==> RuleAt(f, k) == RuleAt(st2, k)
  {
    hide RuleOk, AddRule, GetId, CompileAlts, AltsOk, WellFormedBody, Inv, NewDefined;
    GetIdGrows(st, def.name);
    var (st1, id) := GetId(st, def.name);
    CompileAltsGrows(st1, def.name, def.alts);
    var (st2, rule) := CompileAlts(st1, def.name, def.alts);
    GrowsTrans(st, st1, st2);
    CloseRule(rule, |st2.ids|);
    AddRuleAt(st2, id, rule + [End]);
  }

  /** Redefining the rule of a plain name keeps every synthesized rule. */
  lemma RedefineExtends(st: St, st2: St, f: St, name: Name)
    requires Inv(st) && Inv(f) && Grows(st, st2) && f.ids == st2.ids && Plain(name) && name in f.ids
    requires forall k: nat :: k != f.ids[name] ==> RuleAt(f, k) == RuleAt(st2, k)
    ensures Extends(f, st) && Extends(f, st2)
  {
    forall x | x in st2.ids && !Plain(x)
      ensures f.ids[x] != f.ids[name] && RuleAt(f, f.ids[x]) == RuleAt(st2, st2.ids[x])
    {
    }
  }

  lemma NewDefLinked(st: St, def: Def, env: Env, origin: map<Name, St>)
    requires Inv(st) && DefOk(def) && def.name in env && env[def.name] == def.alts
    requires def.name in origin && origin[def.name] == GetId(st, def.name).0
    ensures DefLinked(CompileDef(st, def), env, origin, def.name)
  {
    hide Inv, CompileAlts, GetId, AltsOk, Extends, Grows, NewDefined, CompileDef;
    CompileDefSteps(st, def);
    var st2 := CompileAlts(GetId(st, def.name).0, def.name, def.alts).0;
    RedefineExtends(st, st2, CompileDef(st, def), def.name);
  }

  lemma OldDefLinked(st: St, def: Def, env: Env, origin: map<Name, St>, env1: Env, origin1: map<Name, St>, name: Name)
    requires Inv(st) && DefOk(def) && name != def.name
    requires name in env && DefLinked(st, env, origin, name)
    requires name in env1 && name in origin1 && env1[name] == env[name] && origin1[name] == origin[name]
    ensures DefLinked(CompileDef(st, def), env1, origin1, name)
  {
    hide CompileAlts, GetId, AltsOk, CompileDef;
    CompileDefSteps(st, def);
    var f := CompileDef(st, def);
    var st2 := CompileAlts(GetId(st, def.name).0, def.name, def.alts).0;
    RedefineExtends(st, st2, f, def.name);
    ExtendsTrans(f, st, CompileAlts(origin[name], name, env[name]).0);
    assert f.ids[name] == st.ids[name] != f.ids[def.name];
  }

  /** After a further definition the synthesized names and the defined ones are those with a rule. */
  lemma DefinedNames(st: St, def: Def, env: Env)
    requires Inv(st) && DefOk(def) && AllSynthDefined(st)
    requires forall name :: name in st.ids && Plain(name) && name !in env ==> RuleAt(st, st.ids[name]) == []
    ensures var f := CompileDef(st, def);
            AllSynthDefined(f) &&
            forall name :: name in f.ids && Plain(name) && name !in env && name != def.name ==>
                RuleAt(f, f.ids[name]) == []
  {
    hide CompileAlts, GetId, AltsOk, CompileDef;
    CompileDefSteps(st, def);
    var f := CompileDef(st, def);
    var st2 := CompileAlts(GetId(st, def.name).0, def.name, def.alts).0;
    forall name | name in f.ids && name != def.name && (!Plain(name) || name !in env)
      ensures Plain(name) <==> RuleAt(f, f.ids[name]) == []
    {
      assert f.ids[name] != f.ids[def.name];
      if name in st.ids {
        assert st.ids[name] < |st.ids|;
      }
    }
  }

  lemma LinkedStep(st: St, def: Def, env: Env, origin: map<Name, St>)
    requires Inv(st) && DefOk(def) && AllSynthDefined(st) && Linked(st, env, origin)
    ensures var f := CompileDef(st, def);
            Inv(f) && AllSynthDefined(f) &&
            Linked(f, env[def.name := def.alts], origin[def.name := GetId(st, def.name).0])
  {
    hide CompileDef, CompileAlts, DefLinked, DefOk, AllSynthDefined, Inv, GetId;
    CompileDefSteps(st, def);
    var f := CompileDef(st, def);
    var env1, origin1 := env[def.name := def.alts], origin[def.name := GetId(st, def.name).0];
    DefinedNames(st, def, env);
    forall name | name in env1
      ensures DefLinked(f, env1, origin1, name)
    {
      if name == def.name {
        NewDefLinked(st, def, env1, origin1);
      } else {
        assert DefLinked(st, env, origin, name);
        assert name in origin by {
          LinkedOrigin(st, env, origin, name);
        }
        OldDefLinked(st, def, env, origin, env1, origin1, name);
      }
    }
  }

  lemma LinkedOrigin(f: St, env: Env, origin: map<Name, St>, name: Name)
    requires name in env && DefLinked(f, env, origin, name)
    ensures name in origin
  {
  }

  /** The tables of any definitions are in order and hold the compiled form of those in force. */
  lemma {:induction false} CompileDefsLinked(defs: seq<Def>)
    requires forall i :: 0 <= i < |defs| ==> DefOk(defs[i])
    ensures var f := CompileDefs(defs);
            Inv(f) && AllSynthDefined(f) && Linked(f, EnvOf(defs), OriginOf(defs))
    decreases |defs|
  {
    hide CompileDef, Linked, DefOk, AllSynthDefined, Inv, GetId;
    if defs == [] {
      NothingDefined();
    } else {
      var n := |defs| - 1;
      CompileDefsLinked(defs[..n]);
      LinkedStep(CompileDefs(defs[..n]), defs[n], EnvOf(defs[..n]), OriginOf(defs[..n]));
    }
  }

  lemma NothingDefined()
    ensures Inv(St(map[], [])) && AllSynthDefined(St(map[], [])) && Linked(St(map[], []), map[], map[])
  {
    assert forall k: nat :: RuleAt(St(map[], []), k) == [];
  }

  lemma RuleToMeaning(f: St, env: Env, origin: map<Name, St>, name: Name, w: Word)
    requires Linked(f, env, origin) && Plain(name) && name in f.ids && RuleLang(f.rules, f.ids[name], w)
    ensures Means(env, name, w)
  {
    hide Inv, Extends, AltsOk, IsTree, CompileAlts;
    var id := f.ids[name];
    var s: nat :| AltStart(f.rules, id, s) && Lang(f.rules, f.rules[id][s..], w);
    var t :| IsTree(f.rules, f.rules[id][s..], t) && Yield(t) == w;
    assert RuleAt(f, id) != [];
    assert DefLinked(f, env, origin, name);
    hide Linked;
    var d := ExtractAlts(f, env, origin, origin[name], name, env[name], id, s, t);
    assert IsDeriv(env, Ref(name), d);
  }

  lemma MeaningToRule(f: St, env: Env, origin: map<Name, St>, name: Name, w: Word)
    requires Linked(f, env, origin) && name in f.ids && Means(env, name, w)
    ensures RuleLang(f.rules, f.ids[name], w)
  {
    hide Inv, Extends, AltsOk, IsTree, CompileAlts;
    var id := f.ids[name];
    var d :| IsDeriv(env, Ref(name), d) && Spell(d) == w;
    assert DefLinked(f, env, origin, name);
    hide Linked;
    var s, t := BuildAlts(f, env, origin, origin[name], name, env[name], id, d);
    assert Lang(f.rules, f.rules[id][s..], w);
  }

  /** The compiled rules mean what the definitions mean, for every name in the text: its rule in
      the flat table derives exactly the words that its definition in force derives. */
  lemma CompiledMeaning(defs: seq<Def>, name: Name, w: Word)
    requires forall i :: 0 <= i < |defs| ==> DefOk(defs[i])
    requires Plain(name) && name in CompileDefs(defs).ids
    ensures RuleLang(CompileDefs(defs).rules, CompileDefs(defs).ids[name], w) <==> Means(EnvOf(defs), name, w)
  {
    hide Inv, Linked, RuleLang, Means;
    CompileDefsLinked(defs);
    var f, env, origin := CompileDefs(defs), EnvOf(defs), OriginOf(defs);
    if RuleLang(f.rules, f.ids[name], w) {
      RuleToMeaning(f, env, origin, name, w);
    }
    if Means(env, name, w) {
      MeaningToRule(f, env, origin, name, w);
    }
  }
}
