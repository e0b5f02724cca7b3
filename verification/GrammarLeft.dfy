/** Left recursion as it is written: when the compiled rules of a text are left recursive, and when all its
    names are defined, said of the definitions. */
module GrammarLeft {
  import opened Seqs
  import opened GrammarRules
  import opened GrammarText
  import opened GrammarCompile
  import opened GrammarMeaning
  import opened GrammarEngine
  import GrammarParser
  import GrammarFilter

  // ----- left recursion of definitions

  ghost predicate Nullable(env: Env, s: Sym) {
    exists d :: IsDeriv(env, s, d) && Spell(d) == []
  }

  /** The first `n` symbols can all be empty. */
  ghost predicate Vanish(env: Env, syms: seq<Sym>, n: nat)
    requires n <= |syms|
  {
    forall i :: 0 <= i < n ==> Nullable(env, syms[i])
  }

  /** The symbol can begin with a reference to `name`. */
  ghost predicate SymHead(env: Env, s: Sym, name: Name)
    decreases s, 0
  {
    match s
    case Term(_) => false
    case Ref(n) => n == name
    case Group(alts) => AltsHead(env, alts, name)
    case Repeat(_, body) => SymHead(env, body, name)
  }

  ghost predicate AltsHead(env: Env, alts: seq<Alternative>, name: Name)
    decreases alts, 1
  {
    exists k, i :: 0 <= k < |alts| && 0 <= i < |alts[k].syms| && Vanish(env, alts[k].syms, i) &&
      SymHead(env, alts[k].syms[i], name)
  }

  /** `path` follows the names that definitions can begin with. */
  ghost predicate NamePath(env: Env, path: seq<Name>) {
    |path| > 0 && forall i :: 0 <= i < |path| - 1 ==> NameEdge(env, path[i], path[i + 1])
  }

  ghost predicate NameEdge(env: Env, a: Name, b: Name) {
    a in env && AltsHead(env, env[a], b)
  }

  ghost predicate NamesRecursive(env: Env) {
    exists path :: NamePath(env, path) && |path| > 1 && path[0] == path[|path| - 1]
  }

  /** Somewhere in the symbol something that can be empty is starred or plussed. */
  ghost predicate Loops(env: Env, s: Sym)
    decreases s, 0
  {
    match s
    case Term(_) => false
    case Ref(_) => false
    case Group(alts) => AltsLoop(env, alts)
    case Repeat(op, body) => (op != Opt && Nullable(env, body)) || Loops(env, body)
  }

  ghost predicate AltsLoop(env: Env, alts: seq<Alternative>)
    decreases alts, 1
  {
    exists k, i :: 0 <= k < |alts| && 0 <= i < |alts[k].syms| && Loops(env, alts[k].syms[i])
  }

  ghost predicate DefsLoop(env: Env, defs: seq<Def>) {
    exists i :: 0 <= i < |defs| && AltsLoop(env, defs[i].alts)
  }

  // ----- compiled pieces

  /** The final tables of a text, its definitions in force, and where they were compiled from. */
  datatype Text = Text(f: St, env: Env, origin: map<Name, St>)

  ghost predicate Ok(x: Text) {
    Linked(x.f, x.env, x.origin) && Inv(x.f)
  }

  ghost predicate SymIn(x: Text, st: St, base: Name, s: Sym) {
    Inv(st) && Plain(base) && SymOk(s) && Extends(x.f, CompileSym(st, base, s).0)
  }

  ghost predicate SeqIn(x: Text, st: St, base: Name, syms: seq<Sym>) {
    Inv(st) && Plain(base) && SeqOk(syms) && Extends(x.f, CompileSeq(st, base, syms).0)
  }

  /** The alternatives are compiled to rule `id`. */
  ghost predicate AltsIn(x: Text, st: St, base: Name, alts: seq<Alternative>, id: nat) {
    && Inv(st) && Plain(base) && AltsOk(alts) && Extends(x.f, CompileAlts(st, base, alts).0)
    && RuleAt(x.f, id) == CompileAlts(st, base, alts).1 + [End]
  }

  lemma SymElems(st: St, base: Name, s: Sym)
    ensures var es := CompileSym(st, base, s).1;
            if s.Term? then es == s.es else |es| == 1 && es[0].RuleRef?
  {
  }

  lemma SeqParts(x: Text, st: St, base: Name, syms: seq<Sym>)
    requires SeqIn(x, st, base, syms) && syms != []
    ensures var n := |syms| - 1; var (st1, es) := CompileSeq(st, base, syms[..n]);
            && SeqIn(x, st, base, syms[..n]) && SymIn(x, st1, base, syms[n])
            && CompileSeq(st, base, syms).1 == es + CompileSym(st1, base, syms[n]).1
  {
    hide Inv, Grows, NewDefined, PieceOk, RefsBelow, CompileSym, Extends;
    var n := |syms| - 1;
    CompileSeqGrows(st, base, syms[..n]);
    var st1 := CompileSeq(st, base, syms[..n]).0;
    CompileSymGrows(st1, base, syms[n]);
    ExtendsBack(x.f, st1, CompileSym(st1, base, syms[n]).0);
  }

  // ----- what can be empty

  ghost predicate EmptyRef(g: Rules, e: Elem) {
    e.RuleRef? && RuleLang(g, e.rule, [])
  }

  ghost predicate AllEmpty(g: Rules, es: seq<Elem>) {
    forall i :: 0 <= i < |es| ==> EmptyRef(g, es[i])
  }

  /** A symbol can be empty exactly when its elements are references to rules that can. */
  lemma NullableIff(x: Text, st: St, base: Name, s: Sym)
    requires Ok(x) && SymIn(x, st, base, s)
    ensures Nullable(x.env, s) <==> AllEmpty(x.f.rules, CompileSym(st, base, s).1)
  {
    hide Linked, Inv, Extends, CompileSym, IsDeriv, Spell, SymOk;
    var g, es := x.f.rules, CompileSym(st, base, s).1;
    SymElems(st, base, s);
    assert es + [] == es;
    if Nullable(x.env, s) {
      var d :| IsDeriv(x.env, s, d) && Spell(d) == [];
      var t := BuildSym(x.f, x.env, x.origin, st, base, s, [], d, Done);
      TreeEmpty(x, st, base, s, t);
    }
    if AllEmpty(g, es) {
      var t := EmptyTree(x, st, base, s);
      var d, t2 := ExtractSym(x.f, x.env, x.origin, st, base, s, [], t);
      assert Spell(d) == [];
    }
  }

  lemma TreeEmpty(x: Text, st: St, base: Name, s: Sym, t: Tree)
    requires SymOk(s) && IsTree(x.f.rules, CompileSym(st, base, s).1, t) && Yield(t) == []
    ensures AllEmpty(x.f.rules, CompileSym(st, base, s).1)
  {
    hide CompileSym;
    var g, es := x.f.rules, CompileSym(st, base, s).1;
    SymElems(st, base, s);
    if s.Term? {
      if es != [] {
        assert false;
      }
    } else {
      assert es == [es[0]] + [];
      CallTree(g, es[0].rule, [], t);
      assert Lang(g, g[es[0].rule][t.alt..], []);
    }
  }

  lemma EmptyTree(x: Text, st: St, base: Name, s: Sym) returns (t: Tree)
    requires SymOk(s) && AllEmpty(x.f.rules, CompileSym(st, base, s).1)
    ensures IsTree(x.f.rules, CompileSym(st, base, s).1, t) && Yield(t) == []
  {
    hide CompileSym;
    var g, es := x.f.rules, CompileSym(st, base, s).1;
    SymElems(st, base, s);
    if es == [] {
      t := Done;
    } else {
      assert EmptyRef(g, es[0]);
      if s.Term? {
        TermNoRefs(es);
      } else {
        var id := es[0].rule;
        var k: nat :| AltStart(g, id, k) && Lang(g, g[id][k..], []);
        var sub :| IsTree(g, g[id][k..], sub) && Yield(sub) == [];
        t := Call(k, sub, Done);
        assert es == [RuleRef(id)] + [];
        CallTree(g, id, [], t);
      }
    }
  }

  lemma TermNoRefs(es: seq<Elem>)
    requires TermOk(es) && es != []
    ensures !es[0].RuleRef?
  {
  }

  /** The same for symbols one after the other. */
  lemma {:induction false} VanishIff(x: Text, st: St, base: Name, syms: seq<Sym>)
    requires Ok(x) && SeqIn(x, st, base, syms)
    ensures Vanish(x.env, syms, |syms|) <==> AllEmpty(x.f.rules, CompileSeq(st, base, syms).1)
    decreases |syms|
  {
    if syms != [] {
      hide Ok, CompileSeq, CompileSym, SymIn, SeqIn, Nullable, EmptyRef;
      var n := |syms| - 1;
      SeqParts(x, st, base, syms);
      var (st1, es) := CompileSeq(st, base, syms[..n]);
      VanishIff(x, st, base, syms[..n]);
      NullableIff(x, st1, base, syms[n]);
      VanishSnoc(x.env, syms);
      EmptyConcat(x.f.rules, es, CompileSym(st1, base, syms[n]).1);
    }
  }

  lemma VanishSnoc(env: Env, syms: seq<Sym>)
    requires syms != []
    ensures var n := |syms| - 1; Vanish(env, syms, |syms|) <==> Vanish(env, syms[..n], n) && Nullable(env, syms[n])
  {
    hide Nullable;
    var n := |syms| - 1;
    assert forall i :: 0 <= i < n ==> syms[..n][i] == syms[i];
  }

  lemma EmptyConcat(g: Rules, a: seq<Elem>, b: seq<Elem>)
    ensures AllEmpty(g, a + b) <==> AllEmpty(g, a) && AllEmpty(g, b)
  {
    hide EmptyRef;
    if AllEmpty(g, a + b) {
      forall i | 0 <= i < |a|
        ensures EmptyRef(g, a[i])
      {
        assert (a + b)[i] == a[i];
      }
      forall i | 0 <= i < |b|
        ensures EmptyRef(g, b[i])
      {
        assert (a + b)[|a| + i] == b[i];
      }
    }
  }

  // ----- left edges of compiled rules, down to symbols

  /** Symbol `u` is compiled to a reference to rule `id`. */
  ghost predicate From(x: Text, u: Sym, id: nat) {
    !u.Term? && exists st, base :: SymIn(x, st, base, u) && CompileSym(st, base, u).1 == [RuleRef(id)]
  }

  /** `v` is one of the symbols of the alternatives, and those before it can be empty. */
  ghost predicate AltsChild(env: Env, alts: seq<Alternative>, v: Sym) {
    exists k, i :: 0 <= k < |alts| && 0 <= i < |alts[k].syms| && Vanish(env, alts[k].syms, i) && alts[k].syms[i] == v
  }

  /** What the first call of `u` can lead to. */
  ghost predicate Child(env: Env, u: Sym, v: Sym) {
    match u
    case Term(_) => false
    case Ref(name) => name in env && AltsChild(env, env[name], v)
    case Group(alts) => AltsChild(env, alts, v)
    case Repeat(op, body) => v == body || (v == u && op != Opt && Nullable(env, body))
  }

  /** Before a left position there are only references that can be empty, back to the start of its
      alternative. */
  lemma {:induction false} LeftRun(g: Rules, r: nat, i: nat) returns (s: nat)
    requires LeftPos(g, r, i)
    ensures s <= i < |g[r]| && AltStart(g, r, s) && AllEmpty(g, g[r][s..i])
    decreases i
  {
    if AltStart(g, r, i) {
      s := i;
    } else {
      s := LeftRun(g, r, i - 1);
      assert g[r][s..i] == g[r][s..i - 1] + [g[r][i - 1]];
      EmptyConcat(g, g[r][s..i - 1], [g[r][i - 1]]);
    }
  }

  /** A reference among the elements of a sequence comes from one of its symbols. */
  lemma {:induction false} SeqDown(x: Text, st: St, base: Name, syms: seq<Sym>, o: nat, b: nat) returns (i: nat)
    requires Ok(x) && SeqIn(x, st, base, syms)
    requires var es := CompileSeq(st, base, syms).1;
             o < |es| && es[o] == RuleRef(b) && AllEmpty(x.f.rules, es[..o])
    ensures i < |syms| && Vanish(x.env, syms, i) && From(x, syms[i], b)
    decreases |syms|
  {
    hide Ok, CompileSym, SymIn, SeqIn, Nullable, EmptyRef;
    var n := |syms| - 1;
    SeqParts(x, st, base, syms);
    var (st1, es) := CompileSeq(st, base, syms[..n]);
    var e := CompileSym(st1, base, syms[n]).1;
    if o < |es| {
      assert (es + e)[..o] == es[..o];
      i := SeqDown(x, st, base, syms[..n], o, b);
      assert syms[..n][i] == syms[i] && forall j :: 0 <= j < i ==> syms[..n][j] == syms[j];
    } else {
      i := n;
      assert (es + e)[..o] == es + e[..o - |es|];
      EmptyConcat(x.f.rules, es, e[..o - |es|]);
      VanishIff(x, st, base, syms[..n]);
      assert forall j :: 0 <= j < n ==> syms[..n][j] == syms[j];
      RefDown(x, st1, base, syms[n], o - |es|, b);
    }
  }

  /** A reference among the elements of a symbol is all of it. */
  lemma RefDown(x: Text, st: St, base: Name, s: Sym, o: nat, b: nat)
    requires SymIn(x, st, base, s)
    requires var es := CompileSym(st, base, s).1; o < |es| && es[o] == RuleRef(b)
    ensures o == 0 && CompileSym(st, base, s).1 == [RuleRef(b)] && From(x, s, b)
  {
    hide CompileSym, Inv, Extends;
    SymElems(st, base, s);
    if s.Term? {
      TermNoRef(s.es, o);
    }
  }

  lemma TermNoRef(es: seq<Elem>, o: nat)
    requires TermOk(es) && o < |es|
    ensures !es[o].RuleRef?
  {
  }

  /** The left edges of a rule made of alternatives. */
  lemma AltsDown(x: Text, st: St, base: Name, alts: seq<Alternative>, id: nat, b: nat) returns (v: Sym)
    requires Ok(x) && AltsIn(x, st, base, alts, id) && LeftEdge(x.f.rules, id, b)
    ensures AltsChild(x.env, alts, v) && From(x, v, b)
  {
    hide Linked, Inv, Extends, CompileAlts, CompileSeq, Nullable, EmptyRef, From, AltsOk;
    var g := x.f.rules;
    var p: nat :| LeftPos(g, id, p) && g[id][p] == RuleRef(b);
    var s := LeftRun(g, id, p);
    var rule := CompileAlts(st, base, alts).1;
    assert g[id] == rule + [End];
    var k, stk, tail := FindAlt(st, base, alts, s);
    var (st2, es) := CompileSeq(stk, base, alts[k].syms);
    ExtendsBack(x.f, st2, CompileAlts(st, base, alts).0);
    DropConcat(rule, [End], s);
    Assoc(es, tail, [End]);
    var o := p - s;
    AltPart(g, g[id], s, p, es, tail);
    AltsSyms(alts, k);
    var i := SeqDown(x, stk, base, alts[k].syms, o, b);
    v := alts[k].syms[i];
  }

  lemma AltsSyms(alts: seq<Alternative>, k: nat)
    requires AltsOk(alts) && k < |alts|
    ensures SeqOk(alts[k].syms)
  {
  }

  lemma AllRefs(g: Rules, rule: seq<Elem>, s: nat, p: nat)
    requires s <= p <= |rule| && AllEmpty(g, rule[s..p])
    ensures forall j :: s <= j < p ==> rule[j].RuleRef?
  {
    forall j | s <= j < p
      ensures rule[j].RuleRef?
    {
      assert EmptyRef(g, rule[s..p][j - s]);
    }
  }

  /** A left position is in the sequence that its alternative begins with. */
  lemma AltPart(g: Rules, rule: seq<Elem>, s: nat, p: nat, es: seq<Elem>, tail: seq<Elem>)
    requires s <= p < |rule| && rule[s..] == es + (tail + [End]) && (tail == [] || tail[0].Alt?)
    requires rule[p].RuleRef? && AllEmpty(g, rule[s..p])
    ensures p - s < |es| && es[p - s] == rule[p] && es[..p - s] == rule[s..p]
  {
    var o := p - s;
    var r := rule[s..];
    assert r[o] == rule[p];
    assert r[|es|] == (tail + [End])[0] && rule[s + |es|] == r[|es|];
    AllRefs(g, rule, s, p);
    if o >= |es| {
      assert false;
    }
    assert rule[s..p] == r[..o];
  }

  /** The left edges of a repetition: its body, and itself when the body can be empty. */
  lemma RepeatDown(x: Text, st: St, base: Name, op: Op, body: Sym, b: nat) returns (v: Sym)
    requires Ok(x) && SymIn(x, st, base, Repeat(op, body))
    requires LeftEdge(x.f.rules, |CompileSym(st, base, body).0.ids|, b)
    ensures Child(x.env, Repeat(op, body), v) && From(x, v, b)
  {
    hide Linked, Inv, Extends, Nullable, EmptyRef, From, RepeatRule;
    var g := x.f.rules;
    RepeatKept(x.f, st, base, op, body);
    var (st1, es) := CompileSym(st, base, body);
    var id := |st1.ids|;
    assert CompileSym(st, base, Repeat(op, body)).1 == [RuleRef(id)];
    hide CompileSym;
    var p: nat :| LeftPos(g, id, p) && g[id][p] == RuleRef(b);
    var s := LeftRun(g, id, p);
    RepeatAlts(op, id, es, s);
    var o := p - s;
    if s == 0 {
      var again := o == |es| && !op.Opt?;
      FirstPart(g, g[id], p, es, op, id);
      if again {
        assert g[id][0..p] == es;
        NullableIff(x, st, base, body);
        v := Repeat(op, body);
        FromThis(x, st, base, v, id);
      } else {
        RefDown(x, st, base, body, o, b);
        v := body;
      }
    } else {
      var last := if op.Plus? then es else [];
      AltPart(g, g[id], s, p, last, []);
      RefDown(x, st, base, body, o, b);
      v := body;
    }
  }

  lemma FromThis(x: Text, st: St, base: Name, u: Sym, id: nat)
    requires SymIn(x, st, base, u) && !u.Term? && CompileSym(st, base, u).1 == [RuleRef(id)]
    ensures From(x, u, id)
  {
  }

  /** A left position in the first alternative of a repetition. */
  lemma FirstPart(g: Rules, rule: seq<Elem>, p: nat, es: seq<Elem>, op: Op, id: nat)
    requires p < |rule| && rule[0..] == es + AfterFirst(op, id, es)
    requires rule[p].RuleRef? && AllEmpty(g, rule[0..p])
    ensures if p == |es| && !op.Opt? then rule[p] == RuleRef(id) && rule[0..p] == es
            else p < |es| && es[p] == rule[p]
  {
    var again := if op.Opt? then [] else [RuleRef(id)];
    var n := |es| + |again|;
    assert rule[0..] == rule;
    assert rule[n].Alt?;
    AllRefs(g, rule, 0, p);
    assert p < n;
  }

  /** A left edge leads from a symbol to what it can begin with. */
  lemma EdgeDown(x: Text, u: Sym, a: nat, b: nat) returns (v: Sym)
    requires Ok(x) && From(x, u, a) && LeftEdge(x.f.rules, a, b)
    ensures Child(x.env, u, v) && From(x, v, b)
  {
    hide Linked, Inv, Extends, LeftEdge, Nullable, AltsChild;
    var st, base :| SymIn(x, st, base, u) && CompileSym(st, base, u).1 == [RuleRef(a)];
    match u
    case Ref(name) =>
      EdgeRule(x.f.rules, a, b);
      RefKept(x.f, x.env, x.origin, st, name, 0);
      DefinedIn(x, name);
      v := AltsDown(x, x.origin[name], name, x.env[name], a, b);
    case Group(alts) =>
      GroupKept(x.f, st, base, alts);
      v := AltsDown(x, GenId(st, base).0, base, alts, a, b);
    case Repeat(op, body) =>
      v := RepeatDown(x, st, base, op, body, b);
  }

  lemma EdgeRule(g: Rules, a: nat, b: nat)
    requires LeftEdge(g, a, b)
    ensures AltStart(g, a, 0)
  {
  }

  lemma DefinedIn(x: Text, name: Name)
    requires Ok(x) && name in x.env
    ensures name in x.origin && name in x.f.ids && AltsIn(x, x.origin[name], name, x.env[name], x.f.ids[name])
  {
    hide Inv, Extends, CompileAlts, AltsOk;
    assert DefLinked(x.f, x.env, x.origin, name);
  }

  // ----- from left paths of rules to names

  lemma ChildHead(env: Env, u: Sym, v: Sym, name: Name)
    requires Child(env, u, v) && SymHead(env, v, name)
    ensures if u.Ref? then NameEdge(env, u.name, name) else SymHead(env, u, name)
  {
    hide Nullable, Vanish;
    match u
    case Ref(n) => AltsChildHead(env, env[n], v, name);
    case Group(alts) => AltsChildHead(env, alts, v, name);
    case Repeat(op, body) =>
  }

  lemma AltsChildHead(env: Env, alts: seq<Alternative>, v: Sym, name: Name)
    requires AltsChild(env, alts, v) && SymHead(env, v, name)
    ensures AltsHead(env, alts, name)
  {
    hide SymHead, Vanish;
    var k, i :| 0 <= k < |alts| && 0 <= i < |alts[k].syms| && Vanish(env, alts[k].syms, i) && alts[k].syms[i] == v;
    assert SymHead(env, alts[k].syms[i], name);
  }

  /** Rule `id` belongs to a name that was written. */
  ghost predicate IsName(x: Text, name: Name, id: nat) {
    Plain(name) && name in x.f.ids && x.f.ids[name] == id
  }

  /** What is compiled to the rule of a name is a reference to the name; all else is compiled to a synthesized
      rule. */
  lemma FromName(x: Text, u: Sym, id: nat)
    requires Ok(x) && From(x, u, id)
    ensures u.Ref? ==> IsName(x, u.name, id)
    ensures !u.Ref? ==> forall name :: !IsName(x, name, id)
    ensures forall name :: IsName(x, name, id) ==> u == Ref(name)
  {
    hide Linked, RuleAt;
    var st, base :| SymIn(x, st, base, u) && CompileSym(st, base, u).1 == [RuleRef(id)];
    match u
    case Ref(name) =>
      GetIdGrows(st, name);
    case Group(alts) =>
      CompileGroupName(st, base, alts);
      SynthNotPlain(base, id);
      SynthOther(x, SynthName(base, id), id);
    case Repeat(op, body) =>
      CompileRepeatName(st, base, op, body);
      SynthNotPlain(base, id);
      SynthOther(x, SynthName(base, id), id);
  }

  lemma SynthOther(x: Text, synth: Name, id: nat)
    requires Ok(x) && !Plain(synth) && synth in x.f.ids && x.f.ids[synth] == id
    ensures forall name :: !IsName(x, name, id)
  {
    hide Linked;
  }

  lemma CompileGroupName(st: St, base: Name, alts: seq<Alternative>)
    requires Inv(st) && Plain(base) && AltsOk(alts)
    ensures var ids := CompileSym(st, base, Group(alts)).0.ids;
            SynthName(base, |st.ids|) in ids && ids[SynthName(base, |st.ids|)] == |st.ids|
  {
    hide Inv, RuleAt, CompileAlts, AltsOk;
    GenIdGrows(st, base);
    CompileAltsGrows(GenId(st, base).0, base, alts);
  }

  lemma CompileRepeatName(st: St, base: Name, op: Op, body: Sym)
    requires Inv(st) && Plain(base) && SymOk(body)
    ensures var id := |CompileSym(st, base, body).0.ids|; var ids := CompileSym(st, base, Repeat(op, body)).0.ids;
            SynthName(base, id) in ids && ids[SynthName(base, id)] == id
  {
  }

  ghost predicate NameRule(x: Text, id: nat) {
    exists name :: IsName(x, name, id)
  }

  /** The names that a left path of rules goes through, to the name that it ends with. */
  lemma {:induction false} FollowNames(x: Text, path: seq<nat>, u: Sym, last: Name) returns (names: seq<Name>)
    requires Ok(x) && LeftPath(x.f.rules, path) && From(x, u, path[0]) && IsName(x, last, path[|path| - 1])
    ensures NamePath(x.env, names) && names[|names| - 1] == last && SymHead(x.env, u, names[0])
    ensures u.Ref? && |path| > 1 ==> |names| > 1
    decreases |path|
  {
    hide Ok, From, LeftEdge, SymHead, Child, IsName;
    if |path| == 1 {
      FromName(x, u, path[0]);
      names := [last];
      RefHead(x.env, last);
    } else {
      assert LeftEdge(x.f.rules, path[0], path[0 + 1]);
      var v := EdgeDown(x, u, path[0], path[1]);
      PathTail(x.f.rules, path);
      var more := FollowNames(x, path[1..], v, last);
      ChildHead(x.env, u, v, more[0]);
      if u.Ref? {
        names := [u.name] + more;
        NameCons(x.env, u.name, more);
        RefHead(x.env, u.name);
      } else {
        names := more;
      }
    }
  }

  lemma RefHead(env: Env, name: Name)
    ensures SymHead(env, Ref(name), name)
  {
  }

  lemma NameCons(env: Env, a: Name, path: seq<Name>)
    requires NamePath(env, path) && NameEdge(env, a, path[0])
    ensures NamePath(env, [a] + path)
  {
    hide NameEdge;
    var all := [a] + path;
    forall i | 0 <= i < |all| - 1
      ensures NameEdge(env, all[i], all[i + 1])
    {
      if i > 0 {
        assert NameEdge(env, path[i - 1], path[i - 1 + 1]);
      }
    }
  }

  lemma PathTail(g: Rules, path: seq<nat>)
    requires LeftPath(g, path) && |path| > 1
    ensures LeftPath(g, path[1..])
  {
    hide LeftEdge;
    forall i | 0 <= i < |path[1..]| - 1
      ensures LeftEdge(g, path[1..][i], path[1..][i + 1])
    {
      assert LeftEdge(g, path[i + 1], path[i + 1 + 1]);
    }
  }

  // ----- without loops, paths between synthesized rules go down

  function SymSize(s: Sym): nat
    decreases s, 0
  {
    match s
    case Term(_) => 0
    case Ref(_) => 0
    case Group(alts) => 1 + AltsSize(alts)
    case Repeat(_, body) => 1 + SymSize(body)
  }

  function SeqSize(syms: seq<Sym>): nat
    decreases syms, 1
  {
    if syms == [] then 0 else SymSize(syms[0]) + SeqSize(syms[1..])
  }

  function AltsSize(alts: seq<Alternative>): nat
    decreases alts, 2
  {
    if alts == [] then 0 else SeqSize(alts[0].syms) + AltsSize(alts[1..])
  }

  lemma {:induction false} SeqBigger(syms: seq<Sym>, i: nat)
    requires i < |syms|
    ensures SymSize(syms[i]) <= SeqSize(syms)
    decreases i
  {
    if i > 0 {
      SeqBigger(syms[1..], i - 1);
    }
  }

  lemma {:induction false} AltsBigger(alts: seq<Alternative>, k: nat)
    requires k < |alts|
    ensures SeqSize(alts[k].syms) <= AltsSize(alts)
    decreases k
  {
    if k > 0 {
      AltsBigger(alts[1..], k - 1);
    }
  }

  lemma ChildSmaller(env: Env, u: Sym, v: Sym)
    requires Child(env, u, v) && !u.Ref? && !Loops(env, u)
    ensures SymSize(v) < SymSize(u) && !Loops(env, v)
  {
    hide Nullable, Vanish;
    match u
    case Group(alts) =>
      var k, i :| 0 <= k < |alts| && 0 <= i < |alts[k].syms| && Vanish(env, alts[k].syms, i) && alts[k].syms[i] == v;
      AltsBigger(alts, k);
      SeqBigger(alts[k].syms, i);
      assert !Loops(env, alts[k].syms[i]);
    case Repeat(op, body) =>
  }

  lemma {:induction false} Shrinks(x: Text, path: seq<nat>, u: Sym) returns (v: Sym)
    requires Ok(x) && LeftPath(x.f.rules, path) && From(x, u, path[0]) && !Loops(x.env, u)
    requires forall i :: 0 <= i < |path| ==> !NameRule(x, path[i])
    ensures From(x, v, path[|path| - 1]) && !Loops(x.env, v) && SymSize(v) + |path| - 1 <= SymSize(u)
    decreases |path|
  {
    hide Ok, From, LeftEdge, Child, NameRule, Loops, SymSize;
    if |path| == 1 {
      v := u;
    } else {
      assert LeftEdge(x.f.rules, path[0], path[0 + 1]);
      var w := EdgeDown(x, u, path[0], path[1]);
      SynthNotRef(x, u, path[0]);
      ChildSmaller(x.env, u, w);
      PathTail(x.f.rules, path);
      v := Shrinks(x, path[1..], w);
    }
  }

  lemma SynthNotRef(x: Text, u: Sym, id: nat)
    requires Ok(x) && From(x, u, id) && !NameRule(x, id)
    ensures !u.Ref?
  {
    hide Ok, From, IsName;
    FromName(x, u, id);
  }

  /** A cycle of synthesized rules is impossible. */
  lemma {:induction false} NoSynthCycle(x: Text, path: seq<nat>, u: Sym)
    requires Ok(x) && LeftPath(x.f.rules, path) && From(x, u, path[0]) && !Loops(x.env, u)
    requires forall i :: 0 <= i < |path| ==> !NameRule(x, path[i])
    requires |path| > 1 && path[0] == path[|path| - 1]
    ensures false
    decreases SymSize(u)
  {
    hide Ok, From, NameRule, Loops, SymSize, LeftPath;
    var v := Shrinks(x, path, u);
    NoSynthCycle(x, path, v);
  }

  lemma PathJoin(g: Rules, p: seq<nat>, q: seq<nat>)
    requires LeftPath(g, p) && LeftPath(g, q) && p[|p| - 1] == q[0]
    ensures LeftPath(g, p + q[1..]) && (p + q[1..])[|p + q[1..]| - 1] == q[|q| - 1]
  {
    hide LeftEdge;
    var all := p + q[1..];
    forall i | 0 <= i < |all| - 1
      ensures LeftEdge(g, all[i], all[i + 1])
    {
      if i < |p| - 1 {
        assert LeftEdge(g, p[i], p[i + 1]);
      } else {
        var j := i - (|p| - 1);
        assert LeftEdge(g, q[j], q[j + 1]);
      }
    }
  }

  lemma PathSlice(g: Rules, path: seq<nat>, a: nat, b: nat)
    requires LeftPath(g, path) && a < b <= |path|
    ensures LeftPath(g, path[a..b])
  {
    hide LeftEdge;
    var p := path[a..b];
    forall i | 0 <= i < |p| - 1
      ensures LeftEdge(g, p[i], p[i + 1])
    {
      assert LeftEdge(g, path[a + i], path[a + i + 1]);
    }
  }

  lemma FromRef(x: Text, name: Name, id: nat)
    requires Ok(x) && IsName(x, name, id)
    ensures From(x, Ref(name), id)
  {
    assert Extends(x.f, x.f);
    assert SymIn(x, x.f, name, Ref(name));
  }

  /** A cycle through the rule of a name is a cycle of names. */
  lemma NameCycle(x: Text, path: seq<nat>, i: nat, name: Name)
    requires Ok(x) && LeftPath(x.f.rules, path) && |path| > 1 && path[0] == path[|path| - 1] && i < |path|
    requires IsName(x, name, path[i])
    ensures NamesRecursive(x.env)
  {
    hide Ok, From, IsName, LeftPath, SymHead, NameEdge;
    var g := x.f.rules;
    PathSlice(g, path, i, |path|);
    PathSlice(g, path, 0, i + 1);
    PathJoin(g, path[i..|path|], path[0..i + 1]);
    var round := path[i..|path|] + path[0..i + 1][1..];
    FromRef(x, name, path[i]);
    var names := FollowNames(x, round, Ref(name), name);
    RefOnly(x.env, name, names[0]);
  }

  lemma RefOnly(env: Env, a: Name, b: Name)
    requires SymHead(env, Ref(a), b)
    ensures a == b
  {
  }

  // ----- every synthesized rule comes from a symbol

  ghost predicate CleanFrom(x: Text, id: nat) {
    exists u :: From(x, u, id) && !Loops(x.env, u)
  }

  /** The synthesized names that `b` has and `a` has not are covered. */
  ghost predicate Covered(x: Text, a: St, b: St) {
    forall name :: name in b.ids && name !in a.ids && !Plain(name) ==> CleanFrom(x, b.ids[name])
  }

  lemma CoveredTrans(x: Text, a: St, b: St, c: St)
    requires Covered(x, a, b) && Covered(x, b, c) && Grows(b, c)
    ensures Covered(x, a, c)
  {
    hide CleanFrom, RuleAt;
  }

  lemma {:induction false} CoverSym(x: Text, st: St, base: Name, s: Sym)
    requires Ok(x) && SymIn(x, st, base, s) && !Loops(x.env, s)
    ensures Covered(x, st, CompileSym(st, base, s).0)
    decreases s, 0
  {
    hide Linked, Extends, Inv, CleanFrom, Covered, Grows, Nullable, From, CompileAlts, AltsOk;
    match s
    case Term(es) =>
      CoveredNone(x, st, base, s);
    case Ref(name) =>
      CoveredNone(x, st, base, s);
    case Group(alts) =>
      GroupKept(x.f, st, base, alts);
      var (st1, id) := GenId(st, base);
      CoverAlts(x, st1, base, alts);
      FromThis(x, st, base, s, id);
      Found(x, s, id);
      CoveredGroup(x, st, base, alts);
    case Repeat(op, body) =>
      RepeatKept(x.f, st, base, op, body);
      CoverSym(x, st, base, body);
      var id := |CompileSym(st, base, body).0.ids|;
      FromThis(x, st, base, s, id);
      Found(x, s, id);
      CoveredRepeat(x, st, base, op, body);
  }

  lemma CoveredNone(x: Text, st: St, base: Name, s: Sym)
    requires SymOk(s) && (s.Term? || s.Ref?)
    ensures Covered(x, st, CompileSym(st, base, s).0)
  {
    hide CleanFrom;
  }

  lemma CoveredGroup(x: Text, st: St, base: Name, alts: seq<Alternative>)
    requires Inv(st) && Plain(base) && AltsOk(alts) && CleanFrom(x, |st.ids|)
    requires var st1 := GenId(st, base).0; Covered(x, st1, CompileAlts(st1, base, alts).0)
    ensures Covered(x, st, CompileSym(st, base, Group(alts)).0)
  {
    hide Inv, CleanFrom, CompileAlts, RuleAt, WellFormedBody, RefsBelow, NewDefined, AltsOk;
    GenIdGrows(st, base);
    CompileAltsGrows(GenId(st, base).0, base, alts);
  }

  lemma CoveredRepeat(x: Text, st: St, base: Name, op: Op, body: Sym)
    requires Covered(x, st, CompileSym(st, base, body).0) && CleanFrom(x, |CompileSym(st, base, body).0.ids|)
    ensures Covered(x, st, CompileSym(st, base, Repeat(op, body)).0)
  {
    hide CleanFrom;
  }

  lemma Found(x: Text, u: Sym, id: nat)
    requires From(x, u, id) && !Loops(x.env, u)
    ensures CleanFrom(x, id)
  {
  }

  lemma {:induction false} CoverSeq(x: Text, st: St, base: Name, syms: seq<Sym>)
    requires Ok(x) && SeqIn(x, st, base, syms) && forall i :: 0 <= i < |syms| ==> !Loops(x.env, syms[i])
    ensures Covered(x, st, CompileSeq(st, base, syms).0)
    decreases syms, 1
  {
    if syms != [] {
      hide Ok, CompileSym, Loops, SymIn, Covered, Grows, NewDefined, PieceOk, RefsBelow;
      var n := |syms| - 1;
      SeqParts(x, st, base, syms);
      CoverSeq(x, st, base, syms[..n]);
      var st1 := CompileSeq(st, base, syms[..n]).0;
      CoverSym(x, st1, base, syms[n]);
      StateOk(x, st1, base, syms[n]);
      CompileSymGrows(st1, base, syms[n]);
      CoveredTrans(x, st, st1, CompileSym(st1, base, syms[n]).0);
    }
  }

  lemma StateOk(x: Text, st: St, base: Name, s: Sym)
    requires SymIn(x, st, base, s)
    ensures Inv(st) && Plain(base) && SymOk(s)
  {
  }

  lemma {:induction false} CoverAlts(x: Text, st: St, base: Name, alts: seq<Alternative>)
    requires Ok(x) && Inv(st) && Plain(base) && (alts == [] || AltsOk(alts)) && !AltsLoop(x.env, alts)
    requires Extends(x.f, CompileAlts(st, base, alts).0)
    ensures Covered(x, st, CompileAlts(st, base, alts).0)
    decreases alts, 2
  {
    if alts != [] {
      hide Ok, CompileSeq, Loops, Inv, Covered, Grows, NewDefined, PieceOk, RefsBelow, WellFormedBody, Extends, SymOk;
      var n := |alts| - 1;
      CompileAltsGrows(st, base, alts[..n]);
      var st1 := CompileAlts(st, base, alts[..n]).0;
      CompileSeqGrows(st1, base, alts[n].syms);
      var st2 := CompileSeq(st1, base, alts[n].syms).0;
      ExtendsBack(x.f, st1, st2);
      LoopsPart(x.env, alts);
      CoverAlts(x, st, base, alts[..n]);
      CoverSeq(x, st1, base, alts[n].syms);
      CoveredTrans(x, st, st1, st2);
    }
  }

  lemma LoopsPart(env: Env, alts: seq<Alternative>)
    requires alts != [] && !AltsLoop(env, alts)
    ensures var n := |alts| - 1;
            !AltsLoop(env, alts[..n]) && forall i :: 0 <= i < |alts[n].syms| ==> !Loops(env, alts[n].syms[i])
  {
    hide Loops;
    var n := |alts| - 1;
    assert forall k :: 0 <= k < n ==> alts[..n][k] == alts[k];
  }

  // ----- whole texts

  ghost predicate AllOk(defs: seq<Def>) {
    forall i :: 0 <= i < |defs| ==> DefOk(defs[i])
  }

  ghost function TextOf(defs: seq<Def>): Text {
    Text(CompileDefs(defs), EnvOf(defs), OriginOf(defs))
  }

  lemma TextOk(defs: seq<Def>)
    requires AllOk(defs)
    ensures Ok(TextOf(defs)) && AllSynthDefined(CompileDefs(defs))
  {
    CompileDefsLinked(defs);
  }

  /** Later definitions keep what earlier ones were compiled to. */
  lemma {:induction false} PrefixExtends(defs: seq<Def>, i: nat)
    requires AllOk(defs) && i <= |defs|
    ensures Extends(CompileDefs(defs), CompileDefs(defs[..i])) && Inv(CompileDefs(defs[..i]))
    decreases |defs|
  {
    hide Inv, Extends, CompileDef, Grows, NewDefined, DefOk, GetId, CompileAlts;
    CompileDefsLinked(defs[..i]);
    if i == |defs| {
      assert defs[..i] == defs;
      ExtendsSelf(CompileDefs(defs));
    } else {
      var n := |defs| - 1;
      var st := CompileDefs(defs[..n]);
      PrefixExtends(defs[..n], i);
      assert defs[..n][..i] == defs[..i];
      CompileDefsLinked(defs[..n]);
      LastExtends(st, defs[n]);
      ExtendsTrans(CompileDefs(defs), st, CompileDefs(defs[..i]));
    }
  }

  lemma ExtendsSelf(st: St)
    ensures Extends(st, st)
  {
  }

  lemma LastExtends(st: St, def: Def)
    requires Inv(st) && DefOk(def)
    ensures var st1 := GetId(st, def.name).0;
            Inv(st1) && Extends(CompileDef(st, def), st) &&
            Extends(CompileDef(st, def), CompileAlts(st1, def.name, def.alts).0)
  {
    hide Inv, Extends, CompileDef, Grows, NewDefined, GetId, CompileAlts;
    CompileDefSteps(st, def);
    RedefineExtends(st, CompileAlts(GetId(st, def.name).0, def.name, def.alts).0, CompileDef(st, def), def.name);
  }

  /** Where definition `i` was compiled: also when it has been replaced, its synthesized rules are there. */
  lemma DefIn(defs: seq<Def>, i: nat) returns (st: St)
    requires AllOk(defs) && i < |defs|
    ensures st == GetId(CompileDefs(defs[..i]), defs[i].name).0
    ensures Inv(st) && Extends(CompileDefs(defs), CompileAlts(st, defs[i].name, defs[i].alts).0)
  {
    hide Inv, Extends, CompileDef, GetId, CompileAlts, DefOk;
    PrefixExtends(defs, i);
    PrefixExtends(defs, i + 1);
    st := GetId(CompileDefs(defs[..i]), defs[i].name).0;
    LastExtends(CompileDefs(defs[..i]), defs[i]);
    assert defs[..i + 1][..i] == defs[..i] && defs[..i + 1][i] == defs[i];
    ExtendsTrans(CompileDefs(defs), CompileDefs(defs[..i + 1]), CompileAlts(st, defs[i].name, defs[i].alts).0);
  }

  /** Every synthesized rule of a text comes from one of its symbols. */
  lemma {:induction false} CoverDefs(defs: seq<Def>, n: nat)
    requires AllOk(defs) && n <= |defs| && !DefsLoop(EnvOf(defs), defs)
    ensures Covered(TextOf(defs), St(map[], []), CompileDefs(defs[..n]))
    decreases n
  {
    if n > 0 {
      hide Ok, Inv, Extends, CompileDef, Covered, AltsLoop, CompileAlts, EnvOf, OriginOf, CompileDefs;
      var i := n - 1;
      var x := TextOf(defs);
      TextOk(defs);
      CoverDefs(defs, i);
      var st := DefIn(defs, i);
      CoverAlts(x, st, defs[i].name, defs[i].alts);
      PrefixExtends(defs, i);
      CoverDef(x, CompileDefs(defs[..i]), defs[i]);
      LastDef(defs, i);
    }
  }

  lemma LastDef(defs: seq<Def>, i: nat)
    requires i < |defs|
    ensures CompileDefs(defs[..i + 1]) == CompileDef(CompileDefs(defs[..i]), defs[i])
  {
    assert defs[..i + 1][..i] == defs[..i] && defs[..i + 1][i] == defs[i];
  }

  lemma CoverDef(x: Text, st: St, def: Def)
    requires Inv(st) && DefOk(def) && Covered(x, St(map[], []), st)
    requires var st1 := GetId(st, def.name).0; Covered(x, st1, CompileAlts(st1, def.name, def.alts).0)
    ensures Covered(x, St(map[], []), CompileDef(st, def))
  {
    hide Inv, CleanFrom, CompileAlts, CompileDef, RuleAt, AltsOk, NewDefined;
    CompileDefSteps(st, def);
    var f := CompileDef(st, def);
    forall name | name in f.ids && !Plain(name)
      ensures CleanFrom(x, f.ids[name])
    {
      if name in GetId(st, def.name).0.ids {
        assert name in st.ids && f.ids[name] == st.ids[name];
      }
    }
  }

  /** A rule that is there belongs to a name, or comes from a symbol without loops. */
  lemma RuleFrom(defs: seq<Def>, id: nat)
    requires AllOk(defs) && !DefsLoop(EnvOf(defs), defs) && id < |CompileDefs(defs).rules|
    ensures NameRule(TextOf(defs), id) || CleanFrom(TextOf(defs), id)
  {
    hide CleanFrom, EnvOf, OriginOf, CompileDefs, DefsLoop;
    var f := CompileDefs(defs);
    CompileDefsLinked(defs);
    CoverDefs(defs, |defs|);
    assert defs[..|defs|] == defs;
    assert HasId(f.ids, id);
    var name :| name in f.ids && f.ids[name] == id;
    if Plain(name) {
      assert IsName(TextOf(defs), name, id);
    }
  }

  /** Without loops and recursion in the text, the rules are not left recursive. */
  lemma NotRecursive(defs: seq<Def>)
    requires AllOk(defs) && !DefsLoop(EnvOf(defs), defs) && !NamesRecursive(EnvOf(defs))
    ensures NoLeftRecursion(CompileDefs(defs).rules)
  {
    hide Ok, EnvOf, OriginOf, CompileDefs, DefsLoop, LeftEdge, From, Loops, NamesRecursive;
    var x := TextOf(defs);
    TextOk(defs);
    forall path | LeftPath(x.f.rules, path) && |path| > 1
      ensures path[0] != path[|path| - 1]
    {
      if path[0] == path[|path| - 1] {
        NoCycle(defs, x, path);
      }
    }
  }

  lemma NoCycle(defs: seq<Def>, x: Text, path: seq<nat>)
    requires AllOk(defs) && !DefsLoop(EnvOf(defs), defs) && !NamesRecursive(EnvOf(defs)) && x == TextOf(defs) && Ok(x)
    requires LeftPath(x.f.rules, path) && |path| > 1 && path[0] == path[|path| - 1]
    ensures false
  {
    hide Ok, EnvOf, OriginOf, CompileDefs, DefsLoop, LeftEdge, From, Loops, NamesRecursive, IsName;
    if i :| 0 <= i < |path| && NameRule(x, path[i]) {
      var name :| IsName(x, name, path[i]);
      NameCycle(x, path, i, name);
    } else {
      RuleFrom(defs, path[0]);
      var u :| From(x, u, path[0]) && !Loops(x.env, u);
      NoSynthCycle(x, path, u);
    }
  }

  // ----- and back: what the text has, the rules have

  /** Where a symbol of a sequence was compiled, and where its elements are. */
  lemma {:induction false} SymOf(x: Text, st: St, base: Name, syms: seq<Sym>, i: nat)
    returns (sti: St, rest: seq<Elem>)
    requires SeqIn(x, st, base, syms) && i < |syms|
    ensures SeqIn(x, st, base, syms[..i]) && SymIn(x, sti, base, syms[i])
    ensures CompileSeq(st, base, syms).1 ==
            CompileSeq(st, base, syms[..i]).1 + (CompileSym(sti, base, syms[i]).1 + rest)
    decreases |syms|
  {
    hide SeqIn, SymIn, CompileSym, CompileSeq;
    var n := |syms| - 1;
    SeqParts(x, st, base, syms);
    var (st1, es) := CompileSeq(st, base, syms[..n]);
    var e := CompileSym(st1, base, syms[n]).1;
    if i == n {
      sti, rest := st1, [];
      assert e + [] == e;
    } else {
      sti, rest := SymOf(x, st, base, syms[..n], i);
      assert syms[..n][..i] == syms[..i] && syms[..n][i] == syms[i];
      Assoc(CompileSeq(st, base, syms[..i]).1, CompileSym(sti, base, syms[i]).1 + rest, e);
      Assoc(CompileSym(sti, base, syms[i]).1, rest, e);
      rest := rest + e;
    }
  }

  /** Something that can be empty and is repeated makes a left recursive rule, wherever it is. */
  lemma {:induction false} LoopSym(x: Text, st: St, base: Name, s: Sym)
    requires Ok(x) && SymIn(x, st, base, s) && Loops(x.env, s)
    ensures !NoLeftRecursion(x.f.rules)
    decreases s, 0
  {
    hide Linked, Inv, Extends, AltsLoop, Nullable, NoLeftRecursion, CompileAlts, AltsOk;
    match s
    case Group(alts) =>
      GroupKept(x.f, st, base, alts);
      LoopAlts(x, GenId(st, base).0, base, alts);
    case Repeat(op, body) =>
      RepeatKept(x.f, st, base, op, body);
      if op != Opt && Nullable(x.env, body) {
        LoopHere(x, st, base, op, body);
      } else {
        LoopSym(x, st, base, body);
      }
  }

  lemma LoopHere(x: Text, st: St, base: Name, op: Op, body: Sym)
    requires Ok(x) && SymIn(x, st, base, body) && SymIn(x, st, base, Repeat(op, body)) && op != Opt
    requires Nullable(x.env, body)
    ensures !NoLeftRecursion(x.f.rules)
  {
    hide Linked, Inv, Extends, NoLeftRecursion, CompileSym, RepeatRule, AllEmpty;
    RepeatKept(x.f, st, base, op, body);
    var (st1, es) := CompileSym(st, base, body);
    NullableIff(x, st, base, body);
    var t := EmptyTree(x, st, base, body);
    RepeatThere(op, |st1.ids|, es);
    GrammarParser.NullableRepeatIsLeftRecursive(x.f.rules, op, |st1.ids|, es);
  }

  lemma RepeatThere(op: Op, id: nat, es: seq<Elem>)
    ensures RepeatRule(op, id, es) != []
  {
  }

  lemma {:induction false} LoopAlts(x: Text, st: St, base: Name, alts: seq<Alternative>)
    requires Ok(x) && Inv(st) && Plain(base) && AltsOk(alts) && Extends(x.f, CompileAlts(st, base, alts).0)
    requires AltsLoop(x.env, alts)
    ensures !NoLeftRecursion(x.f.rules)
    decreases alts, 1
  {
    hide Linked, Inv, Extends, NoLeftRecursion, CompileAlts, CompileSeq, CompileSym, Grows, Loops, AltsOk, SymIn;
    var k, i :| 0 <= k < |alts| && 0 <= i < |alts[k].syms| && Loops(x.env, alts[k].syms[i]);
    AltsSyms(alts, k);
    var s, stk, tail := AltOf(st, base, alts, k);
    ExtendsBack(x.f, CompileSeq(stk, base, alts[k].syms).0, CompileAlts(st, base, alts).0);
    var sti, rest := SymOf(x, stk, base, alts[k].syms, i);
    LoopSym(x, sti, base, alts[k].syms[i]);
  }

  ghost predicate Reach(g: Rules, a: nat, b: nat) {
    exists path :: LeftPath(g, path) && |path| > 1 && path[0] == a && path[|path| - 1] == b
  }

  lemma ReachEdge(g: Rules, a: nat, i: nat, b: nat)
    requires LeftPos(g, a, i) && g[a][i] == RuleRef(b) && b < |g|
    ensures Reach(g, a, b)
  {
    assert LeftEdge(g, a, b);
    assert LeftPath(g, [a, b]);
  }

  lemma ReachTrans(g: Rules, a: nat, b: nat, c: nat)
    requires Reach(g, a, b) && Reach(g, b, c)
    ensures Reach(g, a, c)
  {
    hide LeftEdge;
    var p :| LeftPath(g, p) && |p| > 1 && p[0] == a && p[|p| - 1] == b;
    var q :| LeftPath(g, q) && |q| > 1 && q[0] == b && q[|q| - 1] == c;
    PathJoin(g, p, q);
  }

  lemma {:induction false} LeftAlong(g: Rules, r: nat, s: nat, n: nat)
    requires LeftPos(g, r, s) && s + n < |g[r]| && AllEmpty(g, g[r][s..s + n])
    ensures LeftPos(g, r, s + n)
    decreases n
  {
    if n > 0 {
      var m := s + n - 1;
      assert g[r][s..s + n] == g[r][s..m] + [g[r][m]];
      EmptyConcat(g, g[r][s..m], [g[r][m]]);
      LeftAlong(g, r, s, n - 1);
      assert EmptyRef(g, [g[r][m]][0]);
    }
  }

  /** From a left position with a symbol the rules reach what the symbol can begin with. */
  lemma {:induction false} HeadReach(x: Text, st: St, base: Name, s: Sym, a: nat, i: nat, name: Name)
    requires Ok(x) && SymIn(x, st, base, s) && SymHead(x.env, s, name) && name in x.env
    requires LeftPos(x.f.rules, a, i) && [x.f.rules[a][i]] == CompileSym(st, base, s).1
    ensures name in x.f.ids && Reach(x.f.rules, a, x.f.ids[name])
    decreases s, 0
  {
    hide Linked, Inv, Extends, LeftPos, Reach, AltsHead, CompileAlts, RepeatRule, AltsOk;
    var g := x.f.rules;
    match s
    case Ref(_) =>
      NameKept(x.f, x.env, x.origin, st, name);
      DefinedIn(x, name);
      RuleThere(x, x.origin[name], name, x.env[name], x.f.ids[name]);
      ReachEdge(g, a, i, x.f.ids[name]);
    case Group(alts) =>
      GroupKept(x.f, st, base, alts);
      var id := |st.ids|;
      RuleThere(x, GenId(st, base).0, base, alts, id);
      ReachEdge(g, a, i, id);
      AltsReach(x, GenId(st, base).0, base, alts, id, name);
      ReachTrans(g, a, id, x.f.ids[name]);
    case Repeat(op, body) =>
      RepeatKept(x.f, st, base, op, body);
      var (st1, es) := CompileSym(st, base, body);
      var id := |st1.ids|;
      SymElems(st, base, body);
      RepeatFirst(op, id, es);
      ReachEdge(g, a, i, id);
      StartLeft(g, id);
      HeadReach(x, st, base, body, id, 0, name);
      ReachTrans(g, a, id, x.f.ids[name]);
  }

  lemma RepeatFirst(op: Op, id: nat, es: seq<Elem>)
    requires |es| > 0
    ensures |RepeatRule(op, id, es)| > 0 && RepeatRule(op, id, es)[0] == es[0]
  {
  }

  lemma StartLeft(g: Rules, r: nat)
    requires r < |g| && |g[r]| > 0
    ensures LeftPos(g, r, 0)
  {
  }

  lemma RuleThere(x: Text, st: St, base: Name, alts: seq<Alternative>, id: nat)
    requires AltsIn(x, st, base, alts, id)
    ensures id < |x.f.rules| && x.f.rules[id] == CompileAlts(st, base, alts).1 + [End]
  {
    hide Inv, Extends, CompileAlts, AltsOk;
  }

  lemma {:induction false} AltsReach(x: Text, st: St, base: Name, alts: seq<Alternative>, id: nat, name: Name)
    requires Ok(x) && AltsIn(x, st, base, alts, id) && AltsHead(x.env, alts, name) && name in x.env
    ensures name in x.f.ids && Reach(x.f.rules, id, x.f.ids[name])
    decreases alts, 1
  {
    hide Linked, Inv, Extends, CompileAlts, CompileSeq, CompileSym, Grows, SymHead, AltsOk, SymIn, Reach, LeftPos,
         AllEmpty, Nullable;
    var g := x.f.rules;
    var k, i :| 0 <= k < |alts| && 0 <= i < |alts[k].syms| && Vanish(x.env, alts[k].syms, i) &&
                SymHead(x.env, alts[k].syms[i], name);
    var syms := alts[k].syms;
    AltsSyms(alts, k);
    var s, stk, tail := AltOf(st, base, alts, k);
    var (st2, es) := CompileSeq(stk, base, syms);
    ExtendsBack(x.f, st2, CompileAlts(st, base, alts).0);
    var sti, rest := SymOf(x, stk, base, syms, i);
    var es1, e := CompileSeq(stk, base, syms[..i]).1, CompileSym(sti, base, syms[i]).1;
    assert Vanish(x.env, syms[..i], i);
    VanishIff(x, stk, base, syms[..i]);
    HeadRef(x, sti, base, syms[i], name);
    RuleThere(x, st, base, alts, id);
    InRule(g, id, CompileAlts(st, base, alts).1, s, es1, e, rest, tail);
    HeadReach(x, sti, base, syms[i], id, s + |es1|, name);
  }

  lemma HeadRef(x: Text, st: St, base: Name, s: Sym, name: Name)
    requires SymHead(x.env, s, name)
    ensures |CompileSym(st, base, s).1| == 1
  {
    SymElems(st, base, s);
  }

  /** The elements after some that can be empty are at a left position. */
  lemma InRule(g: Rules, id: nat, rule: seq<Elem>, s: nat, es1: seq<Elem>, e: seq<Elem>, rest: seq<Elem>,
               tail: seq<Elem>)
    requires id < |g| && g[id] == rule + [End] && s <= |rule| && (s == 0 || rule[s - 1].Alt?)
    requires rule[s..] == es1 + (e + rest) + tail && |e| == 1 && AllEmpty(g, es1)
    ensures s + |es1| < |g[id]| && [g[id][s + |es1|]] == e && LeftPos(g, id, s + |es1|)
  {
    hide EmptyRef;
    var n := |es1|;
    assert |rule[s..]| == n + 1 + |rest| + |tail|;
    assert g[id][s..s + n] == es1 by {
      assert forall j :: 0 <= j < n ==> rule[s..][j] == es1[j];
    }
    assert rule[s..][n] == e[0];
    assert LeftPos(g, id, s);
    LeftAlong(g, id, s, n);
  }

  lemma NameReach(x: Text, a: Name, b: Name)
    requires Ok(x) && NameEdge(x.env, a, b) && b in x.env
    ensures a in x.f.ids && b in x.f.ids && Reach(x.f.rules, x.f.ids[a], x.f.ids[b])
  {
    hide Ok, AltsIn, Reach, AltsHead;
    DefinedIn(x, a);
    AltsReach(x, x.origin[a], a, x.env[a], x.f.ids[a], b);
  }

  lemma {:induction false} NamesReach(x: Text, path: seq<Name>)
    requires Ok(x) && NamePath(x.env, path) && |path| > 1 && path[|path| - 1] in x.env
    ensures path[0] in x.f.ids && path[|path| - 1] in x.f.ids
    ensures Reach(x.f.rules, x.f.ids[path[0]], x.f.ids[path[|path| - 1]])
    decreases |path|
  {
    hide Ok, Reach, AltsHead;
    var more := path[1..];
    assert NameEdge(x.env, path[0], path[0 + 1]);
    if |path| == 2 {
      NameReach(x, path[0], path[1]);
    } else {
      forall i | 0 <= i < |more| - 1
        ensures NameEdge(x.env, more[i], more[i + 1])
      {
        assert NameEdge(x.env, path[i + 1], path[i + 1 + 1]);
      }
      assert NameEdge(x.env, path[1], path[1 + 1]);
      NameReach(x, path[0], path[1]);
      NamesReach(x, more);
      ReachTrans(x.f.rules, x.f.ids[path[0]], x.f.ids[path[1]], x.f.ids[path[|path| - 1]]);
    }
  }

  lemma NamesMakeRules(x: Text)
    requires Ok(x) && NamesRecursive(x.env)
    ensures !NoLeftRecursion(x.f.rules)
  {
    hide Ok, LeftEdge, AltsHead;
    var path :| NamePath(x.env, path) && |path| > 1 && path[0] == path[|path| - 1];
    assert NameEdge(x.env, path[0], path[0 + 1]);
    NamesReach(x, path);
  }

  lemma DefsMakeRules(defs: seq<Def>)
    requires AllOk(defs) && DefsLoop(EnvOf(defs), defs)
    ensures !NoLeftRecursion(CompileDefs(defs).rules)
  {
    hide Ok, Inv, Extends, CompileAlts, EnvOf, OriginOf, CompileDefs, AltsLoop, NoLeftRecursion;
    TextOk(defs);
    var i :| 0 <= i < |defs| && AltsLoop(EnvOf(defs), defs[i].alts);
    var st := DefIn(defs, i);
    LoopAlts(TextOf(defs), st, defs[i].name, defs[i].alts);
  }

  /** The compiled rules are left recursive if and only if the names of the text are, or something that can be
      empty is starred or plussed, also in a definition that was replaced. */
  lemma LeftRecursionIff(defs: seq<Def>)
    requires AllOk(defs)
    ensures NoLeftRecursion(CompileDefs(defs).rules) <==>
            !NamesRecursive(EnvOf(defs)) && !DefsLoop(EnvOf(defs), defs)
  {
    hide NoLeftRecursion, NamesRecursive, DefsLoop, CompileDefs, EnvOf, OriginOf, Ok, AllOk;
    TextOk(defs);
    if NamesRecursive(EnvOf(defs)) {
      NamesMakeRules(TextOf(defs));
    } else if DefsLoop(EnvOf(defs), defs) {
      DefsMakeRules(defs);
    } else {
      NotRecursive(defs);
    }
  }

  // ----- names that are used

  predicate Uses(s: Sym, name: Name)
    decreases s, 0
  {
    match s
    case Term(_) => false
    case Ref(n) => n == name
    case Group(alts) => AltsUse(alts, name)
    case Repeat(_, body) => Uses(body, name)
  }

  predicate AltsUse(alts: seq<Alternative>, name: Name)
    decreases alts, 1
  {
    exists k, i :: 0 <= k < |alts| && 0 <= i < |alts[k].syms| && Uses(alts[k].syms[i], name)
  }

  /** Every name that a definition uses is defined, also if the definition has been replaced. */
  ghost predicate AllDefined(defs: seq<Def>) {
    forall i, name :: 0 <= i < |defs| && AltsUse(defs[i].alts, name) ==> name in EnvOf(defs)
  }

  /** Of the plain names, compiling adds exactly those that are used. */
  ghost predicate AddsUsed(a: St, b: St, used: iset<Name>) {
    && (forall name :: name in a.ids ==> name in b.ids)
    && (forall name :: Plain(name) && name in b.ids ==> name in a.ids || name in used)
    && (forall name :: name in used ==> name in b.ids)
  }

  lemma AddsTrans(a: St, b: St, c: St, u: iset<Name>, v: iset<Name>)
    requires AddsUsed(a, b, u) && AddsUsed(b, c, v)
    ensures AddsUsed(a, c, u + v)
  {
  }

  ghost function SymUses(s: Sym): iset<Name> {
    iset name | Uses(s, name)
  }

  ghost function SeqUses(syms: seq<Sym>): iset<Name> {
    iset i, name | 0 <= i < |syms| && Uses(syms[i], name) :: name
  }

  ghost function AltsUses(alts: seq<Alternative>): iset<Name> {
    iset name | AltsUse(alts, name)
  }

  lemma {:induction false} SymAdds(st: St, base: Name, s: Sym)
    ensures AddsUsed(st, CompileSym(st, base, s).0, SymUses(s))
    decreases s, 0
  {
    hide CompileAlts, AltsUse;
    match s
    case Term(_) =>
    case Ref(name) =>
    case Group(alts) =>
      var (st1, id) := GenId(st, base);
      SynthNotPlain(base, id);
      AltsAdds(st1, base, alts);
      assert AltsUses(alts) == SymUses(s);
    case Repeat(op, body) =>
      SymAdds(st, base, body);
      SynthNotPlain(base, |CompileSym(st, base, body).0.ids|);
      assert SymUses(body) == SymUses(s);
  }

  lemma {:induction false} SeqAdds(st: St, base: Name, syms: seq<Sym>)
    ensures AddsUsed(st, CompileSeq(st, base, syms).0, SeqUses(syms))
    decreases syms, 1
  {
    if syms != [] {
      hide CompileSym, Uses, AddsUsed;
      var n := |syms| - 1;
      SeqAdds(st, base, syms[..n]);
      var st1 := CompileSeq(st, base, syms[..n]).0;
      SymAdds(st1, base, syms[n]);
      AddsTrans(st, st1, CompileSym(st1, base, syms[n]).0, SeqUses(syms[..n]), SymUses(syms[n]));
      SeqUsesSnoc(syms);
    } else {
      assert SeqUses(syms) == iset{};
    }
  }

  lemma SeqUsesSnoc(syms: seq<Sym>)
    requires syms != []
    ensures SeqUses(syms) == SeqUses(syms[..|syms| - 1]) + SymUses(syms[|syms| - 1])
  {
    hide Uses;
    var n := |syms| - 1;
    forall name
      ensures name in SeqUses(syms) <==> name in SeqUses(syms[..n]) + SymUses(syms[n])
    {
      if name in SeqUses(syms[..n]) {
        var i :| 0 <= i < n && Uses(syms[..n][i], name);
        assert Uses(syms[i], name);
      }
      if name in SeqUses(syms) {
        var i :| 0 <= i < |syms| && Uses(syms[i], name);
        if i < n {
          assert Uses(syms[..n][i], name);
        }
      }
    }
  }

  lemma {:induction false} AltsAdds(st: St, base: Name, alts: seq<Alternative>)
    ensures AddsUsed(st, CompileAlts(st, base, alts).0, AltsUses(alts))
    decreases alts, 2
  {
    if alts != [] {
      hide CompileSeq, Uses, AddsUsed;
      var n := |alts| - 1;
      AltsAdds(st, base, alts[..n]);
      var st1 := CompileAlts(st, base, alts[..n]).0;
      SeqAdds(st1, base, alts[n].syms);
      AddsTrans(st, st1, CompileSeq(st1, base, alts[n].syms).0, AltsUses(alts[..n]), SeqUses(alts[n].syms));
      AltsUsesSnoc(alts);
    } else {
      assert AltsUses(alts) == iset{};
    }
  }

  lemma AltsUsesSnoc(alts: seq<Alternative>)
    requires alts != []
    ensures AltsUses(alts) == AltsUses(alts[..|alts| - 1]) + SeqUses(alts[|alts| - 1].syms)
  {
    hide Uses;
    var n := |alts| - 1;
    forall name
      ensures AltsUse(alts, name) <==> AltsUse(alts[..n], name) || name in SeqUses(alts[n].syms)
    {
      if AltsUse(alts[..n], name) {
        var k, i :| 0 <= k < n && 0 <= i < |alts[..n][k].syms| && Uses(alts[..n][k].syms[i], name);
        assert Uses(alts[k].syms[i], name);
      }
      if AltsUse(alts, name) {
        var k, i :| 0 <= k < |alts| && 0 <= i < |alts[k].syms| && Uses(alts[k].syms[i], name);
        if k < n {
          assert Uses(alts[..n][k].syms[i], name);
        }
      }
    }
  }

  ghost predicate Mentions(defs: seq<Def>, name: Name) {
    exists i :: 0 <= i < |defs| && (defs[i].name == name || AltsUse(defs[i].alts, name))
  }

  /** The plain names of the symbol table are those that are defined or used. */
  lemma {:induction false} DefsMention(defs: seq<Def>, name: Name)
    requires Plain(name)
    ensures name in CompileDefs(defs).ids <==> Mentions(defs, name)
    decreases |defs|
  {
    if defs != [] {
      hide CompileAlts, AltsUse;
      var n := |defs| - 1;
      var def := defs[n];
      DefsMention(defs[..n], name);
      AltsAdds(GetId(CompileDefs(defs[..n]), def.name).0, def.name, def.alts);
      MentionsSnoc(defs, name);
      assert name in AltsUses(def.alts) <==> AltsUse(def.alts, name);
    }
  }

  lemma MentionsSnoc(defs: seq<Def>, name: Name)
    requires defs != []
    ensures var n := |defs| - 1;
            Mentions(defs, name) <==> Mentions(defs[..n], name) || defs[n].name == name || AltsUse(defs[n].alts, name)
  {
    hide AltsUse;
    var n := |defs| - 1;
    if Mentions(defs[..n], name) {
      var i :| 0 <= i < n && (defs[..n][i].name == name || AltsUse(defs[..n][i].alts, name));
      assert defs[i] == defs[..n][i];
    }
    if Mentions(defs, name) {
      var i :| 0 <= i < |defs| && (defs[i].name == name || AltsUse(defs[i].alts, name));
      if i < n {
        assert defs[..n][i] == defs[i];
      }
    }
  }

  lemma {:induction false} Defines(defs: seq<Def>, i: nat)
    requires i < |defs|
    ensures defs[i].name in EnvOf(defs)
    decreases |defs|
  {
    if i < |defs| - 1 {
      Defines(defs[..|defs| - 1], i);
    }
  }

  lemma {:induction false} UsesPlain(s: Sym, name: Name)
    requires SymOk(s) && Uses(s, name)
    ensures Plain(name)
    decreases s
  {
    match s
    case Ref(_) =>
    case Group(alts) =>
      var k, i :| 0 <= k < |alts| && 0 <= i < |alts[k].syms| && Uses(alts[k].syms[i], name);
      SymsOk(alts, k, i);
      UsesPlain(alts[k].syms[i], name);
    case Repeat(_, body) => UsesPlain(body, name);
  }

  /** Every rule is there if and only if every name that is used is defined. */
  lemma CompleteIff(defs: seq<Def>)
    requires AllOk(defs)
    ensures GrammarParser.Complete(CompileDefs(defs)) <==> AllDefined(defs)
  {
    hide CompileDefs, EnvOf, OriginOf, DefLinked, Inv, AltsUse;
    CompileDefsLinked(defs);
    var f := CompileDefs(defs);
    if GrammarParser.Complete(f) {
      forall i, name | 0 <= i < |defs| && AltsUse(defs[i].alts, name)
        ensures name in EnvOf(defs)
      {
        AltsPlain(defs[i].alts, name);
        DefsMention(defs, name);
      }
    }
    if AllDefined(defs) {
      forall name | name in f.ids
        ensures RuleAt(f, f.ids[name]) != []
      {
        if Plain(name) {
          DefsMention(defs, name);
          MentionDefined(defs, name);
          DefinedRule(f, EnvOf(defs), OriginOf(defs), name);
        }
      }
    }
  }

  lemma AltsPlain(alts: seq<Alternative>, name: Name)
    requires AltsOk(alts) && AltsUse(alts, name)
    ensures Plain(name)
  {
    hide Uses, Plain;
    var k, i :| 0 <= k < |alts| && 0 <= i < |alts[k].syms| && Uses(alts[k].syms[i], name);
    SymsOk(alts, k, i);
    UsesPlain(alts[k].syms[i], name);
  }

  lemma SymsOk(alts: seq<Alternative>, k: nat, i: nat)
    requires AltsOk(alts) && k < |alts| && i < |alts[k].syms|
    ensures SymOk(alts[k].syms[i])
  {
    assert SeqOk(alts[k].syms);
  }

  lemma MentionDefined(defs: seq<Def>, name: Name)
    requires Mentions(defs, name) && AllDefined(defs)
    ensures name in EnvOf(defs)
  {
    hide AltsUse;
    var i :| 0 <= i < |defs| && (defs[i].name == name || AltsUse(defs[i].alts, name));
    Defines(defs, i);
  }

  lemma DefinedRule(f: St, env: Env, origin: map<Name, St>, name: Name)
    requires Linked(f, env, origin) && name in env
    ensures name in f.ids && RuleAt(f, f.ids[name]) != []
  {
    hide Inv, Extends, CompileAlts, AltsOk;
    assert DefLinked(f, env, origin, name);
  }

  /** From the text to the recogniser, with all conditions on the text: a word leaves an empty stack exactly
      when it belongs to the start rule as it is written. */
  lemma TextRecognisedAsWritten(src: seq<Byte>, name: Name, cs: Word)
    requires ReadText(src).Got? && Plain(name)
    requires var defs := ReadText(src).value;
             && Mentions(defs, name) && AllDefined(defs)
             && !NamesRecursive(EnvOf(defs)) && !DefsLoop(EnvOf(defs), defs)
    ensures var st := GrammarParser.ParsedState(src);
            && name in st.ids && WellFormed(st.rules) && NoLeftRecursion(st.rules) && st.ids[name] < |st.rules|
            && WellFormedRule(st.rules[st.ids[name]])
            && ([] in GrammarFilter.Run(st.rules, GrammarFilter.InitFrom(st.rules, st.ids[name], 0), cs) <==>
                Means(EnvOf(ReadText(src).value), name, cs))
  {
    hide CompileDefs, EnvOf, NamesRecursive, DefsLoop, AllDefined, Mentions, NoLeftRecursion, Means, WellFormed,
         GrammarFilter.Run, GrammarFilter.InitFrom, GrammarParser.Complete, ReadText;
    var defs := ReadText(src).value;
    ReadOk(src);
    DefsMention(defs, name);
    CompleteIff(defs);
    LeftRecursionIff(defs);
    GrammarParser.TextRecognised(src, name, cs);
  }

  lemma ReadOk(src: seq<Byte>)
    requires ReadText(src).Got?
    ensures AllOk(ReadText(src).value) && GrammarParser.ParsedState(src) == CompileDefs(ReadText(src).value)
  {
    ReadRulesOk(src, SkipSpace(src, 0, true), []);
  }
}
