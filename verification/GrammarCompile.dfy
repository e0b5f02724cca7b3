/** From rule definitions to numbered flat rules: what the one-pass compiler has to produce, and
    why it means the same. */
module GrammarCompile {
  import opened GrammarRules
  import opened GrammarText

  // ----- the symbol table and the rule table

  datatype St = St(ids: map<Name, nat>, rules: Rules)

  function Digits(n: nat): seq<Byte> {
    if n < 10 then [48 + n] else Digits(n / 10) + [48 + n % 10]
  }

  function SynthName(base: Name, n: nat): Name {
    base + ['_' as int] + Digits(n)
  }

  function GetId(st: St, name: Name): (St, nat) {
    if name in st.ids then (st, st.ids[name])
    else (st.(ids := st.ids[name := |st.ids|]), |st.ids|)
  }

  function GenId(st: St, base: Name): (St, nat) {
    (st.(ids := st.ids[SynthName(base, |st.ids|) := |st.ids|]), |st.ids|)
  }

  function AddRule(st: St, id: nat, rule: seq<Elem>): St {
    var n := |st.rules|;
    var rules := if n <= id then st.rules + seq(id + 1 - n, _ => []) else st.rules;
    st.(rules := rules[id := rule])
  }

  /** The rule stored under a number, empty if there is none yet. */
  function RuleAt(st: St, id: nat): seq<Elem> {
    if id < |st.rules| then st.rules[id] else []
  }

  // ----- compiling symbols

  function RepeatRule(op: Op, id: nat, es: seq<Elem>): seq<Elem> {
    es + (if op.Opt? then [] else [RuleRef(id)]) + [Alt] + (if op.Plus? then es else []) + [End]
  }

  function CompileSym(st: St, base: Name, s: Sym): (St, seq<Elem>)
    decreases s, 0
  {
    match s
    case Term(es) => (st, es)
    case Ref(name) =>
      var (st1, id) := GetId(st, name);
      (st1, [RuleRef(id)])
    case Group(alts) =>
      var (st1, id) := GenId(st, base);
      var (st2, rule) := CompileAlts(st1, base, alts);
      (AddRule(st2, id, rule + [End]), [RuleRef(id)])
    case Repeat(op, body) =>
      var (st1, es) := CompileSym(st, base, body);
      var (st2, id) := GenId(st1, base);
      (AddRule(st2, id, RepeatRule(op, id, es)), [RuleRef(id)])
  }

  function CompileSeq(st: St, base: Name, syms: seq<Sym>): (St, seq<Elem>)
    decreases syms, 1
  {
    if syms == [] then (st, [])
    else
      var n := |syms| - 1;
      var (st1, es) := CompileSeq(st, base, syms[..n]);
      var (st2, e) := CompileSym(st1, base, syms[n]);
      (st2, es + e)
  }

  /** Alternatives separated by ALT, without the final END. */
  function CompileAlts(st: St, base: Name, alts: seq<Alternative>): (St, seq<Elem>)
    decreases alts, 2
  {
    if alts == [] then (st, [])
    else
      var n := |alts| - 1;
      var (st1, rule) := CompileAlts(st, base, alts[..n]);
      var (st2, es) := CompileSeq(st1, base, alts[n].syms);
      (st2, if n == 0 then es else rule + [Alt] + es)
  }

  function CompileDef(st: St, def: Def): St {
    var (st1, id) := GetId(st, def.name);
    var (st2, rule) := CompileAlts(st1, def.name, def.alts);
    AddRule(st2, id, rule + [End])
  }

  function CompileDefs(defs: seq<Def>): St {
    if defs == [] then St(map[], [])
    else CompileDef(CompileDefs(defs[..|defs| - 1]), defs[|defs| - 1])
  }

  // ----- symbol numbers

  ghost predicate NameOk(name: Name, id: nat) {
    Plain(name) || exists b :: Plain(b) && name == SynthName(b, id)
  }

  ghost predicate HasId(ids: map<Name, nat>, k: nat) {
    exists name :: name in ids && ids[name] == k
  }

  /** The symbol table is a bijection onto 0..n-1; a name that is not plain carries its own number. */
  ghost predicate IdsOk(ids: map<Name, nat>) {
    && (forall name :: name in ids ==> ids[name] < |ids| && NameOk(name, ids[name]))
    && (forall a, b :: a in ids && b in ids && ids[a] == ids[b] ==> a == b)
    && (forall k: nat :: k < |ids| ==> HasId(ids, k))
  }

  predicate RefsBelow(es: seq<Elem>, n: nat) {
    forall i :: 0 <= i < |es| && es[i].RuleRef? ==> es[i].rule < n
  }

  predicate RuleOk(rule: seq<Elem>, n: nat) {
    rule == [] || (WellFormedRule(rule) && RefsBelow(rule, n))
  }

  ghost predicate Inv(st: St) {
    && IdsOk(st.ids)
    && |st.rules| <= |st.ids|
    && forall k: nat :: RuleOk(RuleAt(st, k), |st.ids|)
  }

  /** `b` is a later state than `a`, and the rules of the numbers in use in `a` are untouched. */
  ghost predicate Grows(a: St, b: St) {
    && (forall name :: name in a.ids ==> name in b.ids && b.ids[name] == a.ids[name])
    && |a.ids| <= |b.ids|
    && (forall k: nat :: k < |a.ids| ==> RuleAt(b, k) == RuleAt(a, k))
  }

  /** Of the names that `b` has and `a` has not, exactly the synthesized ones have a rule. */
  ghost predicate NewDefined(a: St, b: St) {
    forall name :: name in b.ids && name !in a.ids ==> (Plain(name) <==> RuleAt(b, b.ids[name]) == [])
  }

  lemma {:induction false} DigitsInjective(a: nat, b: nat)
    requires Digits(a) == Digits(b)
    ensures a == b
  {
    var da, db := Digits(a), Digits(b);
    assert |da| > 0 && da[|da| - 1] == 48 + a % 10;
    assert |db| > 0 && db[|db| - 1] == 48 + b % 10;
    if a >= 10 && b >= 10 {
      assert da[..|da| - 1] == Digits(a / 10) && db[..|db| - 1] == Digits(b / 10);
      DigitsInjective(a / 10, b / 10);
    }
  }

  lemma SynthNameInjective(a: Name, m: nat, b: Name, n: nat)
    requires Plain(a) && Plain(b) && SynthName(a, m) == SynthName(b, n)
    ensures m == n
  {
    var u := '_' as int;
    var s := SynthName(a, m);
    assert s[|a|] == u && s[|b|] == u;
    if |a| != |b| {
      assert false;
    }
    assert s[|a| + 1..] == Digits(m) && s[|b| + 1..] == Digits(n);
    DigitsInjective(m, n);
  }

  lemma SynthNotPlain(base: Name, n: nat)
    ensures !Plain(SynthName(base, n))
  {
    assert SynthName(base, n)[|base|] == '_' as int;
  }

  /** A synthesized name is new. */
  lemma SynthFresh(ids: map<Name, nat>, base: Name)
    requires IdsOk(ids) && Plain(base)
    ensures SynthName(base, |ids|) !in ids
  {
    var s := SynthName(base, |ids|);
    SynthNotPlain(base, |ids|);
    if s in ids {
      var b :| Plain(b) && s == SynthName(b, ids[s]);
      SynthNameInjective(base, |ids|, b, ids[s]);
    }
  }

  lemma IdsOkInsert(ids: map<Name, nat>, name: Name)
    requires IdsOk(ids) && name !in ids && NameOk(name, |ids|)
    ensures IdsOk(ids[name := |ids|]) && |ids[name := |ids|]| == |ids| + 1
  {
    var ids1 := ids[name := |ids|];
    assert ids1.Keys == ids.Keys + {name};
    forall k: nat | k < |ids1|
      ensures HasId(ids1, k)
    {
      if k < |ids| {
        assert HasId(ids, k);
        var x :| x in ids && ids[x] == k;
        assert x in ids1 && ids1[x] == k;
      } else {
        assert name in ids1 && ids1[name] == k;
      }
    }
  }

  lemma GetIdGrows(st: St, name: Name)
    requires Inv(st) && Plain(name)
    ensures var (st1, id) := GetId(st, name);
            Inv(st1) && Grows(st, st1) && NewDefined(st, st1) &&
            id < |st1.ids| && name in st1.ids && st1.ids[name] == id
  {
    if name !in st.ids {
      IdsOkInsert(st.ids, name);
      var st1 := GetId(st, name).0;
      assert forall k: nat :: RuleAt(st1, k) == RuleAt(st, k);
    }
  }

  lemma GenIdGrows(st: St, base: Name)
    requires Inv(st) && Plain(base)
    ensures var (st1, id) := GenId(st, base);
            Inv(st1) && Grows(st, st1) && id == |st.ids| == |st1.ids| - 1 && RuleAt(st1, id) == [] &&
            st1.ids == st.ids[SynthName(base, id) := id] && SynthName(base, id) !in st.ids
  {
    SynthFresh(st.ids, base);
    IdsOkInsert(st.ids, SynthName(base, |st.ids|));
    var st1 := GenId(st, base).0;
    assert forall k: nat :: RuleAt(st1, k) == RuleAt(st, k);
  }

  lemma AddRuleAt(st: St, id: nat, rule: seq<Elem>)
    requires Inv(st) && id < |st.ids| && RuleOk(rule, |st.ids|)
    ensures var st1 := AddRule(st, id, rule);
            Inv(st1) && st1.ids == st.ids && RuleAt(st1, id) == rule &&
            forall k: nat :: k != id ==> RuleAt(st1, k) == RuleAt(st, k)
  {
    var st1 := AddRule(st, id, rule);
    forall k: nat
      ensures RuleOk(RuleAt(st1, k), |st1.ids|)
      ensures RuleAt(st1, k) == if k == id then rule else RuleAt(st, k)
    {
      assert RuleOk(RuleAt(st, k), |st.ids|);
    }
  }

  // ----- pieces

  lemma PieceConcat(a: seq<Elem>, b: seq<Elem>)
    requires PieceOk(a) && PieceOk(b)
    ensures PieceOk(a + b)
  {
    BodyConcat(a, b);
  }

  lemma EmptyPiece()
    ensures PieceOk([]) && WellFormedBody([])
  {
  }

  /** Pieces may be separated by ALT and closed by END. */
  lemma BodyConcat(a: seq<Elem>, b: seq<Elem>)
    requires WellFormedBody(a) && WellFormedBody(b)
    ensures WellFormedBody(a + b)
  {
    var c := a + b;
    forall i | 0 <= i < |c|
      ensures Fits(c, i)
    {
      if i < |a| {
        assert Fits(a, i);
      } else {
        assert Fits(b, i - |a|);
      }
    }
  }

  lemma SingleOk(e: Elem)
    requires !IsCharElem(e) || IsClassStart(e)
    ensures WellFormedBody([e])
  {
    assert Fits([e], 0);
  }

  /** A body without END makes a rule when it is closed by END. */
  lemma CloseRule(body: seq<Elem>, n: nat)
    requires WellFormedBody(body) && (forall i :: 0 <= i < |body| ==> !body[i].End?) && RefsBelow(body, n)
    ensures RuleOk(body + [End], n)
  {
    SingleOk(End);
    BodyConcat(body, [End]);
  }

  lemma RepeatRuleOk(op: Op, id: nat, es: seq<Elem>, n: nat)
    requires PieceOk(es) && RefsBelow(es, n) && id < n
    ensures RuleOk(RepeatRule(op, id, es), n) && RepeatRule(op, id, es) != []
  {
    var again := if op.Opt? then [] else [RuleRef(id)];
    SingleOk(RuleRef(id));
    SingleOk(Alt);
    BodyConcat(es, again);
    BodyConcat(es + again, [Alt]);
    var last := if op.Plus? then es else [];
    BodyConcat(es + again + [Alt], last);
    CloseRule(es + again + [Alt] + last, n);
  }

  // ----- compiling keeps the tables in order

  lemma GrowsTrans(a: St, b: St, c: St)
    requires Grows(a, b) && Grows(b, c)
    ensures Grows(a, c)
    ensures Inv(b) && NewDefined(a, b) && NewDefined(b, c) ==> NewDefined(a, c)
  {
  }

  /** A synthesized rule: its number is made in `b`, and it is defined in `c`, for the first time
      and after the rules that it refers to. */
  lemma DefineGrows(a: St, base: Name, c: St, rule: seq<Elem>)
    requires Inv(a) && Plain(base) && Inv(c) && Grows(GenId(a, base).0, c) && NewDefined(GenId(a, base).0, c)
    requires RuleOk(rule, |c.ids|) && rule != []
    ensures var id := |a.ids|;
            RuleAt(c, id) == [] &&
            var d := AddRule(c, id, rule);
            Inv(d) && Grows(a, d) && NewDefined(a, d) && d.ids == c.ids && RuleAt(d, id) == rule
  {
    GenIdGrows(a, base);
    var (b, id) := GenId(a, base);
    GrowsTrans(a, b, c);
    AddRuleAt(c, id, rule);
    var d := AddRule(c, id, rule);
    var synth := SynthName(base, id);
    SynthNotPlain(base, id);
    forall name | name in d.ids && name !in a.ids
      ensures Plain(name) <==> RuleAt(d, d.ids[name]) == []
    {
      if name != synth {
        assert name !in b.ids && b.ids[synth] == c.ids[synth] == id;
        assert c.ids[name] != id;
      }
    }
  }

  lemma {:induction false} CompileSymGrows(st: St, base: Name, s: Sym)
    requires Inv(st) && Plain(base) && SymOk(s)
    ensures var (st1, es) := CompileSym(st, base, s);
            Inv(st1) && Grows(st, st1) && NewDefined(st, st1) && PieceOk(es) && RefsBelow(es, |st1.ids|)
    decreases s, 0
  {
    hide Inv, Grows, NewDefined, RuleOk, AddRule, GenId, GetId, RepeatRule;
    match s
    case Term(es) =>
      GrowsRefl(st);
    case Ref(name) =>
      GetIdGrows(st, name);
      SingleOk(RuleRef(GetId(st, name).1));
    case Group(alts) =>
      GenIdGrows(st, base);
      var (st1, id) := GenId(st, base);
      CompileAltsGrows(st1, base, alts);
      var (st2, rule) := CompileAlts(st1, base, alts);
      GrowsCount(st1, st2);
      CloseRule(rule, |st2.ids|);
      DefineGrows(st, base, st2, rule + [End]);
      SingleOk(RuleRef(id));
    case Repeat(op, body) =>
      CompileSymGrows(st, base, body);
      var (st1, es) := CompileSym(st, base, body);
      GenIdGrows(st1, base);
      var (st2, id) := GenId(st1, base);
      GrowsRefl(st2);
      GrowsCount(st1, st2);
      RepeatRuleOk(op, id, es, |st2.ids|);
      DefineGrows(st1, base, st2, RepeatRule(op, id, es));
      GrowsTrans(st, st1, AddRule(st2, id, RepeatRule(op, id, es)));
      SingleOk(RuleRef(id));
  }

  lemma GrowsRefl(a: St)
    ensures Grows(a, a) && NewDefined(a, a)
  {
  }

  lemma GrowsCount(a: St, b: St)
    requires Grows(a, b)
    ensures |a.ids| <= |b.ids|
  {
  }

  lemma {:induction false} CompileSeqGrows(st: St, base: Name, syms: seq<Sym>)
    requires Inv(st) && Plain(base) && SeqOk(syms)
    ensures var (st1, es) := CompileSeq(st, base, syms);
            Inv(st1) && Grows(st, st1) && NewDefined(st, st1) && PieceOk(es) && RefsBelow(es, |st1.ids|)
    decreases syms, 1
  {
    hide Inv, Grows, NewDefined, PieceOk;
    if syms == [] {
      GrowsRefl(st);
      assert PieceOk([]) by {
        EmptyPiece();
      }
    } else {
      var n := |syms| - 1;
      CompileSeqGrows(st, base, syms[..n]);
      var (st1, es) := CompileSeq(st, base, syms[..n]);
      CompileSymGrows(st1, base, syms[n]);
      var (st2, e) := CompileSym(st1, base, syms[n]);
      GrowsTrans(st, st1, st2);
      GrowsCount(st1, st2);
      PieceConcat(es, e);
    }
  }

  lemma {:induction false} CompileAltsGrows(st: St, base: Name, alts: seq<Alternative>)
    requires Inv(st) && Plain(base) && (alts == [] || AltsOk(alts))
    ensures var (st1, rule) := CompileAlts(st, base, alts);
            Inv(st1) && Grows(st, st1) && NewDefined(st, st1) && WellFormedBody(rule) && RefsBelow(rule, |st1.ids|) &&
            forall i :: 0 <= i < |rule| ==> !rule[i].End?
    decreases alts, 2
  {
    hide Inv, Grows, NewDefined, WellFormedBody;
    if alts == [] {
      GrowsRefl(st);
      EmptyPiece();
    } else {
      var n := |alts| - 1;
      CompileAltsGrows(st, base, alts[..n]);
      var (st1, rule) := CompileAlts(st, base, alts[..n]);
      CompileSeqGrows(st1, base, alts[n].syms);
      var (st2, es) := CompileSeq(st1, base, alts[n].syms);
      GrowsTrans(st, st1, st2);
      GrowsCount(st1, st2);
      SingleOk(Alt);
      BodyConcat(rule, [Alt]);
      BodyConcat(rule + [Alt], es);
    }
  }
}
