/** The one-pass grammar compiler: mutually recursive parsers that advance a cursor, push elements
    and fill the symbol and rule tables as they go. */
module GrammarParser {
  import opened GrammarRules
  import opened GrammarText
  import opened GrammarCompile
  import opened GrammarMeaning
  import GrammarEngine
  import GrammarFilter

  // ----- scanning

  method ParseSpace(src: seq<Byte>, start: nat, newlineOk: bool) returns (pos: nat)
    requires start <= |src|
    ensures pos == SkipSpace(src, start, newlineOk)
  {
    pos := start;
    while IsSpace(At(src, pos), newlineOk) || At(src, pos) == '#' as int
      invariant pos <= |src| && SkipSpace(src, pos, newlineOk) == SkipSpace(src, start, newlineOk)
      decreases |src| - pos
    {
      if At(src, pos) == '#' as int {
        ghost var hash := pos;
        while !IsLineEnd(At(src, pos))
          invariant hash <= pos <= |src|
          invariant pos == hash || SkipLine(src, pos) == SkipLine(src, hash + 1)
          decreases |src| - pos
        {
          pos := pos + 1;
        }
        assert pos == SkipLine(src, hash + 1);
      } else {
        pos := pos + 1;
      }
    }
  }

  method ParseName(src: seq<Byte>, start: nat) returns (ok: bool, pos: nat)
    requires start <= |src|
    ensures pos == SkipName(src, start) && ok == (pos > start)
  {
    pos := start;
    while IsWordChar(At(src, pos))
      invariant start <= pos <= |src| && SkipName(src, pos) == SkipName(src, start)
      decreases |src| - pos
    {
      pos := pos + 1;
    }
    ok := pos > start;
  }

  method ParseHex(src: seq<Byte>, start: nat, size: nat) returns (ok: bool, value: nat, pos: nat)
    requires start <= |src|
    ensures match ReadHex(src, start, size, 0)
            case Fail => !ok
            case Got(v, p) => ok && value == v && pos == p
  {
    value, pos := 0, start;
    while pos < start + size && IsHex(At(src, pos))
      invariant start <= pos <= start + size && pos <= |src|
      invariant ReadHex(src, pos, start + size - pos, value) == ReadHex(src, start, size, 0)
    {
      value := value * 16 + HexDigit(At(src, pos));
      pos := pos + 1;
    }
    ok := pos == start + size;
  }

  method DecodeChar(src: seq<Byte>, start: nat) returns (value: nat, pos: nat)
    requires start < |src|
    ensures (value, pos) == ReadTail(src, start + 1, CharLen(src[start]) - 1,
            FirstBits(src[start], CharLen(src[start])))
  {
    var len := CharLen(src[start]);
    value, pos := FirstBits(src[start], len), start + 1;
    while pos < start + len && pos < |src|
      invariant start + 1 <= pos <= start + len && pos <= |src|
      invariant ReadTail(src, pos, start + len - pos, value) ==
                ReadTail(src, start + 1, len - 1, FirstBits(src[start], len))
    {
      value := value * 64 + LowBits(src[pos]);
      pos := pos + 1;
    }
  }

  method ParseChar(src: seq<Byte>, start: nat) returns (ok: bool, value: nat, pos: nat)
    requires start <= |src|
    ensures match ReadChar(src, start)
            case Fail => !ok
            case Got(v, p) => ok && value == v && pos == p
  {
    ok, value, pos := false, 0, start;
    if start < |src| {
      if src[start] == '\\' as int {
        var c := At(src, start + 1);
        if c == 'x' as int {
          ok, value, pos := ParseHex(src, start + 2, 2);
        } else if c == 'u' as int {
          ok, value, pos := ParseHex(src, start + 2, 4);
        } else if c == 'U' as int {
          ok, value, pos := ParseHex(src, start + 2, 8);
        } else if c == 't' as int {
          ok, value, pos := true, '\t' as int, start + 2;
        } else if c == 'r' as int {
          ok, value, pos := true, '\r' as int, start + 2;
        } else if c == 'n' as int {
          ok, value, pos := true, '\n' as int, start + 2;
        } else if c == '\\' as int || c == '"' as int || c == '[' as int || c == ']' as int {
          ok, value, pos := true, c, start + 2;
        }
      } else {
        ok := true;
        value, pos := DecodeChar(src, start);
      }
    }
  }

  /** The characters of a literal, pushed one by one. */
  method ParseLiteral(src: seq<Byte>, start: nat, elements: seq<Elem>) returns (ok: bool, out: seq<Elem>, pos: nat)
    requires start <= |src|
    ensures match ReadLiteral(src, start, [])
            case Fail => !ok
            case Got(es, p) => ok && out == elements + es && pos == p
  {
    ok, out, pos := true, elements, start;
    ghost var es: seq<Elem> := [];
    while At(src, pos) != '"' as int
      invariant pos <= |src| && out == elements + es
      invariant ReadLiteral(src, pos, es) == ReadLiteral(src, start, [])
      decreases |src| - pos
    {
      var c, p;
      ok, c, p := ParseChar(src, pos);
      if !ok {
        return;
      }
      out, es, pos := out + [Char(c)], es + [Char(c)], p;
    }
    pos := pos + 1;
  }

  /** The characters and ranges of a class; the first one decides whether the class is negated. */
  method ParseClass(src: seq<Byte>, start: nat, negated: bool, elements: seq<Elem>)
    returns (ok: bool, out: seq<Elem>, pos: nat)
    requires start <= |src|
    ensures match ReadClass(src, start, negated, [])
            case Fail => !ok
            case Got(es, p) => ok && out == elements + es && pos == p
  {
    hide ReadChar;
    ok, out, pos := true, elements, start;
    ghost var es: seq<Elem> := [];
    while At(src, pos) != ']' as int
      invariant pos <= |src| && out == elements + es
      invariant ReadClass(src, pos, negated, es) == ReadClass(src, start, negated, [])
      decreases |src| - pos
    {
      var c, p;
      ok, c, p := ParseChar(src, pos);
      if !ok {
        return;
      }
      var e := ClassItem(negated, |out| == |elements|, c);
      out, es, pos := out + [e], es + [e], p;
      if At(src, pos) == '-' as int && At(src, pos + 1) != ']' as int {
        ok, c, p := ParseChar(src, pos + 1);
        if !ok {
          return;
        }
        out, es, pos := out + [RngUpper(c)], es + [RngUpper(c)], p;
      }
    }
    pos := pos + 1;
  }

  // ----- the parse state

  class ParseState {
    var symbolIds: map<Name, nat>
    var rules: Rules

    function State(): St
      reads this
    {
      St(symbolIds, rules)
    }

    constructor ()
      ensures State() == St(map[], [])
    {
      symbolIds, rules := map[], [];
    }

    method GetSymbolId(name: Name) returns (id: nat)
      modifies this
      ensures (State(), id) == GetId(old(State()), name)
    {
      if name !in symbolIds {
        symbolIds := symbolIds[name := |symbolIds|];
      }
      id := symbolIds[name];
    }

    method GenerateSymbolId(base: Name) returns (id: nat)
      modifies this
      ensures (State(), id) == GenId(old(State()), base)
    {
      id := |symbolIds|;
      symbolIds := symbolIds[SynthName(base, id) := id];
    }

    method SetRule(id: nat, rule: seq<Elem>)
      modifies this
      ensures State() == AddRule(old(State()), id, rule)
    {
      if |rules| <= id {
        rules := rules + seq(id + 1 - |rules|, _ => []);
      }
      rules := rules[id := rule];
    }

    /** Replace the last symbol of `out` by a reference to a new rule that repeats it. */
    method RepeatLast(op: Op, base: Name, out: seq<Elem>, lastStart: nat) returns (out1: seq<Elem>)
      requires lastStart <= |out|
      modifies this
      ensures var (st, id) := GenId(old(State()), base);
              State() == AddRule(st, id, RepeatRule(op, id, out[lastStart..])) &&
                  out1 == out[..lastStart] + [RuleRef(id)]
    {
      var id := GenerateSymbolId(base);
      var sub := out[lastStart..];
      if op == Star || op == Plus {
        sub := sub + [RuleRef(id)];
      }
      sub := sub + [Alt];
      if op == Plus {
        sub := sub + out[lastStart..];
      }
      sub := sub + [End];
      assert sub == RepeatRule(op, id, out[lastStart..]);
      SetRule(id, sub);
      out1 := out[..lastStart] + [RuleRef(id)];
    }

    /** One symbol of a sequence and the blanks after it. */
    method ParseSymbol(src: seq<Byte>, start: nat, ruleName: Name, elements: seq<Elem>, nested: bool)
      returns (ok: bool, out: seq<Elem>, pos: nat)
      requires start < |src| && StartsSymbol(At(src, start))
      modifies this
      ensures match ReadSymbol(src, start, nested)
              case Fail => !ok
              case Got(s, p) =>
                ok && pos == p && State() == CompileSym(old(State()), ruleName, s).0 &&
                out == elements + CompileSym(old(State()), ruleName, s).1
      decreases |src| - start, 0
    {
      hide SkipSpace, SkipName, ReadLiteral, ReadClass, ReadAlts, CompileAlts, AddRule;
      var c := At(src, start);
      if c == '"' as int {
        ok, out, pos := ParseLiteral(src, start + 1, elements);
        if ok {
          pos := ParseSpace(src, pos, nested);
        }
      } else if c == '[' as int {
        var negated := At(src, start + 1) == '^' as int;
        ok, out, pos := ParseClass(src, if negated then start + 2 else start + 1, negated, elements);
        if ok {
          pos := ParseSpace(src, pos, nested);
        }
      } else if IsWordChar(c) {
        var nameEnd;
        ok, nameEnd := ParseName(src, start);
        assert SkipName(src, start) > start by {
          NameAdvances(src, start);
        }
        var id := GetSymbolId(src[start..nameEnd]);
        pos := ParseSpace(src, nameEnd, nested);
        out := elements + [RuleRef(id)];
      } else {
        pos := ParseSpace(src, start + 1, true);
        out := elements;
        var id := GenerateSymbolId(ruleName);
        ok, pos := ParseAlternates(src, pos, ruleName, id, true);
        if ok {
          out := elements + [RuleRef(id)];
          if At(src, pos) != ')' as int {
            ok := false;
            return;
          }
          pos := ParseSpace(src, pos + 1, nested);
        }
      }
    }

    method ParseSequence(src: seq<Byte>, start: nat, ruleName: Name, elements: seq<Elem>, nested: bool)
      returns (ok: bool, out: seq<Elem>, pos: nat)
      requires start <= |src|
      modifies this
      ensures match ReadSeq(src, start, nested, [])
              case Fail => !ok
              case Got(syms, p) =>
                ok && pos == p && State() == CompileSeq(old(State()), ruleName, syms).0 &&
                out == elements + CompileSeq(old(State()), ruleName, syms).1
      decreases |src| - start, 1
    {
      hide SkipSpace, ReadSymbol, CompileSym, AddRule, RepeatRule;
      ghost var st0 := State();
      ghost var syms: seq<Sym> := [];
      ok, out, pos := true, elements, start;
      var lastStart := |out|;
      assert elements + [] == elements;
      while pos < |src|
        invariant pos <= |src| && start <= pos && ok
        invariant ReadSeq(src, pos, nested, syms) == ReadSeq(src, start, nested, [])
        invariant State() == CompileSeq(st0, ruleName, syms).0
        invariant out == elements + CompileSeq(st0, ruleName, syms).1
        invariant lastStart == |elements| + |BeforeLast(st0, ruleName, syms)|
        decreases |src| - pos
      {
        hide CompileSeq, BeforeLast;
        var c := At(src, pos);
        if StartsSymbol(c) {
          ghost var r := ReadSymbol(src, pos, nested);
          lastStart := |out|;
          ok, out, pos := ParseSymbol(src, pos, ruleName, out, nested);
          if !ok {
            return;
          }
          CompileSnoc(st0, ruleName, syms, r.value, elements);
          syms := syms + [r.value];
        } else if IsOp(c) {
          LastEmpty(st0, ruleName, syms);
          if lastStart == |out| {
            ok := false;
            return;
          }
          CompileRepeat(st0, ruleName, syms, OpOf(c), elements);
          out := RepeatLast(OpOf(c), ruleName, out, lastStart);
          syms := syms[..|syms| - 1] + [Repeat(OpOf(c), syms[|syms| - 1])];
          pos := ParseSpace(src, pos + 1, nested);
        } else {
          return;
        }
      }
    }

    method ParseAlternates(src: seq<Byte>, start: nat, ruleName: Name, ruleId: nat, nested: bool)
      returns (ok: bool, pos: nat)
      requires start <= |src|
      modifies this
      ensures match ReadAlts(src, start, nested)
              case Fail => !ok
              case Got(alts, p) =>
                ok && pos == p &&
                var (st, rule) := CompileAlts(old(State()), ruleName, alts);
                State() == AddRule(st, ruleId, rule + [End])
      decreases |src| - start, 2
    {
      hide SkipSpace, ReadSeq, CompileSeq, AddRule;
      ghost var st0 := State();
      var rule;
      ok, rule, pos := ParseSequence(src, start, ruleName, [], nested);
      if !ok {
        return;
      }
      ghost var alts := [Alternative(ReadSeq(src, start, nested, []).value)];
      CompileAltsFirst(st0, ruleName, alts[0]);
      assert [] + CompileSeq(st0, ruleName, alts[0].syms).1 == rule;
      while At(src, pos) == '|' as int
        invariant start <= pos <= |src| && ok && |alts| > 0
        invariant ReadMoreAlts(src, pos, nested, alts) == ReadAlts(src, start, nested)
        invariant State() == CompileAlts(st0, ruleName, alts).0 && rule == CompileAlts(st0, ruleName, alts).1
        decreases |src| - pos
      {
        hide CompileAlts;
        rule := rule + [Alt];
        var p := ParseSpace(src, pos + 1, true);
        ghost var r := ReadSeq(src, p, nested, []);
        ok, rule, pos := ParseSequence(src, p, ruleName, rule, nested);
        if !ok {
          return;
        }
        CompileAltsSnoc(st0, ruleName, alts, Alternative(r.value));
        alts := alts + [Alternative(r.value)];
      }
      rule := rule + [End];
      SetRule(ruleId, rule);
    }

    method ParseRule(src: seq<Byte>, start: nat) returns (ok: bool, pos: nat)
      requires start <= |src|
      modifies this
      ensures match ReadRule(src, start)
              case Fail => !ok
              case Got(def, p) => ok && pos == p && State() == CompileDef(old(State()), def)
    {
      hide SkipSpace, SkipName, ReadAlts;
      var nameEnd;
      ok, nameEnd := ParseName(src, start);
      pos := start;
      if !ok {
        return;
      }
      pos := ParseSpace(src, nameEnd, false);
      var name := src[start..nameEnd];
      var id := GetSymbolId(name);
      if !(At(src, pos) == ':' as int && At(src, pos + 1) == ':' as int && At(src, pos + 2) == '=' as int) {
        ok := false;
        return;
      }
      pos := ParseSpace(src, pos + 3, true);
      ok, pos := ParseAlternates(src, pos, name, id, false);
      if !ok {
        return;
      }
      if At(src, pos) == '\r' as int {
        pos := if At(src, pos + 1) == '\n' as int then pos + 2 else pos + 1;
      } else if At(src, pos) == '\n' as int {
        pos := pos + 1;
      } else if At(src, pos) != 0 {
        ok := false;
        return;
      }
      pos := ParseSpace(src, pos, true);
    }
  }

  lemma NameAdvances(src: seq<Byte>, pos: nat)
    requires pos <= |src| && IsWordChar(At(src, pos))
    ensures SkipName(src, pos) > pos
  {
  }

  /** Compile a grammar text; a text with an error gives the empty state. */
  method Parse(src: seq<Byte>) returns (state: ParseState)
    ensures fresh(state)
    ensures state.State() == ParsedState(src)
  {
    state := new ParseState();
    var pos := ParseSpace(src, 0, true);
    ghost var defs: seq<Def> := [];
    while pos < |src|
      invariant pos <= |src| && fresh(state)
      invariant ReadRules(src, pos, defs) == ReadText(src)
      invariant state.State() == CompileDefs(defs)
      decreases |src| - pos
    {
      hide ReadRule, SkipSpace, CompileDef;
      ghost var r := ReadRule(src, pos);
      var ok;
      ok, pos := state.ParseRule(src, pos);
      if !ok {
        state := new ParseState();
        return;
      }
      assert (defs + [r.value])[..|defs|] == defs;
      defs := defs + [r.value];
    }
  }

  /** The tables that a grammar text has to give. */
  function ParsedState(src: seq<Byte>): St {
    match ReadText(src)
    case Fail => St(map[], [])
    case Got(defs, _) => CompileDefs(defs)
  }

  // ----- how pushing elements follows the compiled sequence

  ghost function BeforeLast(st: St, base: Name, syms: seq<Sym>): seq<Elem> {
    if syms == [] then [] else CompileSeq(st, base, syms[..|syms| - 1]).1
  }

  lemma CompileSnoc(st: St, base: Name, syms: seq<Sym>, s: Sym, elements: seq<Elem>)
    ensures BeforeLast(st, base, syms + [s]) == CompileSeq(st, base, syms).1
    ensures var (st1, es) := CompileSeq(st, base, syms); var (st2, e) := CompileSym(st1, base, s);
            CompileSeq(st, base, syms + [s]).0 == st2 &&
            elements + CompileSeq(st, base, syms + [s]).1 == (elements + es) + e
  {
    assert (syms + [s])[..|syms|] == syms;
  }

  /** The last symbol has no elements only if it is an empty literal or class. */
  lemma LastEmpty(st: St, base: Name, syms: seq<Sym>)
    ensures |CompileSeq(st, base, syms).1| == |BeforeLast(st, base, syms)| <==>
            syms == [] || syms[|syms| - 1] == Term([])
  {
  }

  lemma CompileRepeat(st: St, base: Name, syms: seq<Sym>, op: Op, elements: seq<Elem>)
    requires syms != []
    ensures var n := |syms| - 1; var out := elements + CompileSeq(st, base, syms).1;
            var lastStart := |elements| + |BeforeLast(st, base, syms)|;
            var (st1, id) := GenId(CompileSeq(st, base, syms).0, base);
            var syms1 := syms[..n] + [Repeat(op, syms[n])];
            lastStart <= |out| &&
            CompileSeq(st, base, syms1).0 == AddRule(st1, id, RepeatRule(op, id, out[lastStart..])) &&
            elements + CompileSeq(st, base, syms1).1 == out[..lastStart] + [RuleRef(id)] &&
            BeforeLast(st, base, syms1) == BeforeLast(st, base, syms)
  {
    var n := |syms| - 1;
    var syms1 := syms[..n] + [Repeat(op, syms[n])];
    assert syms1[..n] == syms[..n] && syms1[n] == Repeat(op, syms[n]);
    var es := BeforeLast(st, base, syms);
    var e := CompileSym(CompileSeq(st, base, syms[..n]).0, base, syms[n]).1;
    var out := elements + (es + e);
    assert out[..|elements| + |es|] == elements + es && out[|elements| + |es|..] == e;
  }

  lemma CompileAltsFirst(st: St, base: Name, alt: Alternative)
    ensures CompileAlts(st, base, [alt]) == CompileSeq(st, base, alt.syms)
  {
    assert [alt][..0] == [];
  }

  lemma CompileAltsSnoc(st: St, base: Name, alts: seq<Alternative>, alt: Alternative)
    requires alts != []
    ensures var (st1, rule) := CompileAlts(st, base, alts); var (st2, es) := CompileSeq(st1, base, alt.syms);
            CompileAlts(st, base, alts + [alt]) == (st2, rule + [Alt] + es)
  {
    assert (alts + [alt])[..|alts|] == alts;
  }

  // ----- what a parsed text guarantees

  /** The tables of every text are in order: symbol numbers are a bijection onto 0..n-1, every
      synthesized name has its rule, and every rule that is there is well formed and refers to
      known numbers only. */
  lemma ParsedInOrder(src: seq<Byte>)
    ensures var st := ParsedState(src);
            IdsOk(st.ids) && AllSynthDefined(st) && forall k: nat :: RuleOk(RuleAt(st, k), |st.ids|)
  {
    ReadRulesOk(src, SkipSpace(src, 0, true), []);
    if ReadText(src).Got? {
      CompileDefsLinked(ReadText(src).value);
    } else {
      CompileDefsLinked([]);
    }
  }

  /** The rules of a text derive exactly the words that its definitions mean. */
  lemma ParsedMeaning(src: seq<Byte>, name: Name, w: Word)
    requires ReadText(src).Got? && Plain(name) && name in ParsedState(src).ids
    ensures RuleLang(ParsedState(src).rules, ParsedState(src).ids[name], w) <==>
            Means(EnvOf(ReadText(src).value), name, w)
  {
    ReadRulesOk(src, SkipSpace(src, 0, true), []);
    CompiledMeaning(ReadText(src).value, name, w);
  }

  /** Every name that the text uses is defined. */
  ghost predicate Complete(st: St) {
    forall name :: name in st.ids ==> RuleAt(st, st.ids[name]) != []
  }

  lemma CompleteAt(st: St, k: nat)
    requires Inv(st) && Complete(st) && k < |st.ids|
    ensures k < |st.rules| && WellFormedRule(st.rules[k]) && RefsBelow(st.rules[k], |st.ids|)
  {
    assert HasId(st.ids, k) && RuleOk(RuleAt(st, k), |st.ids|);
  }

  lemma CompleteWellFormed(st: St)
    requires Inv(st) && Complete(st)
    ensures WellFormed(st.rules) && |st.rules| == |st.ids|
  {
    if |st.ids| > 0 {
      CompleteAt(st, |st.ids| - 1);
    }
    forall r | 0 <= r < |st.rules|
      ensures WellFormedRule(st.rules[r]) && RefsBelow(st.rules[r], |st.rules|)
    {
      CompleteAt(st, r);
    }
  }

  /** From the text to the recogniser: for a complete text without left recursion, reading a word
      leaves an empty stack exactly when the word belongs to the start rule as it is written. */
  lemma TextRecognised(src: seq<Byte>, name: Name, cs: Word)
    requires ReadText(src).Got? && Plain(name) && name in ParsedState(src).ids && Complete(ParsedState(src))
    requires GrammarEngine.NoLeftRecursion(ParsedState(src).rules)
    ensures var g, start := ParsedState(src).rules, ParsedState(src).ids[name];
            WellFormed(g) && GrammarEngine.NoLeftRecursion(g) && start < |g| && WellFormedRule(g[start]) &&
            ([] in GrammarFilter.Run(g, GrammarFilter.InitFrom(g, start, 0), cs) <==>
             Means(EnvOf(ReadText(src).value), name, cs))
  {
    hide GrammarEngine.NoLeftRecursion, Means, RuleLang, GrammarFilter.Run, GrammarFilter.InitFrom, CompileDefs,
        WellFormed;
    ReadRulesOk(src, SkipSpace(src, 0, true), []);
    CompileDefsLinked(ReadText(src).value);
    var st := ParsedState(src);
    CompleteWellFormed(st);
    assert st.ids[name] < |st.rules|;
    GrammarFilter.EmptyStackIffWord(st.rules, st.ids[name], cs);
    ParsedMeaning(src, name, cs);
  }

  /** Repeating a symbol that derives the empty word makes a left recursive rule, so that the
      recogniser does not terminate on it. */
  lemma NullableRepeatIsLeftRecursive(g: Rules, op: Op, id: nat, es: seq<Elem>)
    requires id < |g| && g[id] == RepeatRule(op, id, es) && op != Opt && PieceOk(es) && Lang(g, es, [])
    ensures !GrammarEngine.NoLeftRecursion(g)
  {
    var t :| IsTree(g, es, t) && Yield(t) == [];
    assert es[0..] == es;
    assert g[id][|es|] == RuleRef(id) && forall i :: 0 <= i < |es| ==> g[id][i] == es[i];
    NullablePrefix(g, id, es, 0, t);
    assert GrammarEngine.LeftEdge(g, id, id);
    assert GrammarEngine.LeftPath(g, [id, id]);
  }

  lemma {:induction false} NullablePrefix(g: Rules, id: nat, es: seq<Elem>, i: nat, t: Tree)
    requires id < |g| && |g[id]| > |es| && (forall k :: 0 <= k < |es| ==> g[id][k] == es[k]) && PieceOk(es)
    requires i <= |es| && GrammarEngine.LeftPos(g, id, i) && IsTree(g, es[i..], t) && Yield(t) == []
    ensures GrammarEngine.LeftPos(g, id, |es|)
    decreases |es| - i
  {
    if i < |es| {
      assert es[i..][0] == es[i] && es[i..][1..] == es[i + 1..];
      assert !IsEnd(es[i]);
      assert Lang(g, g[es[i].rule][t.alt..], []);
      NullablePrefix(g, id, es, i + 1, t.rest);
    }
  }
}
