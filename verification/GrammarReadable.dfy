/** What can be read can be written: the definitions of any text are those that a text can be made for. */
module GrammarReadable {
  import opened GrammarRules
  import opened GrammarText
  import opened GrammarPrint

  // ----- characters

  function Power(base: nat, n: nat): nat {
    if n == 0 then 1 else base * Power(base, n - 1)
  }

  lemma Grow(v: nat, d: nat, base: nat, p: nat)
    requires d < base
    ensures (v * base + d + 1) * p <= (v + 1) * (base * p)
  {
    assert (v + 1) * (base * p) == ((v + 1) * base) * p;
    assert (v + 1) * base == v * base + base;
    var e := base - d - 1;
    assert (v * base + d + 1 + e) * p == (v * base + d + 1) * p + e * p;
  }

  lemma {:induction false} HexSmall(src: seq<Byte>, pos: nat, size: nat, value: nat)
    requires pos <= |src|
    ensures var r := ReadHex(src, pos, size, value); r.Got? ==> r.value < (value + 1) * Power(16, size)
    decreases size
  {
    if size > 0 && IsHex(At(src, pos)) {
      var d := HexDigit(At(src, pos));
      HexSmall(src, pos + 1, size - 1, value * 16 + d);
      Grow(value, d, 16, Power(16, size - 1));
    }
  }

  lemma {:induction false} TailSmall(src: seq<Byte>, pos: nat, n: nat, value: nat)
    requires pos <= |src|
    ensures ReadTail(src, pos, n, value).0 < (value + 1) * Power(64, n)
    decreases n
  {
    PowerPositive(64, n);
    if n > 0 && pos < |src| {
      var d := LowBits(src[pos]);
      TailSmall(src, pos + 1, n - 1, value * 64 + d);
      Grow(value, d, 64, Power(64, n - 1));
    } else {
      assert value + 1 <= (value + 1) * Power(64, n) by {
        assert (value + 1) * Power(64, n) == (value + 1) * (Power(64, n) - 1) + (value + 1);
      }
    }
  }

  lemma {:induction false} PowerPositive(base: nat, n: nat)
    requires base > 0
    ensures Power(base, n) > 0
  {
    if n > 0 {
      PowerPositive(base, n - 1);
    }
  }

  lemma CharSmall(src: seq<Byte>, pos: nat)
    requires pos <= |src|
    ensures var r := ReadChar(src, pos); r.Got? ==> r.value < 0x1_0000_0000
  {
    hide ReadHex, ReadTail;
    if pos < |src| {
      assert Power(16, 2) == 256 && Power(16, 4) == 0x1_0000;
      assert Power(16, 8) == 0x1_0000_0000;
      if src[pos] == '\\' as int {
        if pos + 2 <= |src| {
          HexSmall(src, pos + 2, 2, 0);
          HexSmall(src, pos + 2, 4, 0);
          HexSmall(src, pos + 2, 8, 0);
        }
      } else {
        var n := CharLen(src[pos]);
        assert Power(64, 0) == 1 && Power(64, 1) == 64 && Power(64, 2) == 4096 && Power(64, 3) == 0x4_0000;
        TailSmall(src, pos + 1, n - 1, FirstBits(src[pos], n));
      }
    }
  }

  // ----- symbols

  predicate Small(es: seq<Elem>) {
    forall i :: 0 <= i < |es| && IsCharElem(es[i]) ==> es[i].c < 0x1_0000_0000
  }

  lemma {:induction false} LiteralWritable(src: seq<Byte>, pos: nat, es: seq<Elem>)
    requires pos <= |src| && IsLiteral(es) && Small(es)
    ensures var r := ReadLiteral(src, pos, es); r.Got? ==> IsLiteral(r.value) && Small(r.value)
    decreases |src| - pos
  {
    hide ReadChar;
    if At(src, pos) != '"' as int && ReadChar(src, pos).Got? {
      CharSmall(src, pos);
      LiteralWritable(src, ReadChar(src, pos).pos, es + [Char(ReadChar(src, pos).value)]);
    }
  }

  predicate Classy(es: seq<Elem>) {
    (es == [] || IsClass(es)) && Small(es)
  }

  lemma {:induction false} ClassWritable(src: seq<Byte>, pos: nat, negated: bool, es: seq<Elem>)
    requires pos <= |src| && Classy(es)
    ensures var r := ReadClass(src, pos, negated, es); r.Got? ==> Classy(r.value)
    decreases |src| - pos
  {
    hide ReadChar, Classy;
    if At(src, pos) != ']' as int && ReadChar(src, pos).Got? {
      CharSmall(src, pos);
      var c, p := ReadChar(src, pos).value, ReadChar(src, pos).pos;
      var es1 := es + [ClassItem(negated, es == [], c)];
      ItemClassy(es, negated, c);
      if At(src, p) == '-' as int && At(src, p + 1) != ']' as int {
        if ReadChar(src, p + 1).Got? {
          CharSmall(src, p + 1);
          RangeClassy(es1, ReadChar(src, p + 1).value);
          ClassWritable(src, ReadChar(src, p + 1).pos, negated, es1 + [RngUpper(ReadChar(src, p + 1).value)]);
        }
      } else {
        ClassWritable(src, p, negated, es1);
      }
    }
  }

  lemma ItemClassy(es: seq<Elem>, negated: bool, c: nat)
    requires Classy(es) && c < 0x1_0000_0000
    ensures var es1 := es + [ClassItem(negated, es == [], c)]; Classy(es1) && !es1[|es1| - 1].RngUpper?
  {
  }

  lemma RangeClassy(es: seq<Elem>, c: nat)
    requires es != [] && Classy(es) && !es[|es| - 1].RngUpper? && c < 0x1_0000_0000
    ensures Classy(es + [RngUpper(c)])
  {
  }

  lemma NameReadable(src: seq<Byte>, pos: nat)
    requires pos <= |src| && IsWordChar(At(src, pos))
    ensures IsName(src[pos..SkipName(src, pos)])
  {
    var name := src[pos..SkipName(src, pos)];
    forall i | 0 <= i < |name|
      ensures IsWordChar(name[i])
    {
      assert IsWordChar(At(src, pos + i));
    }
  }

  lemma {:induction false} SymbolWritable(src: seq<Byte>, pos: nat, nested: bool)
    requires pos <= |src|
    ensures var r := ReadSymbol(src, pos, nested); r.Got? ==> Writable(r.value)
    decreases |src| - pos, 0
  {
    hide ReadLiteral, ReadClass, SkipName, SkipSpace, ReadAlts;
    var c := At(src, pos);
    if c == '"' as int {
      LiteralWritable(src, pos + 1, []);
    } else if c == '[' as int {
      var negated := At(src, pos + 1) == '^' as int;
      ClassWritable(src, if negated then pos + 2 else pos + 1, negated, []);
    } else if IsWordChar(c) {
      NameReadable(src, pos);
    } else if c == '(' as int {
      AltsReadable(src, SkipSpace(src, pos + 1, true), true);
    }
  }

  predicate AllSymsWritable(syms: seq<Sym>) {
    forall i :: 0 <= i < |syms| ==> Writable(syms[i])
  }

  /** Symbols are only added, so that nothing is read at all where the result is empty. */
  lemma {:induction false} SeqReadable(src: seq<Byte>, pos: nat, nested: bool, syms: seq<Sym>)
    requires pos <= |src| && AllSymsWritable(syms)
    ensures var r := ReadSeq(src, pos, nested, syms);
            r.Got? ==> AllSymsWritable(r.value) && (r.value == [] ==> syms == [] && r.pos == pos)
    decreases |src| - pos, 1
  {
    hide ReadSymbol, SkipSpace, Writable;
    var c := At(src, pos);
    if StartsSymbol(c) {
      SymbolWritable(src, pos, nested);
      var r := ReadSymbol(src, pos, nested);
      if r.Got? {
        SeqReadable(src, r.pos, nested, syms + [r.value]);
      }
    } else if IsOp(c) && syms != [] && syms[|syms| - 1] != Term([]) {
      var last := syms[|syms| - 1];
      RepeatWritable(OpOf(c), last);
      SeqReadable(src, SkipSpace(src, pos + 1, nested), nested, syms[..|syms| - 1] + [Repeat(OpOf(c), last)]);
    }
  }

  lemma RepeatWritable(op: Op, body: Sym)
    requires Writable(body) && body != Term([])
    ensures Writable(Repeat(op, body))
  {
  }

  ghost predicate Open(src: seq<Byte>, pos: nat, alts: seq<Alternative>) {
    |alts| > 0 && (alts[|alts| - 1].syms == [] ==> Solid(src, pos, true))
  }

  lemma AltsSnoc(alts: seq<Alternative>, syms: seq<Sym>)
    requires (alts == [] || AltsWritable(alts)) && AllSymsWritable(syms)
    ensures AltsWritable(alts + [Alternative(syms)])
  {
    hide Writable;
  }

  lemma {:induction false} SkipSolid(src: seq<Byte>, pos: nat, newlineOk: bool)
    requires pos <= |src|
    ensures Solid(src, SkipSpace(src, pos, newlineOk), newlineOk)
    decreases |src| - pos
  {
    if IsSpace(At(src, pos), newlineOk) {
      SkipSolid(src, pos + 1, newlineOk);
    } else if At(src, pos) == '#' as int {
      SkipSolid(src, SkipLine(src, pos + 1), newlineOk);
    }
  }

  lemma {:induction false} AltsReadable(src: seq<Byte>, pos: nat, nested: bool)
    requires pos <= |src|
    ensures var r := ReadAlts(src, pos, nested); r.Got? ==> AltsWritable(r.value)
    ensures var r := ReadAlts(src, pos, nested); r.Got? && Solid(src, pos, true) ==> Open(src, r.pos, r.value)
    decreases |src| - pos, 2
  {
    hide ReadSeq, ReadMoreAlts, AltsWritable, Writable;
    SeqReadable(src, pos, nested, []);
    var r := ReadSeq(src, pos, nested, []);
    if r.Got? {
      AltsSnoc([], r.value);
      assert [] + [Alternative(r.value)] == [Alternative(r.value)];
      MoreReadable(src, r.pos, nested, [Alternative(r.value)]);
    }
  }

  lemma {:induction false} MoreReadable(src: seq<Byte>, pos: nat, nested: bool, alts: seq<Alternative>)
    requires pos <= |src| && AltsWritable(alts)
    ensures var r := ReadMoreAlts(src, pos, nested, alts); r.Got? ==> AltsWritable(r.value)
    ensures var r := ReadMoreAlts(src, pos, nested, alts); r.Got? && Open(src, pos, alts) ==> Open(src, r.pos, r.value)
    decreases |src| - pos, 0
  {
    hide ReadSeq, SkipSpace, AltsWritable, Writable;
    if At(src, pos) == '|' as int {
      var p := SkipSpace(src, pos + 1, true);
      SkipSolid(src, pos + 1, true);
      SeqReadable(src, p, nested, []);
      var r := ReadSeq(src, p, nested, []);
      if r.Got? {
        AltsSnoc(alts, r.value);
        MoreReadable(src, r.pos, nested, alts + [Alternative(r.value)]);
      }
    }
  }

  // ----- definitions

  /** A definition that ends with an empty alternative is followed by nothing. */
  lemma RuleReadable(src: seq<Byte>, pos: nat)
    requires pos <= |src| && ReadRule(src, pos).Got?
    ensures DefWritable(ReadRule(src, pos).value)
    ensures !Tight(ReadRule(src, pos).value) ==> ReadRule(src, pos).pos == |src|
  {
    hide ReadAlts, SkipName, SkipSpace, AltsWritable, IsName;
    var p := SkipSpace(src, SkipName(src, pos), false);
    var start := SkipSpace(src, p + 3, true);
    SkipSolid(src, p + 3, true);
    AltsReadable(src, start, false);
    NameReadable(src, pos);
    var q := ReadAlts(src, start, false).pos;
    if !Tight(ReadRule(src, pos).value) {
      assert q == |src|;
      NoBlank(src, q, true);
    }
  }

  lemma {:induction false} RulesReadable(src: seq<Byte>, pos: nat, defs: seq<Def>)
    requires pos <= |src| && AllWritable(defs) && (pos < |src| && defs != [] ==> Tight(defs[|defs| - 1]))
    ensures var r := ReadRules(src, pos, defs); r.Got? ==> AllWritable(r.value)
    decreases |src| - pos
  {
    if pos < |src| {
      hide ReadRule, DefWritable, Tight;
      var r := ReadRule(src, pos);
      if r.Got? {
        RuleReadable(src, pos);
        RulesReadable(src, r.pos, defs + [r.value]);
      }
    }
  }

  /** Definitions are those of some text if and only if they are writable. */
  lemma ReadableIffWritable(defs: seq<Def>)
    ensures (exists src, p :: ReadText(src) == Got(defs, p)) <==> AllWritable(defs)
  {
    hide ReadRules, AllWritable, SkipSpace;
    if src, p :| ReadText(src) == Got(defs, p) {
      NothingYet();
      RulesReadable(src, SkipSpace(src, 0, true), []);
    }
    if AllWritable(defs) {
      ReadShown(defs);
    }
  }

  lemma NothingYet()
    ensures AllWritable([])
  {
  }
}
