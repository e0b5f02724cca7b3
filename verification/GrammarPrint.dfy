/** Writing definitions as text, so that reading the text gives the definitions back. */
module GrammarPrint {
  import opened Seqs
  import opened GrammarRules
  import opened GrammarText
  import GrammarMeaning
  import GrammarParser

  // ----- writing

  const BLANK: Byte := 32
  const QUOTE: Byte := 34
  const OPEN: Byte := 40
  const CLOSE: Byte := 41
  const DASH: Byte := 45
  const BRACKET: Byte := 91
  const BACKSLASH: Byte := 92
  const UNBRACKET: Byte := 93
  const HAT: Byte := 94
  const BAR: Byte := 124
  const NEWLINE: Byte := 10

  function Digit(d: nat): Byte
    requires d < 16
  {
    if d < 10 then 48 + d else 87 + d
  }

  /** `c` in `n` hexadecimal digits. */
  function Hex(c: nat, n: nat): (r: seq<Byte>)
    ensures |r| == n
  {
    if n == 0 then [] else Hex(c / 16, n - 1) + [Digit(c % 16)]
  }

  /** A character as an escape of eight digits. */
  function ShowChar(c: nat): (r: seq<Byte>)
    ensures |r| == 10
  {
    [BACKSLASH, 85] + Hex(c, 8)
  }

  function ShowLiteral(es: seq<Elem>): seq<Byte>
    requires forall i :: 0 <= i < |es| ==> es[i].Char?
  {
    if es == [] then [QUOTE] else ShowChar(es[0].c) + ShowLiteral(es[1..])
  }

  /** The rest of a class after its first character. */
  function ShowClass(es: seq<Elem>): seq<Byte>
    requires forall i :: 0 <= i < |es| ==> es[i].CharAlt? || es[i].RngUpper?
  {
    if es == [] then [UNBRACKET]
    else (if es[0].RngUpper? then [DASH] else []) + ShowChar(es[0].c) + ShowClass(es[1..])
  }

  predicate IsLiteral(es: seq<Elem>) {
    forall i :: 0 <= i < |es| ==> es[i].Char?
  }

  /** A class as reading makes it: a range end only after a character. */
  predicate IsClass(es: seq<Elem>) {
    && |es| > 0 && IsClassStart(es[0]) && (forall i :: 0 < i < |es| ==> es[i].CharAlt? || es[i].RngUpper?)
    && (forall i :: 0 < i < |es| && es[i].RngUpper? ==> !es[i - 1].RngUpper?)
  }

  function ShowTerm(es: seq<Elem>): seq<Byte>
    requires IsLiteral(es) || IsClass(es)
  {
    if IsLiteral(es) then [QUOTE] + ShowLiteral(es)
    else [BRACKET] + (if es[0].CharNot? then [HAT] else []) + ShowChar(es[0].c) + ShowClass(es[1..])
  }

  function OpChar(op: Op): Byte {
    match op case Star => 42 case Plus => 43 case Opt => 63
  }

  function ShowSym(s: Sym): seq<Byte>
    requires Writable(s)
    decreases s, 0
  {
    match s
    case Term(es) => ShowTerm(es) + [BLANK]
    case Ref(name) => name + [BLANK]
    case Group(alts) => [OPEN] + ShowAlts(alts) + [CLOSE, BLANK]
    case Repeat(op, body) => ShowSym(body) + [OpChar(op), BLANK]
  }

  function ShowSeq(syms: seq<Sym>): seq<Byte>
    requires forall i :: 0 <= i < |syms| ==> Writable(syms[i])
    decreases syms, 1
  {
    if syms == [] then [] else ShowSym(syms[0]) + ShowSeq(syms[1..])
  }

  /** Alternatives, each followed by a bar but the last. */
  function ShowAlts(alts: seq<Alternative>): seq<Byte>
    requires AltsWritable(alts)
    decreases alts, 2
  {
    ShowSeq(alts[0].syms) + if |alts| == 1 then [] else [BAR, BLANK] + ShowAlts(alts[1..])
  }

  // ----- what can be written

  predicate IsName(name: Name) {
    |name| > 0 && forall i :: 0 <= i < |name| ==> IsWordChar(name[i])
  }

  predicate Writable(s: Sym)
    decreases s, 0
  {
    match s
    case Term(es) => (IsLiteral(es) || IsClass(es)) && forall i :: 0 <= i < |es| && IsCharElem(es[i]) ==>
        es[i].c < 0x1_0000_0000
    case Ref(name) => IsName(name)
    case Group(alts) => AltsWritable(alts)
    case Repeat(_, body) => Writable(body) && body != Term([])
  }

  predicate AltsWritable(alts: seq<Alternative>)
    decreases alts, 1
  {
    |alts| > 0 && forall i, j :: 0 <= i < |alts| && 0 <= j < |alts[i].syms| ==> Writable(alts[i].syms[j])
  }

  predicate DefWritable(def: Def) {
    IsName(def.name) && AltsWritable(def.alts)
  }

  /** The last alternative is not empty. */
  predicate Tight(def: Def) {
    |def.alts| > 0 && def.alts[|def.alts| - 1].syms != []
  }

  /** An empty alternative cannot end a definition that is followed by another one: after a bar the line end
      is skipped. */
  predicate AllWritable(defs: seq<Def>) {
    && (forall i :: 0 <= i < |defs| ==> DefWritable(defs[i]))
    && (forall i :: 0 <= i < |defs| - 1 ==> Tight(defs[i]))
  }

  function ShowDef(def: Def): seq<Byte>
    requires DefWritable(def)
  {
    def.name + [BLANK, 58, 58, 61, BLANK] + ShowAlts(def.alts)
  }

  /** Definitions with line ends between them. */
  function Show(defs: seq<Def>): seq<Byte>
    requires forall i :: 0 <= i < |defs| ==> DefWritable(defs[i])
  {
    if defs == [] then []
    else ShowDef(defs[0]) + (if |defs| == 1 then [] else [NEWLINE]) + Show(defs[1..])
  }

  // ----- places in a text

  /** The text `t` stands at `pos`. */
  ghost predicate Here(src: seq<Byte>, pos: nat, t: seq<Byte>) {
    pos + |t| <= |src| && src[pos..pos + |t|] == t
  }

  lemma HereSplit(src: seq<Byte>, pos: nat, a: seq<Byte>, b: seq<Byte>)
    requires Here(src, pos, a + b)
    ensures Here(src, pos, a) && Here(src, pos + |a|, b)
  {
    var t := src[pos..pos + |a + b|];
    assert t[..|a|] == a && t[|a|..] == b;
    assert src[pos..pos + |a|] == t[..|a|];
    assert src[pos + |a|..pos + |a| + |b|] == t[|a|..];
  }

  lemma HereAt(src: seq<Byte>, pos: nat, t: seq<Byte>, i: nat)
    requires Here(src, pos, t) && i < |t|
    ensures At(src, pos + i) == src[pos + i] == t[i]
  {
    assert src[pos..pos + |t|][i] == t[i];
  }

  /** What stands at `pos` ends the blanks before it. */
  predicate Solid(src: seq<Byte>, pos: nat, newlineOk: bool) {
    !IsSpace(At(src, pos), newlineOk) && At(src, pos) != '#' as int
  }

  lemma SkipOne(src: seq<Byte>, pos: nat, newlineOk: bool)
    requires pos < |src| && src[pos] == BLANK && Solid(src, pos + 1, newlineOk)
    ensures SkipSpace(src, pos, newlineOk) == pos + 1
  {
    assert SkipSpace(src, pos + 1, newlineOk) == pos + 1;
  }

  // ----- characters

  lemma {:induction false} ReadHexSnoc(src: seq<Byte>, pos: nat, n: nat, v: nat)
    requires pos + n < |src| && IsHex(src[pos + n]) && ReadHex(src, pos, n, v).Got?
    ensures ReadHex(src, pos, n + 1, v) == Got(ReadHex(src, pos, n, v).value * 16 + HexDigit(src[pos + n]), pos + n + 1)
    decreases n
  {
    if n > 0 {
      ReadHexSnoc(src, pos + 1, n - 1, v * 16 + HexDigit(src[pos]));
    } else {
      assert ReadHex(src, pos + 1, 0, v * 16 + HexDigit(src[pos])) == Got(v * 16 + HexDigit(src[pos]), pos + 1);
    }
  }

  function Pow16(n: nat): (r: nat)
    ensures r > 0
  {
    if n == 0 then 1 else 16 * Pow16(n - 1)
  }

  lemma {:induction false} ReadHexShown(src: seq<Byte>, pos: nat, c: nat, n: nat)
    requires Here(src, pos, Hex(c, n)) && c < Pow16(n)
    ensures ReadHex(src, pos, n, 0) == Got(c, pos + n)
  {
    if n > 0 {
      HereSplit(src, pos, Hex(c / 16, n - 1), [Digit(c % 16)]);
      HereAt(src, pos, Hex(c, n), n - 1);
      ReadHexShown(src, pos, c / 16, n - 1);
      assert HexDigit(Digit(c % 16)) == c % 16;
      ReadHexSnoc(src, pos, n - 1, 0);
    }
  }

  lemma ReadCharShown(src: seq<Byte>, pos: nat, c: nat)
    requires Here(src, pos, ShowChar(c)) && c < 0x1_0000_0000
    ensures ReadChar(src, pos) == Got(c, pos + 10) && At(src, pos) == BACKSLASH
  {
    hide Hex, ReadHex;
    HereSplit(src, pos, [BACKSLASH, 85], Hex(c, 8));
    HereAt(src, pos, [BACKSLASH, 85], 0);
    HereAt(src, pos, [BACKSLASH, 85], 1);
    assert Pow16(4) == 0x1_0000;
    assert Pow16(8) == 0x1_0000_0000;
    ReadHexShown(src, pos + 2, c, 8);
  }

  predicate Small(es: seq<Elem>) {
    forall i :: 0 <= i < |es| && IsCharElem(es[i]) ==> es[i].c < 0x1_0000_0000
  }

  lemma {:induction false} ReadLiteralShown(src: seq<Byte>, pos: nat, done: seq<Elem>, es: seq<Elem>)
    requires IsLiteral(es) && Small(es) && Here(src, pos, ShowLiteral(es))
    ensures ReadLiteral(src, pos, done) == Got(done + es, pos + |ShowLiteral(es)|)
    decreases |es|
  {
    hide ShowChar, ReadChar;
    if es == [] {
      HereAt(src, pos, [QUOTE], 0);
      assert done + es == done;
    } else {
      HereSplit(src, pos, ShowChar(es[0].c), ShowLiteral(es[1..]));
      ReadCharShown(src, pos, es[0].c);
      ReadLiteralShown(src, pos + 10, done + [es[0]], es[1..]);
      assert done + [es[0]] + es[1..] == done + es;
    }
  }

  /** The first character of the rest of a class: an escape, a dash, or the bracket. */
  lemma ClassHead(src: seq<Byte>, pos: nat, es: seq<Elem>)
    requires (forall i :: 0 <= i < |es| ==> es[i].CharAlt? || es[i].RngUpper?) && Here(src, pos, ShowClass(es))
    ensures At(src, pos) == if es == [] then UNBRACKET else if es[0].RngUpper? then DASH else BACKSLASH
    ensures es != [] && es[0].RngUpper? ==> At(src, pos + 1) == BACKSLASH
  {
    hide Hex;
    var t := ShowClass(es);
    HereAt(src, pos, t, 0);
    if es != [] && es[0].RngUpper? {
      assert t == [DASH] + ShowChar(es[0].c) + ShowClass(es[1..]);
      assert t[1] == BACKSLASH;
      HereAt(src, pos, t, 1);
    }
  }

  /** The rest of a class, from a character on. */
  lemma {:induction false} ReadClassShown(src: seq<Byte>, pos: nat, negated: bool, done: seq<Elem>, es: seq<Elem>)
    requires done != [] && (forall i :: 0 <= i < |es| ==> es[i].CharAlt? || es[i].RngUpper?) && Small(es)
    requires (es != [] ==> !es[0].RngUpper?) && forall i :: 0 < i < |es| && es[i].RngUpper? ==> !es[i - 1].RngUpper?
    requires Here(src, pos, ShowClass(es))
    ensures ReadClass(src, pos, negated, done) == Got(done + es, pos + |ShowClass(es)|)
    decreases |es|
  {
    hide ShowChar, ReadChar, ReadClass, ShowClass;
    if es == [] {
      ReadClassEnd(src, pos, negated, done);
      assert done + es == done;
    } else {
      ShowClassStep(es);
      HereSplit(src, pos, ShowChar(es[0].c), ShowClass(es[1..]));
      ReadCharShown(src, pos, es[0].c);
      AfterItem(src, pos, negated, done, es[0], es[1..]);
      if |es| > 1 && es[1].RngUpper? {
        assert es[1..][1..] == es[2..];
        ShowClassStep(es[1..]);
        ReadClassShown(src, pos + 21, negated, done + [es[0]] + [es[1]], es[2..]);
        Joined(done, es[0], es[1], es[2..], es);
      } else {
        ReadClassShown(src, pos + 10, negated, done + [es[0]], es[1..]);
        assert done + [es[0]] + es[1..] == done + es;
      }
    }
  }

  lemma Joined(done: seq<Elem>, a: Elem, b: Elem, rest: seq<Elem>, es: seq<Elem>)
    requires |es| == |rest| + 2 && es[0] == a && es[1] == b && es[2..] == rest
    ensures done + [a] + [b] + rest == done + es
  {
    assert es == [a] + [b] + rest;
  }

  lemma ReadClassEnd(src: seq<Byte>, pos: nat, negated: bool, done: seq<Elem>)
    requires Here(src, pos, ShowClass([]))
    ensures ReadClass(src, pos, negated, done) == Got(done, pos + |ShowClass([])|)
  {
    ClassHead(src, pos, []);
  }

  lemma ShowClassStep(es: seq<Elem>)
    requires es != [] && forall i :: 0 <= i < |es| ==> es[i].CharAlt? || es[i].RngUpper?
    ensures ShowClass(es) == (if es[0].RngUpper? then [DASH] else []) + ShowChar(es[0].c) + ShowClass(es[1..])
    ensures !es[0].RngUpper? ==> ShowClass(es) == ShowChar(es[0].c) + ShowClass(es[1..])
    ensures |ShowClass(es)| == (if es[0].RngUpper? then 11 else 10) + |ShowClass(es[1..])|
  {
    hide ShowChar;
    assert [] + ShowChar(es[0].c) == ShowChar(es[0].c);
  }

  /** After the character at `pos` comes a range end or not. */
  lemma AfterItem(src: seq<Byte>, pos: nat, negated: bool, done: seq<Elem>, e: Elem, es: seq<Elem>)
    requires pos + 10 <= |src| && At(src, pos) == BACKSLASH && IsCharElem(e) && ReadChar(src, pos) == Got(e.c, pos + 10)
    requires e == ClassItem(negated, done == [], e.c)
    requires (forall i :: 0 <= i < |es| ==> es[i].CharAlt? || es[i].RngUpper?) && Small(es)
    requires Here(src, pos + 10, ShowClass(es))
    ensures if es != [] && es[0].RngUpper?
            then Here(src, pos + 21, ShowClass(es[1..])) &&
                 ReadClass(src, pos, negated, done) == ReadClass(src, pos + 21, negated, done + [e] + [es[0]])
            else ReadClass(src, pos, negated, done) == ReadClass(src, pos + 10, negated, done + [e])
  {
    hide ShowChar, ReadChar, Hex;
    ClassHead(src, pos + 10, es);
    if es != [] && es[0].RngUpper? {
      var c := ShowChar(es[0].c);
      assert ShowClass(es) == [DASH] + (c + ShowClass(es[1..]));
      HereSplit(src, pos + 10, [DASH], c + ShowClass(es[1..]));
      HereSplit(src, pos + 11, c, ShowClass(es[1..]));
      ReadCharShown(src, pos + 11, es[0].c);
    }
  }

  /** A literal or class and the blank after it. */
  lemma ReadTermShown(src: seq<Byte>, pos: nat, es: seq<Elem>, nested: bool)
    requires (IsLiteral(es) || IsClass(es)) && Small(es) && Here(src, pos, ShowTerm(es) + [BLANK])
    requires Solid(src, pos + |ShowTerm(es)| + 1, nested)
    ensures ReadSymbol(src, pos, nested) == Got(Term(es), pos + |ShowTerm(es)| + 1) && StartsSymbol(At(src, pos))
  {
    hide ShowTerm, ReadSymbol, Small;
    var end := pos + |ShowTerm(es)|;
    HereSplit(src, pos, ShowTerm(es), [BLANK]);
    HereAt(src, end, [BLANK], 0);
    SkipOne(src, end, nested);
    if IsLiteral(es) {
      LiteralSymbol(src, pos, es, nested);
    } else {
      ClassSymbol(src, pos, es, nested);
    }
  }

  lemma LiteralSymbol(src: seq<Byte>, pos: nat, es: seq<Elem>, nested: bool)
    requires IsLiteral(es) && Small(es) && Here(src, pos, ShowTerm(es))
    ensures StartsSymbol(At(src, pos))
    ensures ReadSymbol(src, pos, nested) == Got(Term(es), SkipSpace(src, pos + |ShowTerm(es)|, nested))
  {
    hide ReadLiteral, ShowLiteral, Small, SkipSpace;
    HereSplit(src, pos, [QUOTE], ShowLiteral(es));
    HereAt(src, pos, [QUOTE], 0);
    ReadLiteralShown(src, pos + 1, [], es);
    assert [] + es == es;
  }

  lemma ClassSymbol(src: seq<Byte>, pos: nat, es: seq<Elem>, nested: bool)
    requires IsClass(es) && !IsLiteral(es) && Small(es) && Here(src, pos, ShowTerm(es))
    ensures StartsSymbol(At(src, pos))
    ensures ReadSymbol(src, pos, nested) == Got(Term(es), SkipSpace(src, pos + |ShowTerm(es)|, nested))
  {
    hide ReadClass, ShowClass, ShowChar, IsClass, Small, SkipSpace;
    var t := ShowTerm(es);
    assert t[0] == BRACKET;
    HereAt(src, pos, t, 0);
    ReadWholeClass(src, pos, es);
  }

  lemma ReadWholeClass(src: seq<Byte>, pos: nat, es: seq<Elem>)
    requires IsClass(es) && !IsLiteral(es) && Small(es) && Here(src, pos, ShowTerm(es))
    ensures var negated := At(src, pos + 1) == HAT;
            ReadClass(src, if negated then pos + 2 else pos + 1, negated, []) == Got(es, pos + |ShowTerm(es)|)
  {
    hide ShowChar, ReadChar, Hex, ShowClass, ReadClass, IsLiteral;
    var c, rest := ShowChar(es[0].c), ShowClass(es[1..]);
    var p := if es[0].CharNot? then pos + 2 else pos + 1;
    var mark := [BRACKET] + (if es[0].CharNot? then [HAT] else []);
    Assoc(mark, c, rest);
    assert ShowTerm(es) == mark + (c + rest);
    HereSplit(src, pos, mark, c + rest);
    HereSplit(src, p, c, rest);
    ReadCharShown(src, p, es[0].c);
    if es[0].CharNot? {
      HereAt(src, pos, mark, 1);
    }
    WholeRest(src, p, At(src, pos + 1) == HAT, es);
  }

  lemma WholeRest(src: seq<Byte>, p: nat, negated: bool, es: seq<Elem>)
    requires IsClass(es) && Small(es) && negated == es[0].CharNot? && Here(src, p, ShowChar(es[0].c))
    requires Here(src, p + 10, ShowClass(es[1..])) && ReadChar(src, p) == Got(es[0].c, p + 10)
    requires At(src, p) == BACKSLASH
    ensures ReadClass(src, p, negated, []) == Got(es, p + 10 + |ShowClass(es[1..])|)
  {
    hide ShowChar, ReadChar, Hex, ShowClass, ReadClass, Here;
    AfterItem(src, p, negated, [], es[0], es[1..]);
    Rebuilt(es);
    if |es| > 1 && es[1].RngUpper? {
      ShowClassStep(es[1..]);
      ReadClassShown(src, p + 21, negated, [es[0]] + [es[1]], es[2..]);
    } else {
      ReadClassShown(src, p + 10, negated, [es[0]], es[1..]);
    }
  }

  lemma Rebuilt(es: seq<Elem>)
    requires es != []
    ensures [] + [es[0]] == [es[0]] && [es[0]] + es[1..] == es
    ensures |es| > 1 ==> es[1..][0] == es[1] && es[1..][1..] == es[2..] && [es[0]] + [es[1]] + es[2..] == es
  {
  }

  // ----- symbols

  lemma {:induction false} SkipNameShown(src: seq<Byte>, pos: nat, name: seq<Byte>)
    requires (forall i :: 0 <= i < |name| ==> IsWordChar(name[i])) && Here(src, pos, name)
    requires !IsWordChar(At(src, pos + |name|))
    ensures SkipName(src, pos) == pos + |name|
    decreases |name|
  {
    if name != [] {
      HereAt(src, pos, name, 0);
      assert name == [name[0]] + name[1..];
      HereSplit(src, pos, [name[0]], name[1..]);
      SkipNameShown(src, pos + 1, name[1..]);
    }
  }

  lemma ReadRefShown(src: seq<Byte>, pos: nat, name: Name, nested: bool)
    requires IsName(name) && Here(src, pos, name + [BLANK]) && Solid(src, pos + |name| + 1, nested)
    ensures ReadSymbol(src, pos, nested) == Got(Ref(name), pos + |name| + 1) && StartsSymbol(At(src, pos))
  {
    HereSplit(src, pos, name, [BLANK]);
    HereAt(src, pos, name, 0);
    HereAt(src, pos + |name|, [BLANK], 0);
    SkipNameShown(src, pos, name);
    SkipOne(src, pos + |name|, nested);
  }

  /** How a symbol, symbols or alternatives begin: never with a blank or a comment. */
  lemma {:induction false} ShownSolid(s: Sym)
    requires Writable(s)
    ensures |ShowSym(s)| > 0 && StartsSymbol(ShowSym(s)[0])
  {
    match s
    case Term(es) =>
    case Ref(name) =>
    case Group(alts) =>
    case Repeat(op, body) => ShownSolid(body);
  }

  lemma SeqSolid(src: seq<Byte>, pos: nat, syms: seq<Sym>, newlineOk: bool)
    requires (forall i :: 0 <= i < |syms| ==> Writable(syms[i])) && Here(src, pos, ShowSeq(syms))
    requires syms == [] ==> Solid(src, pos, newlineOk)
    ensures Solid(src, pos, newlineOk)
  {
    hide ShowSym;
    if syms != [] {
      ShownSolid(syms[0]);
      HereAt(src, pos, ShowSeq(syms), 0);
    }
  }

  // ----- symbols after symbols

  /** Reading on over a symbol that is written out. */
  lemma {:induction false} ReadSymShown(src: seq<Byte>, pos: nat, s: Sym, nested: bool, acc: seq<Sym>)
    requires Writable(s) && Here(src, pos, ShowSym(s)) && Solid(src, pos + |ShowSym(s)|, nested)
    ensures ReadSeq(src, pos, nested, acc) == ReadSeq(src, pos + |ShowSym(s)|, nested, acc + [s])
    decreases s, 0
  {
    hide ReadSeq, ReadSymbol, ShowTerm, ShowAlts, SkipSpace;
    match s
    case Term(es) =>
      ReadTermShown(src, pos, es, nested);
      SymbolDone(src, pos, nested, acc, s);
    case Ref(name) =>
      ReadRefShown(src, pos, name, nested);
      SymbolDone(src, pos, nested, acc, s);
    case Group(alts) =>
      ReadGroupShown(src, pos, alts, nested);
      SymbolDone(src, pos, nested, acc, s);
    case Repeat(op, body) =>
      var t, end := ShowSym(body), pos + |ShowSym(body)|;
      HereSplit(src, pos, t, [OpChar(op), BLANK]);
      HereAt(src, end, [OpChar(op), BLANK], 0);
      HereAt(src, end, [OpChar(op), BLANK], 1);
      ReadSymShown(src, pos, body, nested, acc);
      OperatorDone(src, end, nested, acc, op, body);
  }

  lemma SymbolDone(src: seq<Byte>, pos: nat, nested: bool, acc: seq<Sym>, s: Sym)
    requires pos <= |src| && StartsSymbol(At(src, pos)) && ReadSymbol(src, pos, nested).Got?
    requires ReadSymbol(src, pos, nested).value == s
    ensures ReadSeq(src, pos, nested, acc) == ReadSeq(src, ReadSymbol(src, pos, nested).pos, nested, acc + [s])
  {
    hide ReadSymbol;
  }

  lemma OperatorDone(src: seq<Byte>, pos: nat, nested: bool, acc: seq<Sym>, op: Op, body: Sym)
    requires pos + 1 < |src| && src[pos] == OpChar(op) && src[pos + 1] == BLANK && Solid(src, pos + 2, nested)
    requires body != Term([])
    ensures ReadSeq(src, pos, nested, acc + [body]) == ReadSeq(src, pos + 2, nested, acc + [Repeat(op, body)])
  {
    hide ReadSymbol;
    SkipOne(src, pos + 1, nested);
    assert (acc + [body])[..|acc|] == acc && (acc + [body])[|acc|] == body;
  }

  lemma {:induction false} ReadGroupShown(src: seq<Byte>, pos: nat, alts: seq<Alternative>, nested: bool)
    requires AltsWritable(alts) && Here(src, pos, ShowSym(Group(alts)))
    requires Solid(src, pos + |ShowSym(Group(alts))|, nested)
    ensures ReadSymbol(src, pos, nested) == Got(Group(alts), pos + |ShowSym(Group(alts))|) && At(src, pos) == OPEN
    decreases alts, 5
  {
    hide ReadAlts, ShowAlts;
    var t := ShowAlts(alts);
    var end := pos + 1 + |t|;
    Assoc([OPEN], t, [CLOSE, BLANK]);
    HereSplit(src, pos, [OPEN], t + [CLOSE, BLANK]);
    HereAt(src, pos, [OPEN], 0);
    HereSplit(src, pos + 1, t, [CLOSE, BLANK]);
    HereAt(src, end, [CLOSE, BLANK], 0);
    HereAt(src, end, [CLOSE, BLANK], 1);
    AltsSolid(src, pos + 1, alts);
    NoBlank(src, pos + 1, true);
    ReadAltsShown(src, pos + 1, alts, true);
    SkipOne(src, end + 1, nested);
  }

  lemma NoBlank(src: seq<Byte>, pos: nat, newlineOk: bool)
    requires pos <= |src| && Solid(src, pos, newlineOk)
    ensures SkipSpace(src, pos, newlineOk) == pos
  {
  }

  lemma {:induction false} ReadSeqShown(src: seq<Byte>, pos: nat, syms: seq<Sym>, nested: bool, acc: seq<Sym>)
    requires (forall i :: 0 <= i < |syms| ==> Writable(syms[i])) && Here(src, pos, ShowSeq(syms))
    requires Solid(src, pos + |ShowSeq(syms)|, nested)
    ensures ReadSeq(src, pos, nested, acc) == ReadSeq(src, pos + |ShowSeq(syms)|, nested, acc + syms)
    decreases syms, 1
  {
    hide ReadSeq, ShowSym;
    if syms == [] {
      assert acc + syms == acc;
    } else {
      var t, end := ShowSym(syms[0]), pos + |ShowSym(syms[0])|;
      HereSplit(src, pos, t, ShowSeq(syms[1..]));
      SeqSolid(src, end, syms[1..], nested);
      ReadSymShown(src, pos, syms[0], nested, acc);
      ReadSeqShown(src, end, syms[1..], nested, acc + [syms[0]]);
      assert acc + [syms[0]] + syms[1..] == acc + syms;
    }
  }

  /** What follows alternatives: neither a symbol, nor an operator, nor a bar. */
  predicate EndsAlts(src: seq<Byte>, pos: nat, nested: bool) {
    Solid(src, pos, nested) && !StartsSymbol(At(src, pos)) && !IsOp(At(src, pos)) && At(src, pos) != BAR
  }

  /** The last alternative is not empty, or what follows is not a line end that would be skipped. */
  predicate Closed(src: seq<Byte>, pos: nat, alts: seq<Alternative>) {
    |alts| > 0 && (alts[|alts| - 1].syms != [] || Solid(src, pos, true))
  }

  lemma AltsSolid(src: seq<Byte>, pos: nat, alts: seq<Alternative>)
    requires AltsWritable(alts) && Here(src, pos, ShowAlts(alts)) && Closed(src, pos + |ShowAlts(alts)|, alts)
    ensures Solid(src, pos, true)
  {
    hide ShowSeq;
    var t := ShowSeq(alts[0].syms);
    if |alts| == 1 {
      assert ShowAlts(alts) == t + [];
      HereSplit(src, pos, t, []);
    } else {
      HereSplit(src, pos, t, [BAR, BLANK] + ShowAlts(alts[1..]));
      HereAt(src, pos + |t|, [BAR, BLANK] + ShowAlts(alts[1..]), 0);
    }
    EmptyShown(alts[0].syms);
    SeqSolid(src, pos, alts[0].syms, true);
  }

  lemma EmptyShown(syms: seq<Sym>)
    requires forall i :: 0 <= i < |syms| ==> Writable(syms[i])
    ensures syms == [] ==> ShowSeq(syms) == []
  {
  }

  /** One alternative. */
  lemma ReadAltShown(src: seq<Byte>, pos: nat, syms: seq<Sym>, nested: bool)
    requires (forall i :: 0 <= i < |syms| ==> Writable(syms[i])) && Here(src, pos, ShowSeq(syms))
    requires var e := pos + |ShowSeq(syms)|; Solid(src, e, nested) && !StartsSymbol(At(src, e)) && !IsOp(At(src, e))
    ensures ReadSeq(src, pos, nested, []) == Got(syms, pos + |ShowSeq(syms)|)
    decreases syms, 2
  {
    hide ShowSeq;
    ReadSeqShown(src, pos, syms, nested, []);
    assert [] + syms == syms;
  }

  /** Alternatives one after the other, after those in `done`. */
  lemma {:induction false} ReadMoreShown(src: seq<Byte>, pos: nat, done: seq<Alternative>, alts: seq<Alternative>,
                                         nested: bool)
    requires AltsWritable(alts) && Here(src, pos, ShowAlts(alts)) && EndsAlts(src, pos + |ShowAlts(alts)|, nested)
    requires Closed(src, pos + |ShowAlts(alts)|, alts)
    ensures var p := pos + |ShowSeq(alts[0].syms)|;
            && ReadSeq(src, pos, nested, []) == Got(alts[0].syms, p) && p <= |src|
            && ReadMoreAlts(src, p, nested, done + [alts[0]]) == Got(done + alts, pos + |ShowAlts(alts)|)
    decreases alts, 3
  {
    hide ReadSeq, ShowSeq, ReadMoreAlts, ShowAlts;
    var t := ShowSeq(alts[0].syms);
    var p := pos + |t|;
    AltsParts(src, pos, alts);
    if |alts| == 1 {
      ReadAltShown(src, pos, alts[0].syms, nested);
      MoreEnd(src, p, nested, done + [alts[0]]);
      assert done + [alts[0]] == done + alts;
    } else {
      ReadAltShown(src, pos, alts[0].syms, nested);
      AltsSolid(src, p + 2, alts[1..]);
      SkipOne(src, p + 1, true);
      ReadMoreShown(src, p + 2, done + [alts[0]], alts[1..], nested);
      MoreBar(src, p, nested, done + [alts[0]], alts[1]);
      assert done + [alts[0]] + alts[1..] == done + alts;
    }
  }

  lemma AltsParts(src: seq<Byte>, pos: nat, alts: seq<Alternative>)
    requires AltsWritable(alts) && Here(src, pos, ShowAlts(alts))
    ensures (forall j :: 0 <= j < |alts[0].syms| ==> Writable(alts[0].syms[j])) && Here(src, pos, ShowSeq(alts[0].syms))
    ensures |alts| == 1 ==> ShowAlts(alts) == ShowSeq(alts[0].syms)
    ensures |alts| > 1 ==>
              var p := pos + |ShowSeq(alts[0].syms)|;
              && AltsWritable(alts[1..]) && Here(src, p + 2, ShowAlts(alts[1..])) && p + 2 <= |src|
              && At(src, p) == BAR && src[p + 1] == BLANK && |ShowAlts(alts)| == p - pos + 2 + |ShowAlts(alts[1..])|
  {
    hide ShowSeq, ShowAlts, Here;
    AltsText(alts);
    if |alts| > 1 {
      var t, rest := ShowSeq(alts[0].syms), ShowAlts(alts[1..]);
      var p := pos + |t|;
      HereSplit(src, pos, t, [BAR, BLANK] + rest);
      HereSplit(src, p, [BAR, BLANK], rest);
      HereAt(src, p, [BAR, BLANK], 0);
      HereAt(src, p, [BAR, BLANK], 1);
      HereSplit(src, p, [BAR], [BLANK]);
      HereEnd(src, p + 1, BLANK);
    }
  }

  lemma AltsText(alts: seq<Alternative>)
    requires AltsWritable(alts)
    ensures |alts| == 1 ==> ShowAlts(alts) == ShowSeq(alts[0].syms)
    ensures |alts| > 1 ==>
              && AltsWritable(alts[1..])
              && ShowAlts(alts) == ShowSeq(alts[0].syms) + ([BAR, BLANK] + ShowAlts(alts[1..]))
  {
    hide ShowSeq;
    if |alts| == 1 {
      assert ShowSeq(alts[0].syms) + [] == ShowSeq(alts[0].syms);
    }
  }

  lemma MoreEnd(src: seq<Byte>, pos: nat, nested: bool, done: seq<Alternative>)
    requires pos <= |src| && At(src, pos) != BAR
    ensures ReadMoreAlts(src, pos, nested, done) == Got(done, pos)
  {
  }

  lemma MoreBar(src: seq<Byte>, pos: nat, nested: bool, done: seq<Alternative>, alt: Alternative)
    requires pos < |src| && At(src, pos) == BAR
    requires var r := ReadSeq(src, SkipSpace(src, pos + 1, true), nested, []); r.Got? && r.value == alt.syms
    ensures ReadMoreAlts(src, pos, nested, done) ==
            ReadMoreAlts(src, ReadSeq(src, SkipSpace(src, pos + 1, true), nested, []).pos, nested, done + [alt])
  {
    hide ReadSeq, SkipSpace;
    assert Alternative(alt.syms) == alt;
  }

  lemma {:induction false} ReadAltsShown(src: seq<Byte>, pos: nat, alts: seq<Alternative>, nested: bool)
    requires AltsWritable(alts) && Here(src, pos, ShowAlts(alts)) && EndsAlts(src, pos + |ShowAlts(alts)|, nested)
    requires Closed(src, pos + |ShowAlts(alts)|, alts)
    ensures ReadAlts(src, pos, nested) == Got(alts, pos + |ShowAlts(alts)|)
    decreases alts, 4
  {
    hide ReadSeq, ShowSeq, ReadMoreAlts, ShowAlts;
    ReadMoreShown(src, pos, [], alts, nested);
    assert [] + alts == alts && [] + [alts[0]] == [alts[0]];
    assert Alternative(alts[0].syms) == alts[0];
  }

  // ----- definitions

  /** A definition, and the line end after it unless the text ends. */
  lemma ReadRuleShown(src: seq<Byte>, pos: nat, def: Def)
    requires DefWritable(def) && Here(src, pos, ShowDef(def))
    requires var q := pos + |ShowDef(def)|;
             q == |src| || (Tight(def) && src[q] == NEWLINE && Solid(src, q + 1, true))
    ensures var q := pos + |ShowDef(def)|; ReadRule(src, pos) == Got(def, if q == |src| then q else q + 1)
  {
    hide ReadAlts, ShowAlts, IsName, Here, ShowDef, SkipSpace, SkipName;
    var p := pos + |def.name|;
    var q := p + 5 + |ShowAlts(def.alts)|;
    DefParts(src, pos, def);
    NameShown(src, pos, def.name);
    SkipOne(src, p, false);
    AltsSolid(src, p + 5, def.alts);
    SkipOne(src, p + 4, true);
    ReadAltsShown(src, p + 5, def.alts, false);
    NoBlank(src, if q == |src| then q else q + 1, true);
  }

  /** Where the parts of a definition stand. */
  lemma DefParts(src: seq<Byte>, pos: nat, def: Def)
    requires DefWritable(def) && Here(src, pos, ShowDef(def))
    ensures var p := pos + |def.name|;
            var q := p + 5 + |ShowAlts(def.alts)|;
            && q <= |src| && Here(src, pos, def.name) && Here(src, p + 5, ShowAlts(def.alts))
            && src[p] == BLANK && src[p + 1] == 58 && src[p + 2] == 58 && src[p + 3] == 61 && src[p + 4] == BLANK
            && |ShowDef(def)| == q - pos
  {
    hide ShowAlts, IsName, AltsWritable, Here, ShowDef;
    var sign: seq<Byte>, t := [BLANK, 58, 58, 61, BLANK], ShowAlts(def.alts);
    var p := pos + |def.name|;
    DefText(def);
    HereSplit(src, pos, def.name, sign + t);
    HereSplit(src, p, sign, t);
    HereAt(src, p, sign, 0);
    HereAt(src, p, sign, 1);
    HereAt(src, p, sign, 2);
    HereAt(src, p, sign, 3);
    HereAt(src, p, sign, 4);
    HereFits(src, p + 5, t);
  }

  lemma HereFits(src: seq<Byte>, pos: nat, t: seq<Byte>)
    requires Here(src, pos, t)
    ensures pos + |t| <= |src|
  {
  }

  lemma HereEnd(src: seq<Byte>, pos: nat, b: Byte)
    requires Here(src, pos, [b])
    ensures pos < |src|
  {
  }

  lemma DefText(def: Def)
    requires DefWritable(def)
    ensures ShowDef(def) == def.name + ([BLANK, 58, 58, 61, BLANK] + ShowAlts(def.alts))
  {
    hide ShowAlts, IsName, AltsWritable;
    Assoc(def.name, [BLANK, 58, 58, 61, BLANK], ShowAlts(def.alts));
  }

  lemma NameShown(src: seq<Byte>, pos: nat, name: Name)
    requires IsName(name) && Here(src, pos, name) && At(src, pos + |name|) == BLANK
    ensures SkipName(src, pos) == pos + |name| > pos && src[pos..pos + |name|] == name
  {
    SkipNameShown(src, pos, name);
  }

  lemma {:induction false} ReadRulesShown(src: seq<Byte>, pos: nat, done: seq<Def>, defs: seq<Def>)
    requires AllWritable(defs) && Here(src, pos, Show(defs)) && pos + |Show(defs)| == |src|
    ensures ReadRules(src, pos, done) == Got(done + defs, |src|)
    decreases |defs|
  {
    hide ReadRule, ShowDef, DefWritable, Here, Tight, Show;
    if defs == [] {
      ShowNone();
      assert done + defs == done;
    } else {
      var q := pos + |ShowDef(defs[0])|;
      LongDef(defs[0]);
      if |defs| == 1 {
        ShowLast(src, pos, defs);
      } else {
        ShowNext(src, pos, defs);
        TextSolid(src, q + 1, defs[1..]);
      }
      ReadRuleShown(src, pos, defs[0]);
      ReadRulesShown(src, if |defs| == 1 then q else q + 1, done + [defs[0]], defs[1..]);
      assert done + [defs[0]] + defs[1..] == done + defs;
    }
  }

  lemma ShowNone()
    ensures Show([]) == []
  {
  }

  /** Where the last definition stands. */
  lemma ShowLast(src: seq<Byte>, pos: nat, defs: seq<Def>)
    requires |defs| == 1 && DefWritable(defs[0]) && Here(src, pos, Show(defs)) && pos + |Show(defs)| == |src|
    ensures Here(src, pos, ShowDef(defs[0])) && pos + |ShowDef(defs[0])| == |src|
    ensures Here(src, |src|, Show(defs[1..])) && Show(defs[1..]) == []
  {
    hide ShowDef, DefWritable;
    ShowText(defs);
  }

  /** Where the first definition ends, and where the others stand. */
  lemma ShowNext(src: seq<Byte>, pos: nat, defs: seq<Def>)
    requires |defs| > 1 && (forall i :: 0 <= i < |defs| ==> DefWritable(defs[i])) && Here(src, pos, Show(defs))
    requires pos + |Show(defs)| == |src|
    ensures var q := pos + |ShowDef(defs[0])|;
            && Here(src, pos, ShowDef(defs[0])) && q < |src| && src[q] == NEWLINE
            && Here(src, q + 1, Show(defs[1..])) && q + 1 + |Show(defs[1..])| == |src|
  {
    hide ShowDef, Here, DefWritable, Show;
    ShowText(defs);
    var t, rest := ShowDef(defs[0]), Show(defs[1..]);
    HereThree(src, pos, t, [NEWLINE], rest);
    HereAt(src, pos + |t|, [NEWLINE], 0);
  }

  lemma HereThree(src: seq<Byte>, pos: nat, a: seq<Byte>, b: seq<Byte>, c: seq<Byte>)
    requires Here(src, pos, a + (b + c))
    ensures Here(src, pos, a) && Here(src, pos + |a|, b) && Here(src, pos + |a| + |b|, c)
    ensures pos + |a| + |b| + |c| <= |src|
  {
    hide Here;
    HereSplit(src, pos, a, b + c);
    HereSplit(src, pos + |a|, b, c);
    HereFits(src, pos + |a| + |b|, c);
  }

  lemma ShowText(defs: seq<Def>)
    requires defs != [] && forall i :: 0 <= i < |defs| ==> DefWritable(defs[i])
    ensures Show(defs) == ShowDef(defs[0]) + ((if |defs| == 1 then [] else [NEWLINE]) + Show(defs[1..]))
    ensures |defs| == 1 ==> Show(defs[1..]) == []
  {
    hide ShowDef, DefWritable;
    Assoc(ShowDef(defs[0]), if |defs| == 1 then [] else [NEWLINE], Show(defs[1..]));
  }

  lemma LongDef(def: Def)
    requires DefWritable(def)
    ensures |ShowDef(def)| > 0
  {
  }

  lemma TextSolid(src: seq<Byte>, pos: nat, defs: seq<Def>)
    requires (forall i :: 0 <= i < |defs| ==> DefWritable(defs[i])) && Here(src, pos, Show(defs))
    requires pos + |Show(defs)| == |src|
    ensures Solid(src, pos, true)
  {
    hide ShowAlts;
    if defs != [] {
      HereAt(src, pos, Show(defs), 0);
      var name := defs[0].name;
      assert Show(defs)[0] == ShowDef(defs[0])[0] == name[0];
    }
  }

  /** Reading gives back the definitions that were written. */
  lemma ReadShown(defs: seq<Def>)
    requires AllWritable(defs)
    ensures ReadText(Show(defs)) == Got(defs, |Show(defs)|)
  {
    hide ReadRules, DefWritable;
    var src := Show(defs);
    assert src[0..|src|] == src;
    TextSolid(src, 0, defs);
    NoBlank(src, 0, true);
    ReadRulesShown(src, 0, [], defs);
    assert [] + defs == defs;
  }

  /** The rules that are made of written definitions derive exactly what the definitions mean. */
  lemma ShownMeaning(defs: seq<Def>, name: Name, w: Word)
    requires AllWritable(defs) && Plain(name)
    requires name in GrammarParser.ParsedState(Show(defs)).ids
    ensures var st := GrammarParser.ParsedState(Show(defs));
            RuleLang(st.rules, st.ids[name], w) <==> GrammarMeaning.Means(GrammarMeaning.EnvOf(defs), name, w)
  {
    hide RuleLang, GrammarMeaning.Means, GrammarMeaning.EnvOf, GrammarParser.ParsedState, Show;
    ReadShown(defs);
    GrammarParser.ParsedMeaning(Show(defs), name, w);
  }
}
