/** The text form of a grammar, and how it is read as a list of rule definitions. Nothing here
    knows of rule numbers or synthesized rules. */
module GrammarText {
  import opened GrammarRules

  type Name = seq<Byte>

  datatype Op = Star | Plus | Opt

  datatype Sym =
    | Term(es: seq<Elem>)              // a literal or a character class
    | Ref(name: Name)
    | Group(alts: seq<Alternative>)
    | Repeat(op: Op, body: Sym)

  datatype Alternative = Alternative(syms: seq<Sym>)

  datatype Def = Def(name: Name, alts: seq<Alternative>)

  datatype Parsed<T> = Fail | Got(value: T, pos: nat)

  /** The character at an index of a C string: 0 at its end. */
  function At(src: seq<Byte>, i: nat): int {
    if i < |src| then src[i] else 0
  }

  predicate IsWordChar(c: int) {
    'a' as int <= c <= 'z' as int || 'A' as int <= c <= 'Z' as int || c == '-' as int || '0' as int <= c <= '9' as int
  }

  predicate IsSpace(c: int, newlineOk: bool) {
    c == ' ' as int || c == '\t' as int || (newlineOk && (c == '\r' as int || c == '\n' as int))
  }

  predicate IsLineEnd(c: int) {
    c == 0 || c == '\r' as int || c == '\n' as int
  }

  function SkipLine(src: seq<Byte>, pos: nat): (r: nat)
    requires pos <= |src|
    ensures pos <= r <= |src| && IsLineEnd(At(src, r))
    ensures forall i :: pos <= i < r ==> !IsLineEnd(At(src, i))
    decreases |src| - pos
  {
    if IsLineEnd(At(src, pos)) then pos else SkipLine(src, pos + 1)
  }

  /** Skip blanks and comments. */
  function SkipSpace(src: seq<Byte>, pos: nat, newlineOk: bool): (r: nat)
    requires pos <= |src|
    ensures pos <= r <= |src|
    decreases |src| - pos
  {
    if IsSpace(At(src, pos), newlineOk) then SkipSpace(src, pos + 1, newlineOk)
    else if At(src, pos) == '#' as int then SkipSpace(src, SkipLine(src, pos + 1), newlineOk)
    else pos
  }

  function SkipName(src: seq<Byte>, pos: nat): (r: nat)
    requires pos <= |src|
    ensures pos <= r <= |src| && !IsWordChar(At(src, r))
    ensures forall i :: pos <= i < r ==> IsWordChar(At(src, i))
    decreases |src| - pos
  {
    if IsWordChar(At(src, pos)) then SkipName(src, pos + 1) else pos
  }

  // ----- characters

  predicate IsHex(c: int) {
    'a' as int <= c <= 'f' as int || 'A' as int <= c <= 'F' as int || '0' as int <= c <= '9' as int
  }

  function HexDigit(c: int): nat
    requires IsHex(c)
  {
    if c >= 'a' as int then c - 'a' as int + 10 else if c >= 'A' as int then c - 'A' as int + 10 else c - '0' as int
  }

  function ReadHex(src: seq<Byte>, pos: nat, size: nat, value: nat): (r: Parsed<nat>)
    requires pos <= |src|
    ensures r.Got? ==> r.pos == pos + size <= |src|
    decreases size
  {
    if size == 0 then Got(value, pos)
    else if IsHex(At(src, pos)) then ReadHex(src, pos + 1, size - 1, value * 16 + HexDigit(At(src, pos)))
    else Fail
  }

  /** The number of bytes that the first byte of a character announces. */
  function CharLen(b: Byte): (n: nat)
    ensures 1 <= n <= 4
  {
    if b < 0xC0 then 1 else if b < 0xE0 then 2 else if b < 0xF0 then 3 else 4
  }

  function FirstBits(b: int, len: nat): nat
    requires 0 < b
  {
    match len case 1 => b % 128 case 2 => b % 64 case 3 => b % 32 case _ => b % 16
  }

  function LowBits(b: int): nat
    requires 0 < b
  {
    b % 64
  }

  /** Read at most `n` further bytes of a character, fewer at the end of the text. */
  function ReadTail(src: seq<Byte>, pos: nat, n: nat, value: nat): (r: (nat, nat))
    requires pos <= |src|
    ensures pos <= r.1 <= |src|
    decreases n
  {
    if n == 0 || pos == |src| then (value, pos) else ReadTail(src, pos + 1, n - 1, value * 64 + LowBits(src[pos]))
  }

  function ReadChar(src: seq<Byte>, pos: nat): (r: Parsed<nat>)
    requires pos <= |src|
    ensures r.Got? ==> pos < r.pos <= |src|
  {
    if pos == |src| then Fail
    else if src[pos] == '\\' as int then
      var c := At(src, pos + 1);
      if c == 0 then Fail
      else if c == 'x' as int then ReadHex(src, pos + 2, 2, 0)
      else if c == 'u' as int then ReadHex(src, pos + 2, 4, 0)
      else if c == 'U' as int then ReadHex(src, pos + 2, 8, 0)
      else if c == 't' as int then Got('\t' as int, pos + 2)
      else if c == 'r' as int then Got('\r' as int, pos + 2)
      else if c == 'n' as int then Got('\n' as int, pos + 2)
      else if c == '\\' as int || c == '"' as int || c == '[' as int || c == ']' as int then Got(c, pos + 2)
      else Fail
    else
      var n := CharLen(src[pos]);
      var (v, p) := ReadTail(src, pos + 1, n - 1, FirstBits(src[pos], n));
      Got(v, p)
  }

  // ----- symbols

  /** The rest of a literal after its opening quote. */
  function ReadLiteral(src: seq<Byte>, pos: nat, es: seq<Elem>): (r: Parsed<seq<Elem>>)
    requires pos <= |src|
    ensures r.Got? ==> pos < r.pos <= |src|
    decreases |src| - pos
  {
    if At(src, pos) == '"' as int then Got(es, pos + 1)
    else match ReadChar(src, pos)
      case Fail => Fail
      case Got(c, p) => ReadLiteral(src, p, es + [Char(c)])
  }

  /** The elements of a class that one character or range adds. */
  function ClassItem(negated: bool, first: bool, c: nat): Elem {
    if !first then CharAlt(c) else if negated then CharNot(c) else Char(c)
  }

  /** The rest of a character class after its opening bracket. */
  function ReadClass(src: seq<Byte>, pos: nat, negated: bool, es: seq<Elem>): (r: Parsed<seq<Elem>>)
    requires pos <= |src|
    ensures r.Got? ==> pos < r.pos <= |src|
    decreases |src| - pos
  {
    if At(src, pos) == ']' as int then Got(es, pos + 1)
    else match ReadChar(src, pos)
      case Fail => Fail
      case Got(c, p) =>
        var es1 := es + [ClassItem(negated, es == [], c)];
        if At(src, p) == '-' as int && At(src, p + 1) != ']' as int then
          match ReadChar(src, p + 1)
          case Fail => Fail
          case Got(d, q) => ReadClass(src, q, negated, es1 + [RngUpper(d)])
        else ReadClass(src, p, negated, es1)
  }

  predicate IsOp(c: int) {
    c == '*' as int || c == '+' as int || c == '?' as int
  }

  function OpOf(c: int): Op
    requires IsOp(c)
  {
    if c == '*' as int then Star else if c == '+' as int then Plus else Opt
  }

  predicate StartsSymbol(c: int) {
    c == '"' as int || c == '[' as int || IsWordChar(c) || c == '(' as int
  }

  /** Read one symbol and the blanks after it. */
  function ReadSymbol(src: seq<Byte>, pos: nat, nested: bool): (r: Parsed<Sym>)
    requires pos <= |src|
    ensures r.Got? ==> pos < r.pos <= |src|
    decreases |src| - pos, 0
  {
    var c := At(src, pos);
    if c == '"' as int then
      match ReadLiteral(src, pos + 1, [])
      case Fail => Fail
      case Got(es, p) => Got(Term(es), SkipSpace(src, p, nested))
    else if c == '[' as int then
      var negated := At(src, pos + 1) == '^' as int;
      match ReadClass(src, if negated then pos + 2 else pos + 1, negated, [])
      case Fail => Fail
      case Got(es, p) => Got(Term(es), SkipSpace(src, p, nested))
    else if IsWordChar(c) then
      var p := SkipName(src, pos);
      Got(Ref(src[pos..p]), SkipSpace(src, p, nested))
    else if c == '(' as int then
      match ReadAlts(src, SkipSpace(src, pos + 1, true), true)
      case Fail => Fail
      case Got(alts, p) =>
        if At(src, p) == ')' as int then Got(Group(alts), SkipSpace(src, p + 1, nested)) else Fail
    else Fail
  }

  /** Read symbols after those in `syms`; a repetition operator takes the last of them. */
  function ReadSeq(src: seq<Byte>, pos: nat, nested: bool, syms: seq<Sym>): (r: Parsed<seq<Sym>>)
    requires pos <= |src|
    ensures r.Got? ==> pos <= r.pos <= |src|
    decreases |src| - pos, 1
  {
    var c := At(src, pos);
    if StartsSymbol(c) then
      match ReadSymbol(src, pos, nested)
      case Fail => Fail
      case Got(s, p) => ReadSeq(src, p, nested, syms + [s])
    else if IsOp(c) then
      if syms == [] || syms[|syms| - 1] == Term([]) then Fail
      else
        ReadSeq(src, SkipSpace(src, pos + 1, nested), nested,
                syms[..|syms| - 1] + [Repeat(OpOf(c), syms[|syms| - 1])])
    else Got(syms, pos)
  }

  function ReadAlts(src: seq<Byte>, pos: nat, nested: bool): (r: Parsed<seq<Alternative>>)
    requires pos <= |src|
    ensures r.Got? ==> pos <= r.pos <= |src| && |r.value| > 0
    decreases |src| - pos, 2
  {
    match ReadSeq(src, pos, nested, [])
    case Fail => Fail
    case Got(syms, p) => ReadMoreAlts(src, p, nested, [Alternative(syms)])
  }

  function ReadMoreAlts(src: seq<Byte>, pos: nat, nested: bool, alts: seq<Alternative>): (r: Parsed<seq<Alternative>>)
    requires pos <= |src|
    ensures r.Got? ==> pos <= r.pos <= |src| && |alts| <= |r.value|
    decreases |src| - pos, 0
  {
    if At(src, pos) == '|' as int then
      match ReadSeq(src, SkipSpace(src, pos + 1, true), nested, [])
      case Fail => Fail
      case Got(syms, p) => ReadMoreAlts(src, p, nested, alts + [Alternative(syms)])
    else Got(alts, pos)
  }

  // ----- rules

  function ReadRule(src: seq<Byte>, pos: nat): (r: Parsed<Def>)
    requires pos <= |src|
    ensures r.Got? ==> pos < r.pos <= |src|
  {
    var nameEnd := SkipName(src, pos);
    if nameEnd == pos then Fail
    else
      var p := SkipSpace(src, nameEnd, false);
      if !(At(src, p) == ':' as int && At(src, p + 1) == ':' as int && At(src, p + 2) == '=' as int) then Fail
      else match ReadAlts(src, SkipSpace(src, p + 3, true), false)
        case Fail => Fail
        case Got(alts, q) =>
          var c := At(src, q);
          if !IsLineEnd(c) then Fail
          else
            var e := if c == 0 then q
                     else if c == '\r' as int && At(src, q + 1) == '\n' as int then q + 2
                     else q + 1;
            Got(Def(src[pos..nameEnd], alts), SkipSpace(src, e, true))
  }

  function ReadRules(src: seq<Byte>, pos: nat, defs: seq<Def>): (r: Parsed<seq<Def>>)
    requires pos <= |src|
    ensures r.Got? ==> r.pos == |src|
    decreases |src| - pos
  {
    if pos == |src| then Got(defs, pos)
    else match ReadRule(src, pos)
      case Fail => Fail
      case Got(def, p) => ReadRules(src, p, defs + [def])
  }

  function ReadText(src: seq<Byte>): Parsed<seq<Def>> {
    ReadRules(src, SkipSpace(src, 0, true), [])
  }

  // ----- what reading guarantees

  /** Elements of one piece of a rule: complete in itself. */
  predicate PieceOk(es: seq<Elem>) {
    WellFormedBody(es) && forall i :: 0 <= i < |es| ==> !IsEnd(es[i])
  }

  predicate TermOk(es: seq<Elem>) {
    PieceOk(es) && forall i :: 0 <= i < |es| ==> IsCharElem(es[i])
  }

  /** A name that a user can write: it has no underscore. */
  predicate Plain(name: Name) {
    '_' as int !in name
  }

  predicate SymOk(s: Sym)
    decreases s, 0
  {
    match s
    case Term(es) => TermOk(es)
    case Ref(name) => Plain(name)
    case Group(alts) => AltsOk(alts)
    case Repeat(_, body) => SymOk(body) && body != Term([])
  }

  predicate SeqOk(syms: seq<Sym>)
    decreases syms, 1
  {
    forall i :: 0 <= i < |syms| ==> SymOk(syms[i])
  }

  predicate AltsOk(alts: seq<Alternative>)
    decreases alts, 2
  {
    |alts| > 0 && forall i :: 0 <= i < |alts| ==> SeqOk(alts[i].syms)
  }

  predicate DefOk(def: Def) {
    Plain(def.name) && AltsOk(def.alts)
  }

  lemma {:induction false} ReadLiteralOk(src: seq<Byte>, pos: nat, es: seq<Elem>)
    requires pos <= |src| && forall i :: 0 <= i < |es| ==> es[i].Char?
    ensures var r := ReadLiteral(src, pos, es); r.Got? ==> forall i :: 0 <= i < |r.value| ==> r.value[i].Char?
    decreases |src| - pos
  {
    if At(src, pos) != '"' as int && ReadChar(src, pos).Got? {
      ReadLiteralOk(src, ReadChar(src, pos).pos, es + [Char(ReadChar(src, pos).value)]);
    }
  }

  lemma {:induction false} ReadClassOk(src: seq<Byte>, pos: nat, negated: bool, es: seq<Elem>)
    requires pos <= |src| && TermOk(es)
    ensures var r := ReadClass(src, pos, negated, es); r.Got? ==> TermOk(r.value)
    decreases |src| - pos
  {
    if At(src, pos) != ']' as int && ReadChar(src, pos).Got? {
      var p := ReadChar(src, pos).pos;
      var es1 := es + [ClassItem(negated, es == [], ReadChar(src, pos).value)];
      TermSnoc(es, es1[|es|]);
      if At(src, p) == '-' as int && At(src, p + 1) != ']' as int {
        if ReadChar(src, p + 1).Got? {
          var d := RngUpper(ReadChar(src, p + 1).value);
          TermSnoc(es1, d);
          ReadClassOk(src, ReadChar(src, p + 1).pos, negated, es1 + [d]);
        }
      } else {
        ReadClassOk(src, p, negated, es1);
      }
    }
  }

  lemma TermSnoc(es: seq<Elem>, e: Elem)
    requires TermOk(es) && IsCharElem(e)
    requires if es == [] then IsClassStart(e) else Follows(es[|es| - 1], e)
    ensures TermOk(es + [e])
  {
    var es1 := es + [e];
    forall i | 0 <= i < |es1|
      ensures Fits(es1, i)
    {
      if i < |es| {
        assert Fits(es, i);
      }
    }
  }

  lemma LiteralOk(es: seq<Elem>)
    requires forall i :: 0 <= i < |es| ==> es[i].Char?
    ensures TermOk(es)
  {
    assert forall i :: 0 <= i < |es| ==> Fits(es, i);
  }

  lemma PlainName(src: seq<Byte>, pos: nat)
    requires pos <= |src|
    ensures Plain(src[pos..SkipName(src, pos)])
  {
    var name := src[pos..SkipName(src, pos)];
    forall i | 0 <= i < |name|
      ensures name[i] != '_' as int
    {
      assert IsWordChar(At(src, pos + i));
    }
  }

  lemma {:induction false} ReadSymbolOk(src: seq<Byte>, pos: nat, nested: bool)
    requires pos <= |src|
    ensures var r := ReadSymbol(src, pos, nested); r.Got? ==> SymOk(r.value)
    decreases |src| - pos, 0
  {
    var c := At(src, pos);
    if c == '"' as int {
      ReadLiteralOk(src, pos + 1, []);
      var r := ReadLiteral(src, pos + 1, []);
      if r.Got? {
        assert forall i :: 0 <= i < |r.value| ==> r.value[i].Char?;
        LiteralOk(r.value);
      }
    } else if c == '[' as int {
      var negated := At(src, pos + 1) == '^' as int;
      ReadClassOk(src, if negated then pos + 2 else pos + 1, negated, []);
    } else if IsWordChar(c) {
      PlainName(src, pos);
    } else if c == '(' as int {
      ReadAltsOk(src, SkipSpace(src, pos + 1, true), true);
    }
  }

  lemma {:induction false} ReadSeqOk(src: seq<Byte>, pos: nat, nested: bool, syms: seq<Sym>)
    requires pos <= |src| && SeqOk(syms)
    ensures var r := ReadSeq(src, pos, nested, syms); r.Got? ==> SeqOk(r.value)
    decreases |src| - pos, 1
  {
    var c := At(src, pos);
    if StartsSymbol(c) {
      ReadSymbolOk(src, pos, nested);
      var r := ReadSymbol(src, pos, nested);
      if r.Got? {
        ReadSeqOk(src, r.pos, nested, syms + [r.value]);
      }
    } else if IsOp(c) && syms != [] && syms[|syms| - 1] != Term([]) {
      ReadSeqOk(src, SkipSpace(src, pos + 1, nested), nested,
                syms[..|syms| - 1] + [Repeat(OpOf(c), syms[|syms| - 1])]);
    }
  }

  lemma {:induction false} ReadAltsOk(src: seq<Byte>, pos: nat, nested: bool)
    requires pos <= |src|
    ensures var r := ReadAlts(src, pos, nested); r.Got? ==> AltsOk(r.value)
    decreases |src| - pos, 2
  {
    ReadSeqOk(src, pos, nested, []);
    var r := ReadSeq(src, pos, nested, []);
    if r.Got? {
      ReadMoreAltsOk(src, r.pos, nested, [Alternative(r.value)]);
    }
  }

  lemma {:induction false} ReadMoreAltsOk(src: seq<Byte>, pos: nat, nested: bool, alts: seq<Alternative>)
    requires pos <= |src| && AltsOk(alts)
    ensures var r := ReadMoreAlts(src, pos, nested, alts); r.Got? ==> AltsOk(r.value)
    decreases |src| - pos, 0
  {
    if At(src, pos) == '|' as int {
      var p := SkipSpace(src, pos + 1, true);
      ReadSeqOk(src, p, nested, []);
      var r := ReadSeq(src, p, nested, []);
      if r.Got? {
        ReadMoreAltsOk(src, r.pos, nested, alts + [Alternative(r.value)]);
      }
    }
  }

  lemma ReadRuleOk(src: seq<Byte>, pos: nat)
    requires pos <= |src| && ReadRule(src, pos).Got?
    ensures DefOk(ReadRule(src, pos).value)
  {
    hide ReadAlts, SkipSpace, SkipName, AltsOk, Plain;
    var p := SkipSpace(src, SkipName(src, pos), false);
    ReadAltsOk(src, SkipSpace(src, p + 3, true), false);
    PlainName(src, pos);
  }

  /** Whatever text is read, its rules have plain names and well formed symbols. */
  lemma {:induction false} ReadRulesOk(src: seq<Byte>, pos: nat, defs: seq<Def>)
    requires pos <= |src| && forall i :: 0 <= i < |defs| ==> DefOk(defs[i])
    ensures var r := ReadRules(src, pos, defs); r.Got? ==> forall i :: 0 <= i < |r.value| ==> DefOk(r.value[i])
    decreases |src| - pos
  {
    if pos < |src| {
      hide ReadRule, DefOk;
      var r := ReadRule(src, pos);
      if r.Got? {
        ReadRuleOk(src, pos);
        ReadRulesOk(src, r.pos, defs + [r.value]);
      }
    }
  }
}
