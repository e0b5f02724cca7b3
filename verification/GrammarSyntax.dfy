/** The syntax of grammar texts, said of the characters: which text spells which definitions. Reading gives
    exactly that. */
module GrammarSyntax {
  import opened GrammarRules
  import opened GrammarText
  import GrammarTokens

  // ----- characters

  /** The character at an index, 0 at the end of the text. */
  function Ch(src: seq<Byte>, i: nat): int {
    if i < |src| then src[i] else 0
  }

  /** How many bytes a character has that begins with `b`. */
  function Width(b: int): nat {
    if b < 192 then 1 else if b < 224 then 2 else if b < 240 then 3 else 4
  }

  /** The bytes of a character: the low bits of the first, and six of each that follows. */
  predicate Coded(bs: seq<Byte>, width: nat, c: nat) {
    match |bs|
    case 1 => c == First(bs[0], width)
    case 2 => c == 64 * First(bs[0], width) + Six(bs[1])
    case 3 => c == 4096 * First(bs[0], width) + 64 * Six(bs[1]) + Six(bs[2])
    case 4 => c == 262144 * First(bs[0], width) + 4096 * Six(bs[1]) + 64 * Six(bs[2]) + Six(bs[3])
    case _ => false
  }

  function Six(b: int): nat {
    b % 64
  }

  function First(b: Byte, width: nat): nat {
    var n: int := b;
    if width == 1 then n % 128 else if width == 2 then n % 64 else if width == 3 then n % 32 else n % 16
  }

  /** A character that stands for itself. At the end of the text it may be cut short. */
  ghost predicate PlainAt(src: seq<Byte>, i: nat, j: nat, c: nat) {
    && i < j <= |src| && src[i] != 92
    && (j - i == Width(src[i]) || (j - i < Width(src[i]) && j == |src|))
    && Coded(src[i..j], Width(src[i]), c)
  }

  predicate DigitIs(b: int, d: nat) {
    (d < 10 && b == 48 + d) || (10 <= d < 16 && (b == 87 + d || b == 55 + d))
  }

  /** Hexadecimal digits in small or capital letters. */
  ghost predicate HexOf(t: seq<Byte>, c: nat) {
    if t == [] then c == 0 else DigitIs(t[|t| - 1], c % 16) && HexOf(t[..|t| - 1], c / 16)
  }

  ghost predicate EscapeAt(src: seq<Byte>, i: nat, j: nat, c: nat) {
    && i + 1 < j <= |src| && src[i] == 92
    && (|| (src[i + 1] == 'x' as int && j == i + 4 && HexOf(src[i + 2..j], c))
        || (src[i + 1] == 'u' as int && j == i + 6 && HexOf(src[i + 2..j], c))
        || (src[i + 1] == 'U' as int && j == i + 10 && HexOf(src[i + 2..j], c))
        || (j == i + 2 && src[i + 1] == 't' as int && c == 9)
        || (j == i + 2 && src[i + 1] == 'r' as int && c == 13)
        || (j == i + 2 && src[i + 1] == 'n' as int && c == 10)
        || (j == i + 2 && src[i + 1] == c && (c == 92 || c == 34 || c == 91 || c == 93)))
  }

  ghost predicate CharAt(src: seq<Byte>, i: nat, j: nat, c: nat) {
    PlainAt(src, i, j, c) || EscapeAt(src, i, j, c)
  }

  lemma TailReads(src: seq<Byte>, i: nat, j: nat, c: nat)
    requires PlainAt(src, i, j, c)
    ensures ReadTail(src, i + 1, Width(src[i]) - 1, FirstBits(src[i], Width(src[i]))) == (c, j)
  {
    hide ReadTail, LowBits, Six;
    var bs, w := src[i..j], Width(src[i]);
    var v := FirstBits(src[i], w);
    assert v == First(bs[0], w);
    forall k | 0 <= k < |bs|
      ensures bs[k] == src[i + k] && Six(bs[k]) == LowBits(src[i + k])
    {
      SixIs(bs[k]);
    }
    TailSteps(src, i + 1, w - 1, v, |bs| - 1);
  }

  lemma SixIs(b: Byte)
    ensures Six(b) == LowBits(b)
  {
  }

  /** Up to three more bytes. */
  lemma TailSteps(src: seq<Byte>, i: nat, n: nat, v: nat, m: nat)
    requires i + m <= |src| && m <= n <= 3 && (m == n || i + m == |src|)
    ensures ReadTail(src, i, n, v) ==
            (match m
             case 0 => v
             case 1 => 64 * v + LowBits(src[i])
             case 2 => 4096 * v + 64 * LowBits(src[i]) + LowBits(src[i + 1])
             case _ => 262144 * v + 4096 * LowBits(src[i]) + 64 * LowBits(src[i + 1]) + LowBits(src[i + 2]), i + m)
  {
    hide ReadTail, LowBits;
    TailStep(src, i, n, v);
    if m > 0 {
      var v1 := v * 64 + LowBits(src[i]);
      TailStep(src, i + 1, n - 1, v1);
      if m > 1 {
        var v2 := v1 * 64 + LowBits(src[i + 1]);
        TailStep(src, i + 2, n - 2, v2);
        if m > 2 {
          TailStep(src, i + 3, n - 3, v2 * 64 + LowBits(src[i + 2]));
        }
      }
    }
  }

  lemma TailStep(src: seq<Byte>, pos: nat, n: nat, v: nat)
    requires pos <= |src|
    ensures ReadTail(src, pos, n, v) ==
            if n == 0 || pos == |src| then (v, pos) else ReadTail(src, pos + 1, n - 1, v * 64 + LowBits(src[pos]))
  {
  }

  lemma {:induction false} HexSnoc(src: seq<Byte>, i: nat, n: nat, v: nat)
    requires i + n < |src|
    ensures ReadHex(src, i, n + 1, v) ==
            var r := ReadHex(src, i, n, v);
            if r.Got? && IsHex(src[i + n]) then Got(r.value * 16 + HexDigit(src[i + n]), i + n + 1) else Fail
    decreases n
  {
    if n > 0 {
      if IsHex(At(src, i)) {
        HexSnoc(src, i + 1, n - 1, v * 16 + HexDigit(At(src, i)));
      }
    } else {
      assert ReadHex(src, i + 1, 0, v * 16) == Got(v * 16, i + 1);
    }
  }

  lemma DigitReads(b: Byte, d: nat)
    ensures DigitIs(b, d) <==> IsHex(b) && HexDigit(b) == d
  {
  }

  /** Digits are read as what they spell. */
  lemma {:induction false} HexReads(src: seq<Byte>, i: nat, n: nat, c: nat)
    requires i <= |src|
    ensures ReadHex(src, i, n, 0) == Got(c, i + n) <==> i + n <= |src| && HexOf(src[i..i + n], c)
    decreases n
  {
    if n > 0 && i + n <= |src| {
      hide ReadHex, HexDigit, IsHex, DigitIs;
      var m := n - 1;
      var t := src[i..i + n];
      assert t[..m] == src[i..i + m] && t[m] == src[i + m];
      HexSnoc(src, i, m, 0);
      HexReads(src, i, m, c / 16);
      DigitReads(src[i + m], c % 16);
      HexTop(src, i, m, c);
    } else if n > 0 {
      HexShort(src, i, n, 0);
    } else {
      assert src[i..i] == [];
    }
  }

  lemma HexTop(src: seq<Byte>, i: nat, m: nat, c: nat)
    requires i + m < |src|
    ensures var r := ReadHex(src, i, m, 0);
            (r.Got? && IsHex(src[i + m]) && r.value * 16 + HexDigit(src[i + m]) == c) <==>
            (r == Got(c / 16, i + m) && IsHex(src[i + m]) && HexDigit(src[i + m]) == c % 16)
  {
    hide ReadHex;
    var r := ReadHex(src, i, m, 0);
    if r.Got? && IsHex(src[i + m]) {
      assert 0 <= HexDigit(src[i + m]) < 16;
    }
  }

  lemma {:induction false} HexShort(src: seq<Byte>, i: nat, n: nat, v: nat)
    requires i <= |src| < i + n
    ensures ReadHex(src, i, n, v) == Fail
    decreases n
  {
    if i < |src| && IsHex(At(src, i)) {
      HexShort(src, i + 1, n - 1, v * 16 + HexDigit(At(src, i)));
    }
  }

  /** A character is read exactly as it is spelled. */
  lemma CharReads(src: seq<Byte>, i: nat, j: nat, c: nat)
    requires i <= |src|
    ensures ReadChar(src, i) == Got(c, j) <==> CharAt(src, i, j, c)
  {
    if i < |src| && src[i] == 92 {
      hide ReadHex, HexOf;
      if i + 2 <= |src| {
        HexReads(src, i + 2, 2, c);
        HexReads(src, i + 2, 4, c);
        HexReads(src, i + 2, 8, c);
      }
    } else if i < |src| {
      hide ReadHex, ReadTail;
      PlainReads(src, i, j, c);
    }
  }

  lemma PlainReads(src: seq<Byte>, i: nat, j: nat, c: nat)
    requires i < |src| && src[i] != 92
    ensures ReadTail(src, i + 1, Width(src[i]) - 1, FirstBits(src[i], Width(src[i]))) == (c, j) <==>
            PlainAt(src, i, j, c)
  {
    hide ReadTail, FirstBits, Coded;
    var end := if i + Width(src[i]) <= |src| then i + Width(src[i]) else |src|;
    var v := PlainSome(src, i, end);
    TailReads(src, i, end, v);
    if PlainAt(src, i, j, c) {
      TailReads(src, i, j, c);
    }
  }

  lemma PlainSome(src: seq<Byte>, i: nat, end: nat) returns (v: nat)
    requires i < end <= |src| && src[i] != 92 && (end == i + Width(src[i]) || (end < i + Width(src[i]) && end == |src|))
    ensures PlainAt(src, i, end, v)
  {
    var bs, w := src[i..end], Width(src[i]);
    if |bs| == 1 {
      v := First(bs[0], w);
    } else if |bs| == 2 {
      v := 64 * First(bs[0], w) + Six(bs[1]);
    } else if |bs| == 3 {
      v := 4096 * First(bs[0], w) + 64 * Six(bs[1]) + Six(bs[2]);
    } else {
      v := 262144 * First(bs[0], w) + 4096 * Six(bs[1]) + 64 * Six(bs[2]) + Six(bs[3]);
    }
  }

  /** The UTF-8 sequence of a code point stands for it. */
  lemma EncodedAt(src: seq<Byte>, i: nat, c: nat)
    requires GrammarTokens.Scalar(c) && c != 92
    requires var t := GrammarTokens.Encode(c); i + |t| <= |src| && src[i..i + |t|] == t
    ensures CharAt(src, i, i + |GrammarTokens.Encode(c)|, c)
    ensures ReadChar(src, i) == Got(c, i + |GrammarTokens.Encode(c)|)
  {
    var t := GrammarTokens.Encode(c);
    assert src[i] == t[0];
    CodedThere(c);
    CharReads(src, i, i + |t|, c);
  }

  lemma CodedThere(c: nat)
    requires GrammarTokens.Scalar(c)
    ensures var t := GrammarTokens.Encode(c); |t| == Width(t[0]) && Coded(t, |t|, c) && (c != 92 ==> t[0] != 92)
  {
    hide Six;
    if 0x80 <= c < 0x800 {
      Digits64(c);
      Lead(0xC0, c / 64, 64);
    } else if 0x800 <= c < 0x10000 {
      Digits64(c);
      Digits64(c / 64);
      Quarter(c);
      Lead(0xE0, c / 4096, 32);
    } else if c >= 0x10000 {
      Digits64(c);
      Digits64(c / 64);
      Digits64(c / 4096);
      Quarter(c);
      Lead(0xF0, c / 262144, 16);
    }
  }

  lemma Lead(mark: nat, c: nat, room: nat)
    requires (mark == 0xC0 && room == 64) || (mark == 0xE0 && room == 32) || (mark == 0xF0 && room == 16)
    requires c < room
    ensures (mark + c) % room == c
  {
  }

  lemma Digits64(c: nat)
    ensures c == 64 * (c / 64) + c % 64 && Six(0x80 + c % 64) == c % 64
  {
  }

  lemma Quarter(c: nat)
    ensures c / 64 / 64 == c / 4096 && c / 4096 / 64 == c / 262144
  {
  }

  // ----- blanks and names

  predicate IsBlank(c: int, lines: bool) {
    c == 32 || c == 9 || (lines && (c == 10 || c == 13))
  }

  /** The end of the text or of a line. */
  predicate EndsLine(c: int) {
    c == 0 || c == 10 || c == 13
  }

  /** Blanks and comments, a comment from its sign to the end of the line. */
  ghost predicate BlankRun(src: seq<Byte>, i: nat, j: nat, lines: bool)
    decreases j - i
  {
    && i <= j <= |src|
    && (|| i == j
        || (i < j && IsBlank(src[i], lines) && BlankRun(src, i + 1, j, lines))
        || (i < j && src[i] == 35 &&
            exists k :: i < k <= j && CommentAt(src, i, k) && BlankRun(src, k, j, lines)))
  }

  ghost predicate CommentAt(src: seq<Byte>, i: nat, k: nat) {
    i < k <= |src| && src[i] == 35 && EndsLine(Ch(src, k)) && forall m :: i < m < k ==> !EndsLine(src[m])
  }

  /** All blanks from `i` to `j`. */
  ghost predicate BlanksAt(src: seq<Byte>, i: nat, j: nat, lines: bool) {
    BlankRun(src, i, j, lines) && !IsBlank(Ch(src, j), lines) && Ch(src, j) != 35
  }

  lemma {:induction false} LineReads(src: seq<Byte>, i: nat, k: nat)
    requires i < k <= |src| && EndsLine(Ch(src, k)) && forall m :: i < m < k ==> !EndsLine(src[m])
    ensures SkipLine(src, i + 1) == k
    decreases k - i
  {
    if i + 1 < k {
      LineReads(src, i + 1, k);
    }
  }

  lemma {:induction false} RunReads(src: seq<Byte>, i: nat, j: nat, lines: bool)
    requires BlankRun(src, i, j, lines)
    ensures SkipSpace(src, i, lines) == SkipSpace(src, j, lines)
    decreases j - i
  {
    if i < j {
      if IsBlank(src[i], lines) && BlankRun(src, i + 1, j, lines) {
        RunReads(src, i + 1, j, lines);
      } else {
        var k :| i < k <= j && CommentAt(src, i, k) && BlankRun(src, k, j, lines);
        LineReads(src, i, k);
        RunReads(src, k, j, lines);
      }
    }
  }

  lemma {:induction false} RunSkipped(src: seq<Byte>, i: nat, lines: bool)
    requires i <= |src|
    ensures BlanksAt(src, i, SkipSpace(src, i, lines), lines)
    decreases |src| - i
  {
    if IsSpace(At(src, i), lines) {
      RunSkipped(src, i + 1, lines);
    } else if At(src, i) == '#' as int {
      var k := SkipLine(src, i + 1);
      assert forall m :: i < m < k ==> !IsLineEnd(At(src, m)) && At(src, m) == src[m];
      assert CommentAt(src, i, k);
      RunSkipped(src, k, lines);
    }
  }

  /** Blanks are skipped exactly as far as they go. */
  lemma BlanksRead(src: seq<Byte>, i: nat, j: nat, lines: bool)
    requires i <= |src|
    ensures SkipSpace(src, i, lines) == j <==> BlanksAt(src, i, j, lines)
  {
    RunSkipped(src, i, lines);
    if BlanksAt(src, i, j, lines) {
      RunReads(src, i, j, lines);
    }
  }

  predicate IsLetter(c: int) {
    97 <= c <= 122 || 65 <= c <= 90 || 48 <= c <= 57 || c == 45
  }

  ghost predicate NameAt(src: seq<Byte>, i: nat, j: nat, name: Name) {
    i < j <= |src| && src[i..j] == name && (forall k :: i <= k < j ==> IsLetter(src[k])) && !IsLetter(Ch(src, j))
  }

  lemma {:induction false} LettersRead(src: seq<Byte>, i: nat, j: nat)
    requires i <= j <= |src| && (forall k :: i <= k < j ==> IsLetter(src[k])) && !IsLetter(Ch(src, j))
    ensures SkipName(src, i) == j
    decreases j - i
  {
    if i < j {
      LettersRead(src, i + 1, j);
    }
  }

  lemma NameReads(src: seq<Byte>, i: nat, j: nat, name: Name)
    requires i <= |src|
    ensures SkipName(src, i) == j > i && src[i..j] == name <==> NameAt(src, i, j, name)
  {
    if NameAt(src, i, j, name) {
      LettersRead(src, i, j);
    }
    if SkipName(src, i) == j {
      forall k | i <= k < j
        ensures IsLetter(src[k])
      {
        assert IsWordChar(At(src, k));
      }
    }
  }

  // ----- literals and classes

  /** The rest of a literal after its quote. */
  ghost predicate LiteralAt(src: seq<Byte>, i: nat, j: nat, es: seq<Elem>)
    decreases |es|
  {
    if es == [] then Ch(src, i) == 34 && j == i + 1
    else es[0].Char? && Ch(src, i) != 34 && exists k: nat :: CharAt(src, i, k, es[0].c) && LiteralAt(src, k, j, es[1..])
  }

  lemma {:induction false} LiteralReads(src: seq<Byte>, i: nat, j: nat, es: seq<Elem>, done: seq<Elem>)
    requires i <= |src| && LiteralAt(src, i, j, es)
    ensures ReadLiteral(src, i, done) == Got(done + es, j)
    decreases |es|
  {
    hide ReadChar, CharAt;
    if es == [] {
      assert done + es == done;
    } else {
      var k: nat :| CharAt(src, i, k, es[0].c) && LiteralAt(src, k, j, es[1..]);
      CharReads(src, i, k, es[0].c);
      LiteralReads(src, k, j, es[1..], done + [Char(es[0].c)]);
      assert done + [Char(es[0].c)] + es[1..] == done + es;
    }
  }

  lemma {:induction false} LiteralFrom(src: seq<Byte>, i: nat, done: seq<Elem>) returns (es: seq<Elem>)
    requires i <= |src| && ReadLiteral(src, i, done).Got?
    ensures ReadLiteral(src, i, done).value == done + es && LiteralAt(src, i, ReadLiteral(src, i, done).pos, es)
    decreases |src| - i
  {
    hide ReadChar, CharAt;
    if At(src, i) == '"' as int {
      es := [];
    } else {
      var c, k := ReadChar(src, i).value, ReadChar(src, i).pos;
      CharReads(src, i, k, c);
      var more := LiteralFrom(src, k, done + [Char(c)]);
      es := [Char(c)] + more;
      assert es[1..] == more;
      assert done + [Char(c)] + more == done + es;
    }
  }

  /** The rest of a class after its bracket, and after the sign of a negated one. */
  ghost predicate ItemsAt(src: seq<Byte>, i: nat, j: nat, negated: bool, first: bool, es: seq<Elem>)
    decreases |es|, 0
  {
    if es == [] then Ch(src, i) == 93 && j == i + 1
    else
      && (if !first then es[0].CharAlt? else if negated then es[0].CharNot? else es[0].Char?) && Ch(src, i) != 93
      && exists k: nat :: CharAt(src, i, k, es[0].c) && AfterAt(src, k, j, negated, es[1..])
  }

  /** After a character of a class: a dash and the end of a range, unless the dash is the last character, and the
      rest of the class. */
  ghost predicate AfterAt(src: seq<Byte>, k: nat, j: nat, negated: bool, rest: seq<Elem>)
    decreases |rest|, 1
  {
    if Ch(src, k) == 45 && Ch(src, k + 1) != 93
    then rest != [] && rest[0].RngUpper? && RangeAt(src, k + 1, j, negated, rest[0].c, rest[1..])
    else ItemsAt(src, k, j, negated, false, rest)
  }

  ghost predicate RangeAt(src: seq<Byte>, i: nat, j: nat, negated: bool, c: nat, rest: seq<Elem>)
    decreases |rest|, 1
  {
    exists m: nat :: CharAt(src, i, m, c) && ItemsAt(src, m, j, negated, false, rest)
  }

  lemma RangeEnd(src: seq<Byte>, i: nat, j: nat, negated: bool, c: nat, rest: seq<Elem>) returns (m: nat)
    requires RangeAt(src, i, j, negated, c, rest)
    ensures CharAt(src, i, m, c) && ItemsAt(src, m, j, negated, false, rest)
  {
    hide CharAt;
    m :| CharAt(src, i, m, c) && ItemsAt(src, m, j, negated, false, rest);
  }

  lemma FirstItem(src: seq<Byte>, i: nat, j: nat, negated: bool, first: bool, es: seq<Elem>) returns (k: nat)
    requires es != [] && ItemsAt(src, i, j, negated, first, es)
    ensures CharAt(src, i, k, es[0].c) && AfterAt(src, k, j, negated, es[1..]) && Ch(src, i) != 93
    ensures es[0] == ClassItem(negated, first, es[0].c)
  {
    hide CharAt, AfterAt;
    k :| CharAt(src, i, k, es[0].c) && AfterAt(src, k, j, negated, es[1..]);
  }

  /** What reading a class does after one of its characters. */
  function ReadAfter(src: seq<Byte>, k: nat, negated: bool, done: seq<Elem>): Parsed<seq<Elem>>
    requires k <= |src|
  {
    if At(src, k) == '-' as int && At(src, k + 1) != ']' as int then
      match ReadChar(src, k + 1)
      case Fail => Fail
      case Got(d, q) => ReadClass(src, q, negated, done + [RngUpper(d)])
    else ReadClass(src, k, negated, done)
  }

  lemma ClassStep(src: seq<Byte>, i: nat, negated: bool, done: seq<Elem>)
    requires i <= |src|
    ensures ReadClass(src, i, negated, done) ==
            if At(src, i) == ']' as int then Got(done, i + 1)
            else match ReadChar(src, i)
              case Fail => Fail
              case Got(c, k) => ReadAfter(src, k, negated, done + [ClassItem(negated, done == [], c)])
  {
    hide ReadChar;
  }

  lemma {:induction false} ItemsRead(src: seq<Byte>, i: nat, j: nat, negated: bool, es: seq<Elem>, done: seq<Elem>)
    requires i <= |src| && ItemsAt(src, i, j, negated, done == [], es)
    ensures ReadClass(src, i, negated, done) == Got(done + es, j)
    decreases |es|, 0
  {
    hide ReadChar, CharAt, ReadClass, ReadAfter, AfterAt;
    ClassStep(src, i, negated, done);
    if es == [] {
      assert done + es == done;
    } else {
      var k := FirstItem(src, i, j, negated, done == [], es);
      CharReads(src, i, k, es[0].c);
      AfterReads(src, k, j, negated, es[1..], done + [es[0]]);
      assert done + [es[0]] + es[1..] == done + es;
    }
  }

  lemma {:induction false} AfterReads(src: seq<Byte>, k: nat, j: nat, negated: bool, rest: seq<Elem>, done: seq<Elem>)
    requires k <= |src| && done != [] && AfterAt(src, k, j, negated, rest)
    ensures ReadAfter(src, k, negated, done) == Got(done + rest, j)
    decreases |rest|, 1
  {
    hide ReadChar, CharAt, ReadClass, RangeAt, ItemsAt;
    if Ch(src, k) == 45 && Ch(src, k + 1) != 93 {
      var m := RangeEnd(src, k + 1, j, negated, rest[0].c, rest[1..]);
      CharReads(src, k + 1, m, rest[0].c);
      ItemsRead(src, m, j, negated, rest[1..], done + [rest[0]]);
      assert done + [rest[0]] + rest[1..] == done + rest;
    } else {
      ItemsRead(src, k, j, negated, rest, done);
    }
  }

  lemma {:induction false} ItemsFrom(src: seq<Byte>, i: nat, negated: bool, done: seq<Elem>) returns (es: seq<Elem>)
    requires i <= |src| && ReadClass(src, i, negated, done).Got?
    ensures var r := ReadClass(src, i, negated, done);
            r.value == done + es && ItemsAt(src, i, r.pos, negated, done == [], es)
    decreases |src| - i, 0
  {
    hide ReadChar, CharAt, ReadClass, ReadAfter, AfterAt;
    ClassStep(src, i, negated, done);
    if At(src, i) == ']' as int {
      es := [];
    } else {
      var c, k := ReadChar(src, i).value, ReadChar(src, i).pos;
      CharReads(src, i, k, c);
      var e := ClassItem(negated, done == [], c);
      var more := AfterFrom(src, k, negated, done + [e]);
      es := [e] + more;
      assert es[1..] == more && done + [e] + more == done + es;
    }
  }

  lemma {:induction false} AfterFrom(src: seq<Byte>, k: nat, negated: bool, done: seq<Elem>) returns (rest: seq<Elem>)
    requires k <= |src| && done != [] && ReadAfter(src, k, negated, done).Got?
    ensures var r := ReadAfter(src, k, negated, done);
            r.value == done + rest && AfterAt(src, k, r.pos, negated, rest)
    decreases |src| - k, 1
  {
    hide ReadChar, CharAt, ReadClass, ItemsAt;
    if At(src, k) == '-' as int && At(src, k + 1) != ']' as int {
      var d, m := ReadChar(src, k + 1).value, ReadChar(src, k + 1).pos;
      CharReads(src, k + 1, m, d);
      var more := ItemsFrom(src, m, negated, done + [RngUpper(d)]);
      rest := [RngUpper(d)] + more;
      assert rest[1..] == more && done + [RngUpper(d)] + more == done + rest;
      assert RangeAt(src, k + 1, ReadAfter(src, k, negated, done).pos, negated, d, more);
    } else {
      rest := ItemsFrom(src, k, negated, done);
    }
  }

  // ----- symbols

  /** A quoted literal or a class in brackets. */
  ghost predicate TermAt(src: seq<Byte>, i: nat, j: nat, es: seq<Elem>) {
    || (Ch(src, i) == 34 && LiteralAt(src, i + 1, j, es))
    || (Ch(src, i) == 91 && Ch(src, i + 1) != 94 && ItemsAt(src, i + 1, j, false, true, es))
    || (Ch(src, i) == 91 && Ch(src, i + 1) == 94 && ItemsAt(src, i + 2, j, true, true, es))
  }

  function Sign(op: Op): int {
    match op case Star => 42 case Plus => 43 case Opt => 63
  }

  predicate Begins(c: int) {
    c == 34 || c == 91 || c == 40 || IsLetter(c)
  }

  predicate IsSign(c: int) {
    c == 42 || c == 43 || c == 63
  }

  /** A symbol with the blanks after it; inside parentheses these may be line ends. */
  ghost predicate SymAt(src: seq<Byte>, i: nat, j: nat, nested: bool, s: Sym)
    decreases s, 0
  {
    match s
    case Term(es) => exists k: nat :: TermAt(src, i, k, es) && BlanksAt(src, k, j, nested)
    case Ref(name) => exists k: nat :: NameAt(src, i, k, name) && BlanksAt(src, k, j, nested)
    case Group(alts) =>
      && Ch(src, i) == 40
      && exists a: nat, b: nat :: BlanksAt(src, i + 1, a, true) && AltsAt(src, a, b, true, alts) && Ch(src, b) == 41 &&
           BlanksAt(src, b + 1, j, nested)
    case Repeat(op, body) =>
      && body != Term([])
      && exists k: nat :: SymAt(src, i, k, nested, body) && Ch(src, k) == Sign(op) && BlanksAt(src, k + 1, j, nested)
  }

  ghost predicate SymsAt(src: seq<Byte>, i: nat, j: nat, nested: bool, syms: seq<Sym>)
    decreases syms, 1
  {
    if syms == [] then i == j
    else
      var n := |syms| - 1;
      exists k: nat :: SymsAt(src, i, k, nested, syms[..n]) && SymAt(src, k, j, nested, syms[n])
  }

  /** One alternative: symbols as far as they go. */
  ghost predicate AltAt(src: seq<Byte>, i: nat, j: nat, nested: bool, syms: seq<Sym>)
    decreases syms, 2
  {
    SymsAt(src, i, j, nested, syms) && !Begins(Ch(src, j)) && !IsSign(Ch(src, j))
  }

  ghost predicate AltsRun(src: seq<Byte>, i: nat, j: nat, nested: bool, alts: seq<Alternative>)
    decreases alts, 3
  {
    && alts != []
    && var n := |alts| - 1;
       if n == 0 then AltAt(src, i, j, nested, alts[0].syms)
       else exists k: nat, m: nat :: AltsRun(src, i, k, nested, alts[..n]) && Ch(src, k) == 124 &&
              BlanksAt(src, k + 1, m, true) && AltAt(src, m, j, nested, alts[n].syms)
  }

  /** Alternatives separated by bars, as far as they go. */
  ghost predicate AltsAt(src: seq<Byte>, i: nat, j: nat, nested: bool, alts: seq<Alternative>)
    decreases alts, 4
  {
    AltsRun(src, i, j, nested, alts) && Ch(src, j) != 124
  }

  lemma TermReads(src: seq<Byte>, i: nat, k: nat, j: nat, nested: bool, es: seq<Elem>)
    requires i <= |src| && TermAt(src, i, k, es) && BlanksAt(src, k, j, nested)
    ensures ReadSymbol(src, i, nested) == Got(Term(es), j)
  {
    hide ReadLiteral, ReadClass, SkipSpace, LiteralAt, ItemsAt, BlanksAt;
    if Ch(src, i) == 34 {
      LiteralReads(src, i + 1, k, es, []);
    } else if Ch(src, i + 1) == 94 {
      ItemsRead(src, i + 2, k, true, es, []);
    } else {
      ItemsRead(src, i + 1, k, false, es, []);
    }
    assert [] + es == es;
    BlanksRead(src, k, j, nested);
  }

  lemma TermFrom(src: seq<Byte>, i: nat, nested: bool)
    requires i <= |src| && ReadSymbol(src, i, nested).Got? && ReadSymbol(src, i, nested).value.Term?
    ensures SymAt(src, i, ReadSymbol(src, i, nested).pos, nested, ReadSymbol(src, i, nested).value)
  {
    hide ReadLiteral, ReadClass, SkipSpace, LiteralAt, ItemsAt, BlanksAt, ReadAlts;
    var r := ReadSymbol(src, i, nested);
    var es, k;
    if At(src, i) == '"' as int {
      es := LiteralFrom(src, i + 1, []);
      k := ReadLiteral(src, i + 1, []).pos;
    } else {
      var negated := At(src, i + 1) == '^' as int;
      var at := if negated then i + 2 else i + 1;
      es := ItemsFrom(src, at, negated, []);
      k := ReadClass(src, at, negated, []).pos;
    }
    assert [] + es == es;
    BlanksRead(src, k, r.pos, nested);
    assert TermAt(src, i, k, es);
  }

  lemma SignReads(op: Op, c: int)
    ensures c == Sign(op) <==> IsOp(c) && OpOf(c) == op
    ensures IsSign(c) <==> IsOp(c)
    ensures Begins(c) <==> StartsSymbol(c)
  {
  }

  /** Reading goes on after a symbol with the symbol read. */
  lemma {:induction false} SymReads(src: seq<Byte>, i: nat, j: nat, nested: bool, s: Sym, acc: seq<Sym>)
    requires i <= |src| && SymAt(src, i, j, nested, s)
    ensures i < j <= |src| && ReadSeq(src, i, nested, acc) == ReadSeq(src, j, nested, acc + [s])
    decreases s, 0
  {
    hide ReadSymbol, SkipSpace, BlanksAt, TermAt, AltsAt;
    SignReads(Star, Ch(src, i));
    match s
    case Term(es) =>
      var k: nat :| TermAt(src, i, k, es) && BlanksAt(src, k, j, nested);
      TermReads(src, i, k, j, nested, es);
      TermBegins(src, i, k, es);
    case Ref(name) =>
      var k: nat :| NameAt(src, i, k, name) && BlanksAt(src, k, j, nested);
      RefReads(src, i, k, j, nested, name);
    case Group(alts) =>
      var a: nat, b: nat :| BlanksAt(src, i + 1, a, true) && AltsAt(src, a, b, true, alts) && Ch(src, b) == 41 &&
        BlanksAt(src, b + 1, j, nested);
      GroupReads(src, i, a, b, j, nested, alts);
    case Repeat(op, body) =>
      var k: nat :| SymAt(src, i, k, nested, body) && Ch(src, k) == Sign(op) && BlanksAt(src, k + 1, j, nested);
      SymReads(src, i, k, nested, body, acc);
      BlanksRead(src, k + 1, j, nested);
      SignReads(op, Ch(src, k));
      OpReads(src, k, j, nested, acc, op, body);
  }

  lemma TermBegins(src: seq<Byte>, i: nat, k: nat, es: seq<Elem>)
    requires TermAt(src, i, k, es)
    ensures Begins(Ch(src, i)) && i < |src|
  {
  }

  lemma OpReads(src: seq<Byte>, k: nat, j: nat, nested: bool, acc: seq<Sym>, op: Op, body: Sym)
    requires k < |src| && At(src, k) == Sign(op) && SkipSpace(src, k + 1, nested) == j && body != Term([])
    ensures ReadSeq(src, k, nested, acc + [body]) == ReadSeq(src, j, nested, acc + [Repeat(op, body)])
  {
    hide SkipSpace;
    var syms := acc + [body];
    assert syms[..|syms| - 1] == acc && syms[|syms| - 1] == body;
  }

  lemma RefReads(src: seq<Byte>, i: nat, k: nat, j: nat, nested: bool, name: Name)
    requires i <= |src| && NameAt(src, i, k, name) && BlanksAt(src, k, j, nested)
    ensures ReadSymbol(src, i, nested) == Got(Ref(name), j) && Begins(Ch(src, i))
  {
    hide SkipSpace, BlanksAt, SkipName;
    NameReads(src, i, k, name);
    BlanksRead(src, k, j, nested);
    assert IsLetter(src[i]);
  }

  lemma {:induction false} GroupReads(src: seq<Byte>, i: nat, a: nat, b: nat, j: nat, nested: bool,
                                      alts: seq<Alternative>)
    requires i < |src| && Ch(src, i) == 40 && BlanksAt(src, i + 1, a, true) && AltsAt(src, a, b, true, alts)
    requires Ch(src, b) == 41 && BlanksAt(src, b + 1, j, nested)
    ensures ReadSymbol(src, i, nested) == Got(Group(alts), j)
    decreases alts, 6
  {
    hide SkipSpace, BlanksAt, AltsAt, ReadAlts;
    BlanksRead(src, i + 1, a, true);
    AltsRead(src, a, b, true, alts);
    BlanksRead(src, b + 1, j, nested);
  }

  lemma {:induction false} SymsRead(src: seq<Byte>, i: nat, j: nat, nested: bool, syms: seq<Sym>, acc: seq<Sym>)
    requires i <= |src| && SymsAt(src, i, j, nested, syms)
    ensures j <= |src| && ReadSeq(src, i, nested, acc) == ReadSeq(src, j, nested, acc + syms)
    decreases syms, 1
  {
    hide ReadSeq, SymAt;
    if syms == [] {
      assert acc + syms == acc;
    } else {
      var n := |syms| - 1;
      var k: nat :| SymsAt(src, i, k, nested, syms[..n]) && SymAt(src, k, j, nested, syms[n]);
      SymsRead(src, i, k, nested, syms[..n], acc);
      SymReads(src, k, j, nested, syms[n], acc + syms[..n]);
      assert acc + syms[..n] + [syms[n]] == acc + syms;
    }
  }

  lemma {:induction false} AltReads(src: seq<Byte>, i: nat, j: nat, nested: bool, syms: seq<Sym>)
    requires i <= |src| && AltAt(src, i, j, nested, syms)
    ensures j <= |src| && ReadSeq(src, i, nested, []) == Got(syms, j)
    decreases syms, 2
  {
    hide SymsAt, ReadSymbol;
    SymsRead(src, i, j, nested, syms, []);
    assert [] + syms == syms;
    SignReads(Star, Ch(src, j));
  }

  lemma {:induction false} RunAltsRead(src: seq<Byte>, i: nat, j: nat, nested: bool, alts: seq<Alternative>)
    requires i <= |src| && AltsRun(src, i, j, nested, alts)
    ensures j <= |src| && ReadAlts(src, i, nested) == ReadMoreAlts(src, j, nested, alts)
    decreases alts, 3
  {
    hide ReadSeq, AltAt, BlanksAt, SkipSpace;
    var n := |alts| - 1;
    if n == 0 {
      AltReads(src, i, j, nested, alts[0].syms);
      assert [Alternative(alts[0].syms)] == alts;
    } else {
      var k: nat, m: nat :| AltsRun(src, i, k, nested, alts[..n]) && Ch(src, k) == 124 &&
        BlanksAt(src, k + 1, m, true) && AltAt(src, m, j, nested, alts[n].syms);
      RunAltsRead(src, i, k, nested, alts[..n]);
      BlanksRead(src, k + 1, m, true);
      AltReads(src, m, j, nested, alts[n].syms);
      assert alts[..n] + [Alternative(alts[n].syms)] == alts;
    }
  }

  lemma {:induction false} AltsRead(src: seq<Byte>, i: nat, j: nat, nested: bool, alts: seq<Alternative>)
    requires i <= |src| && AltsAt(src, i, j, nested, alts)
    ensures j <= |src| && ReadAlts(src, i, nested) == Got(alts, j)
    decreases alts, 4
  {
    hide ReadAlts, AltsRun;
    RunAltsRead(src, i, j, nested, alts);
  }

  // ----- and back

  lemma {:induction false} SymFrom(src: seq<Byte>, i: nat, nested: bool)
    requires i <= |src| && ReadSymbol(src, i, nested).Got?
    ensures SymAt(src, i, ReadSymbol(src, i, nested).pos, nested, ReadSymbol(src, i, nested).value)
    decreases |src| - i, 0
  {
    hide ReadLiteral, ReadClass, SkipSpace, SkipName, BlanksAt, ReadAlts, NameAt, AltsAt;
    var r := ReadSymbol(src, i, nested);
    if r.value.Term? {
      TermFrom(src, i, nested);
    } else if IsWordChar(At(src, i)) {
      var k := SkipName(src, i);
      NameReads(src, i, k, src[i..k]);
      BlanksRead(src, k, r.pos, nested);
    } else {
      var a := SkipSpace(src, i + 1, true);
      BlanksRead(src, i + 1, a, true);
      AltsFrom(src, a, true);
      var b := ReadAlts(src, a, true).pos;
      BlanksRead(src, b + 1, r.pos, nested);
    }
  }

  /** What has been read so far stays, or its last symbol is repeated. */
  lemma {:induction false} SeqFrom(src: seq<Byte>, start: nat, i: nat, nested: bool, acc: seq<Sym>)
    requires i <= |src| && SymsAt(src, start, i, nested, acc) && ReadSeq(src, i, nested, acc).Got?
    ensures AltAt(src, start, ReadSeq(src, i, nested, acc).pos, nested, ReadSeq(src, i, nested, acc).value)
    decreases |src| - i, 1
  {
    hide ReadSymbol, SkipSpace, BlanksAt, SymAt;
    var c := At(src, i);
    SignReads(Star, c);
    if StartsSymbol(c) {
      var r := ReadSymbol(src, i, nested);
      SymFrom(src, i, nested);
      var acc1 := acc + [r.value];
      assert acc1[..|acc1| - 1] == acc;
      SeqFrom(src, start, r.pos, nested, acc1);
    } else if IsOp(c) {
      var n := |acc| - 1;
      var k: nat :| SymsAt(src, start, k, nested, acc[..n]) && SymAt(src, k, i, nested, acc[n]);
      var j := SkipSpace(src, i + 1, nested);
      BlanksRead(src, i + 1, j, nested);
      SignReads(OpOf(c), c);
      RepeatAt(src, k, i, j, nested, OpOf(c), acc[n]);
      var acc1 := acc[..n] + [Repeat(OpOf(c), acc[n])];
      assert acc1[..|acc1| - 1] == acc[..n];
      SeqFrom(src, start, j, nested, acc1);
    }
  }

  lemma RepeatAt(src: seq<Byte>, k: nat, i: nat, j: nat, nested: bool, op: Op, body: Sym)
    requires SymAt(src, k, i, nested, body) && Ch(src, i) == Sign(op) && BlanksAt(src, i + 1, j, nested)
    requires body != Term([])
    ensures SymAt(src, k, j, nested, Repeat(op, body))
  {
    hide BlanksAt;
  }

  lemma {:induction false} AltsFrom(src: seq<Byte>, i: nat, nested: bool)
    requires i <= |src| && ReadAlts(src, i, nested).Got?
    ensures AltsAt(src, i, ReadAlts(src, i, nested).pos, nested, ReadAlts(src, i, nested).value)
    decreases |src| - i, 2
  {
    hide ReadSeq, ReadMoreAlts, AltAt, AltsAt;
    assert SymsAt(src, i, i, nested, []);
    SeqFrom(src, i, i, nested, []);
    var r := ReadSeq(src, i, nested, []);
    MoreFrom(src, i, r.pos, nested, [Alternative(r.value)]);
  }

  lemma {:induction false} MoreFrom(src: seq<Byte>, start: nat, i: nat, nested: bool, alts: seq<Alternative>)
    requires i <= |src| && start <= i && AltsRun(src, start, i, nested, alts) && ReadMoreAlts(src, i, nested, alts).Got?
    ensures AltsAt(src, start, ReadMoreAlts(src, i, nested, alts).pos, nested, ReadMoreAlts(src, i, nested, alts).value)
    decreases |src| - i, 0
  {
    hide ReadSeq, AltAt, BlanksAt, SkipSpace;
    if At(src, i) == '|' as int {
      var m := SkipSpace(src, i + 1, true);
      BlanksRead(src, i + 1, m, true);
      assert SymsAt(src, m, m, nested, []);
      SeqFrom(src, m, m, nested, []);
      var r := ReadSeq(src, m, nested, []);
      var alts1 := alts + [Alternative(r.value)];
      RunSnoc(src, start, i, m, r.pos, nested, alts, r.value);
      MoreFrom(src, start, r.pos, nested, alts1);
    }
  }

  lemma RunSnoc(src: seq<Byte>, start: nat, i: nat, m: nat, j: nat, nested: bool, alts: seq<Alternative>,
                syms: seq<Sym>)
    requires AltsRun(src, start, i, nested, alts) && Ch(src, i) == 124 && BlanksAt(src, i + 1, m, true)
    requires AltAt(src, m, j, nested, syms)
    ensures AltsRun(src, start, j, nested, alts + [Alternative(syms)])
  {
    hide AltAt, BlanksAt;
    var alts1 := alts + [Alternative(syms)];
    var n := |alts1| - 1;
    assert alts1[..n] == alts && alts1[n].syms == syms;
    assert n > 0 && AltsRun(src, start, i, nested, alts1[..n]) && Ch(src, i) == 124 && BlanksAt(src, i + 1, m, true) &&
           AltAt(src, m, j, nested, alts1[n].syms);
    assert exists k: nat, l: nat :: AltsRun(src, start, k, nested, alts1[..n]) && Ch(src, k) == 124 &&
             BlanksAt(src, k + 1, l, true) && AltAt(src, l, j, nested, alts1[n].syms);
  }

  // ----- definitions

  /** The end of a line, in either form, or of the text. */
  predicate LineEndAt(src: seq<Byte>, i: nat, j: nat) {
    || (Ch(src, i) == 0 && j == i) || (Ch(src, i) == 10 && j == i + 1)
    || (Ch(src, i) == 13 && j == if Ch(src, i + 1) == 10 then i + 2 else i + 1)
  }

  /** Alternatives and the end of the line. */
  ghost predicate BodyAt(src: seq<Byte>, b: nat, j: nat, alts: seq<Alternative>) {
    exists c: nat, e: nat :: AltsAt(src, b, c, false, alts) && LineEndAt(src, c, e) && BlanksAt(src, e, j, true)
  }

  ghost predicate RestAt(src: seq<Byte>, k: nat, j: nat, alts: seq<Alternative>) {
    exists a: nat, b: nat ::
      BlanksAt(src, k, a, false) && SignAt(src, a) && BlanksAt(src, a + 3, b, true) && BodyAt(src, b, j, alts)
  }

  /** Name, sign, alternatives and the end of the line, with the blanks after each. */
  ghost predicate RuleAt(src: seq<Byte>, i: nat, j: nat, def: Def) {
    exists k: nat :: NameAt(src, i, k, def.name) && RestAt(src, k, j, def.alts)
  }

  predicate SignAt(src: seq<Byte>, i: nat) {
    Ch(src, i) == 58 && Ch(src, i + 1) == 58 && Ch(src, i + 2) == 61
  }

  ghost predicate RulesAt(src: seq<Byte>, i: nat, j: nat, defs: seq<Def>)
    decreases |defs|
  {
    if defs == [] then i == j
    else
      var n := |defs| - 1;
      exists k: nat :: RulesAt(src, i, k, defs[..n]) && RuleAt(src, k, j, defs[n])
  }

  /** The text spells the definitions. */
  ghost predicate Spells(src: seq<Byte>, defs: seq<Def>) {
    exists i: nat :: BlanksAt(src, 0, i, true) && RulesAt(src, i, |src|, defs)
  }

  /** What reading a definition does with the end of its line. */
  function ReadEnd(src: seq<Byte>, c: nat): Parsed<nat>
    requires c <= |src|
  {
    if !IsLineEnd(At(src, c)) then Fail
    else
      var e := if At(src, c) == 0 then c
               else if At(src, c) == '\r' as int && At(src, c + 1) == '\n' as int then c + 2
               else c + 1;
      Got(e, SkipSpace(src, e, true))
  }

  lemma EndReads(src: seq<Byte>, c: nat, j: nat)
    requires c <= |src|
    ensures (exists e: nat :: LineEndAt(src, c, e) && BlanksAt(src, e, j, true)) <==>
            ReadEnd(src, c).Got? && ReadEnd(src, c).pos == j
  {
    hide SkipSpace, BlanksAt;
    if e: nat :| LineEndAt(src, c, e) && BlanksAt(src, e, j, true) {
      BlanksRead(src, e, j, true);
    }
    if ReadEnd(src, c).Got? && ReadEnd(src, c).pos == j {
      BlanksRead(src, ReadEnd(src, c).value, j, true);
    }
  }

  lemma BodyReads(src: seq<Byte>, b: nat, j: nat, alts: seq<Alternative>)
    requires b <= |src|
    ensures BodyAt(src, b, j, alts) <==>
            var r := ReadAlts(src, b, false);
            r.Got? && r.value == alts && ReadEnd(src, r.pos).Got? && ReadEnd(src, r.pos).pos == j
  {
    hide ReadAlts, AltsAt, ReadEnd, LineEndAt, BlanksAt;
    if BodyAt(src, b, j, alts) {
      var c: nat, e: nat :| AltsAt(src, b, c, false, alts) && LineEndAt(src, c, e) && BlanksAt(src, e, j, true);
      AltsRead(src, b, c, false, alts);
      EndReads(src, c, j);
    }
    var r := ReadAlts(src, b, false);
    if r.Got? && r.value == alts && ReadEnd(src, r.pos).Got? && ReadEnd(src, r.pos).pos == j {
      AltsFrom(src, b, false);
      EndReads(src, r.pos, j);
    }
  }

  lemma RestReads(src: seq<Byte>, k: nat, j: nat, alts: seq<Alternative>)
    requires k <= |src|
    ensures RestAt(src, k, j, alts) <==>
            var a := SkipSpace(src, k, false);
            SignAt(src, a) && BodyAt(src, SkipSpace(src, a + 3, true), j, alts)
  {
    hide SkipSpace, BlanksAt, BodyAt;
    var a := SkipSpace(src, k, false);
    BlanksRead(src, k, a, false);
    if SignAt(src, a) {
      BlanksRead(src, a + 3, SkipSpace(src, a + 3, true), true);
    }
    if RestAt(src, k, j, alts) {
      var a1: nat, b1: nat :|
        BlanksAt(src, k, a1, false) && SignAt(src, a1) && BlanksAt(src, a1 + 3, b1, true) && BodyAt(src, b1, j, alts);
      BlanksRead(src, k, a1, false);
      BlanksRead(src, a1 + 3, b1, true);
    }
  }

  lemma RuleReads(src: seq<Byte>, i: nat, j: nat, def: Def)
    requires i <= |src|
    ensures ReadRule(src, i) == Got(def, j) <==> RuleAt(src, i, j, def)
  {
    hide ReadAlts, SkipSpace, SkipName, NameAt, RestAt, BodyAt;
    var k := SkipName(src, i);
    NameReads(src, i, k, src[i..k]);
    RestReads(src, k, j, def.alts);
    var a := SkipSpace(src, k, false);
    if SignAt(src, a) {
      BodyReads(src, SkipSpace(src, a + 3, true), j, def.alts);
    }
    if RuleAt(src, i, j, def) {
      var m: nat :| NameAt(src, i, m, def.name) && RestAt(src, m, j, def.alts);
      NameReads(src, i, m, def.name);
    }
    if k > i && def.name == src[i..k] {
      NameReads(src, i, k, def.name);
    }
  }

  lemma {:induction false} RulesRead(src: seq<Byte>, i: nat, j: nat, defs: seq<Def>, done: seq<Def>)
    requires i <= |src| && RulesAt(src, i, j, defs)
    ensures j <= |src| && ReadRules(src, i, done) == ReadRules(src, j, done + defs)
    decreases |defs|
  {
    hide ReadRule, RuleAt;
    if defs == [] {
      assert done + defs == done;
    } else {
      var n := |defs| - 1;
      var k: nat :| RulesAt(src, i, k, defs[..n]) && RuleAt(src, k, j, defs[n]);
      RulesRead(src, i, k, defs[..n], done);
      RuleReads(src, k, j, defs[n]);
      assert done + defs[..n] + [defs[n]] == done + defs;
    }
  }

  lemma {:induction false} RulesFrom(src: seq<Byte>, start: nat, i: nat, done: seq<Def>)
    requires i <= |src| && RulesAt(src, start, i, done) && ReadRules(src, i, done).Got?
    ensures RulesAt(src, start, |src|, ReadRules(src, i, done).value)
    decreases |src| - i
  {
    hide ReadRule, RuleAt;
    if i < |src| {
      var r := ReadRule(src, i);
      RuleReads(src, i, r.pos, r.value);
      var done1 := done + [r.value];
      assert done1[..|done1| - 1] == done;
      RulesFrom(src, start, r.pos, done1);
    }
  }

  /** A text is read as some definitions if and only if it spells them, whatever spelling of its characters, blanks,
      comments and line ends it has. */
  lemma ReadsIff(src: seq<Byte>, defs: seq<Def>)
    ensures ReadText(src) == Got(defs, |src|) <==> Spells(src, defs)
  {
    hide ReadRules, RulesAt, SkipSpace, BlanksAt;
    var start := SkipSpace(src, 0, true);
    BlanksRead(src, 0, start, true);
    if Spells(src, defs) {
      var i: nat :| BlanksAt(src, 0, i, true) && RulesAt(src, i, |src|, defs);
      BlanksRead(src, 0, i, true);
      RulesRead(src, i, |src|, defs, []);
      assert [] + defs == defs;
      NoMore(src, defs);
    }
    if ReadText(src) == Got(defs, |src|) {
      Nothing(src, start);
      RulesFrom(src, start, start, []);
    }
  }

  lemma NoMore(src: seq<Byte>, defs: seq<Def>)
    ensures ReadRules(src, |src|, defs) == Got(defs, |src|)
  {
  }

  lemma Nothing(src: seq<Byte>, i: nat)
    ensures RulesAt(src, i, i, [])
  {
  }
}
