/** Feeding the recogniser with tokens: chunks of UTF-8 text that may cut a character in two. */
module GrammarTokens {
  import opened GrammarRules
  import opened GrammarEngine
  import opened GrammarFilter

  datatype Decoded = Invalid | Valid(cps: Word, partial: Partial)

  /** The length that the first byte of a sequence announces, 0 for a continuation byte. */
  function Announced(b: Byte): nat {
    if b < 0x80 then 1 else if b < 0xC0 then 0 else if b < 0xE0 then 2 else if b < 0xF0 then 3 else 4
  }

  /** The bits that the first byte contributes to the code point. */
  function LeadBits(b: Byte): nat
    requires Announced(b) > 0
  {
    match Announced(b)
    case 1 => b % 128
    case 2 => b % 64
    case 3 => b % 32
    case _ => b % 16
  }

  /** The bits that a continuation byte contributes. */
  function ContBits(b: Byte): nat {
    var n: int := b;
    n % 64
  }

  predicate IsCont(b: Byte) {
    0x80 <= b < 0xC0
  }

  function Prepend(cps: Word, d: Decoded): Decoded {
    if d.Invalid? then Invalid else Valid(cps + d.cps, d.partial)
  }

  /** Decode from inside a sequence with `remain` bytes missing. Only when `strict` are these
      required to be continuation bytes. */
  function Scan(bs: seq<Byte>, value: nat, remain: nat, strict: bool): Decoded
    decreases |bs|
  {
    if bs == [] then Valid([], Partial(value, remain))
    else if remain > 0 then
      if strict && !IsCont(bs[0]) then Invalid
      else
        var v := value * 64 + ContBits(bs[0]);
        if remain == 1 then Prepend([v], Scan(bs[1..], v, 0, false))
        else Scan(bs[1..], v, remain - 1, strict)
    else if Announced(bs[0]) == 0 then Invalid
    else
      var v := LeadBits(bs[0]);
      if Announced(bs[0]) == 1 then Prepend([v], Scan(bs[1..], v, 0, false))
      else Scan(bs[1..], v, Announced(bs[0]) - 1, false)
  }

  /** The result of `decode_utf8`; an invalid text gives no code points and `n_remain == -1`. */
  function Decode(bs: seq<Byte>, start: Partial): Decoded {
    if bs == [] then Valid([], start)
    else if start.remain > 0 then Scan(bs, start.value, start.remain, true)
    else Scan(bs, start.value, 0, false)
  }

  lemma PrependTwice(a: Word, b: Word, d: Decoded)
    ensures Prepend(a, Prepend(b, d)) == Prepend(a + b, d)
  {
    if d.Valid? {
      assert a + (b + d.cps) == (a + b) + d.cps;
    }
  }

  /** Decode as the two loops of the source do. */
  method DecodeUtf8(bs: seq<Byte>, start: Partial) returns (cps: Word, partial: Partial)
    ensures match Decode(bs, start)
            case Invalid => cps == [0] && partial == Partial(0, -1)
            case Valid(c, p) => cps == c + [0] && partial == p
  {
    hide LeadBits, ContBits, IsCont, Announced;
    ghost var whole := Decode(bs, start);
    cps := [];
    var value: int, remain, pos := start.value, start.remain, 0;
    while pos < |bs| && remain > 0
      invariant pos <= |bs| && remain <= start.remain && value >= 0
      invariant start.remain <= 0 ==> remain == start.remain && value == start.value && pos == 0
      invariant start.remain > 0 ==> 0 <= remain
      invariant remain > 0 ==> whole == Scan(bs[pos..], value, remain, true)
      invariant start.remain > 0 && remain == 0 ==> whole == Prepend([value], Scan(bs[pos..], value, 0, false))
    {
      if !IsCont(bs[pos]) {
        return [0], Partial(0, -1);
      }
      assert bs[pos..][1..] == bs[pos + 1..];
      value := value * 64 + ContBits(bs[pos]);
      pos := pos + 1;
      remain := remain - 1;
    }
    if start.remain > 0 && remain == 0 {
      cps := [value];
    }
    if start.remain <= 0 {
      assert bs[0..] == bs;
      assert bs != [] ==> whole == Prepend([], Scan(bs[pos..], value, 0, false));
    }
    while pos < |bs|
      invariant pos <= |bs| && value >= 0
      invariant pos == |bs| ==> whole == Valid(cps, Partial(value, remain))
      invariant pos < |bs| ==> whole == Prepend(cps, Scan(bs[pos..], value, 0, false))
    {
      var lead := bs[pos];
      remain := Announced(lead) - 1;
      if remain < 0 {
        return [0], Partial(0, remain);
      }
      assert bs[pos..][1..] == bs[pos + 1..];
      value := LeadBits(lead);
      pos := pos + 1;
      while pos < |bs| && remain > 0
        invariant pos <= |bs| && 0 <= remain && value >= 0
        invariant remain > 0 ==> whole == Prepend(cps, Scan(bs[pos..], value, remain, false))
        invariant remain == 0 ==> whole == Prepend(cps, Prepend([value], Scan(bs[pos..], value, 0, false)))
      {
        assert bs[pos..][1..] == bs[pos + 1..];
        value := value * 64 + ContBits(bs[pos]);
        pos := pos + 1;
        remain := remain - 1;
      }
      if remain == 0 {
        PrependTwice(cps, [value], Scan(bs[pos..], value, 0, false));
        cps := cps + [value];
      }
    }
    cps := cps + [0];
    partial := Partial(value, remain);
  }

  // ----- chunked decoding

  /** The bytes that complete a cut character, as far as they are there, are continuation bytes. */
  predicate Resumes(bs: seq<Byte>, remain: int) {
    forall i :: 0 <= i < |bs| && i < remain ==> IsCont(bs[i])
  }

  lemma {:induction false} ScanResumes(bs: seq<Byte>, value: nat, remain: nat, strict: bool)
    requires Resumes(bs, remain)
    ensures Scan(bs, value, remain, strict) == Scan(bs, value, remain, false)
    decreases |bs|
  {
    if bs != [] && remain > 1 {
      assert IsCont(bs[0]);
      assert forall i :: 0 <= i < |bs[1..]| ==> bs[1..][i] == bs[i + 1];
      ScanResumes(bs[1..], value * 64 + ContBits(bs[0]), remain - 1, strict);
    } else if bs != [] && remain == 1 {
      assert IsCont(bs[0]);
    }
  }

  lemma {:induction false} ScanSplit(a: seq<Byte>, b: seq<Byte>, value: nat, remain: nat, strict: bool)
    requires Scan(a, value, remain, strict).Valid?
    requires Scan(a, value, remain, strict).partial.remain >= 0
    requires Resumes(b, Scan(a, value, remain, strict).partial.remain)
    ensures var d := Scan(a, value, remain, strict);
            Scan(a + b, value, remain, strict) == Prepend(d.cps, Scan(b, d.partial.value, d.partial.remain, false))
    decreases |a|
  {
    hide LeadBits, ContBits, Announced, IsCont, Resumes;
    if a == [] {
      assert a + b == b;
      ScanResumes(b, value, remain, strict);
    } else {
      assert (a + b)[1..] == a[1..] + b;
      var x := a[0];
      if remain > 0 {
        var v := value * 64 + ContBits(x);
        if remain == 1 {
          ScanSplit(a[1..], b, v, 0, false);
          var d := Scan(a[1..], v, 0, false);
          PrependTwice([v], d.cps, Scan(b, d.partial.value, d.partial.remain, false));
        } else {
          ScanSplit(a[1..], b, v, remain - 1, strict);
        }
      } else {
        var v := LeadBits(x);
        if Announced(x) == 1 {
          ScanSplit(a[1..], b, v, 0, false);
          var d := Scan(a[1..], v, 0, false);
          PrependTwice([v], d.cps, Scan(b, d.partial.value, d.partial.remain, false));
        } else {
          ScanSplit(a[1..], b, v, Announced(x) - 1, false);
        }
      }
    }
  }

  lemma {:induction false} ScanRemain(bs: seq<Byte>, value: nat, remain: nat, strict: bool)
    requires Scan(bs, value, remain, strict).Valid?
    ensures Scan(bs, value, remain, strict).partial.remain >= 0
    decreases |bs|
  {
    if bs != [] {
      if remain > 0 {
        var v := value * 64 + ContBits(bs[0]);
        ScanRemain(bs[1..], v, if remain == 1 then 0 else remain - 1, if remain == 1 then false else strict);
      } else {
        ScanRemain(bs[1..], LeadBits(bs[0]), Announced(bs[0]) - 1, false);
      }
    }
  }

  /** Decoding in two chunks is decoding the whole, whenever the second chunk properly completes
      the character that the first one cut; and when it does not, the second chunk is refused. */
  lemma DecodeSplit(a: seq<Byte>, b: seq<Byte>, start: Partial)
    requires start.remain >= 0 && Decode(a, start).Valid?
    ensures var d := Decode(a, start);
            d.partial.remain >= 0 &&
            if Resumes(b, d.partial.remain) then Decode(a + b, start) == Prepend(d.cps, Decode(b, d.partial))
            else Decode(b, d.partial).Invalid?
  {
    var d := Decode(a, start);
    if a == [] {
      assert a + b == b;
      if !Resumes(b, start.remain) {
        NotResumes(b, start.value, start.remain);
      }
    } else {
      ScanRemain(a, start.value, start.remain, start.remain > 0);
      if Resumes(b, d.partial.remain) {
        ScanSplit(a, b, start.value, start.remain, start.remain > 0);
        ScanResumes(b, d.partial.value, d.partial.remain, true);
        if b == [] {
          assert a + b == a;
        }
      } else {
        NotResumes(b, d.partial.value, d.partial.remain);
      }
    }
  }

  lemma {:induction false} NotResumes(bs: seq<Byte>, value: nat, remain: nat)
    requires !Resumes(bs, remain)
    ensures Scan(bs, value, remain, true).Invalid? && bs != [] && remain > 0
    decreases |bs|
  {
    if IsCont(bs[0]) {
      var i :| 0 <= i < |bs| && i < remain && !IsCont(bs[i]);
      assert bs[1..][i - 1] == bs[i];
      NotResumes(bs[1..], value * 64 + ContBits(bs[0]), remain - 1);
    }
  }

  // ----- encoding

  predicate Scalar(c: nat) {
    0 < c < 0x110000
  }

  /** The UTF-8 sequence of a code point: section 3 of RFC 3629. */
  function Encode(c: nat): seq<Byte>
    requires Scalar(c)
  {
    if c < 0x80 then [c]
    else if c < 0x800 then [0xC0 + c / 64, 0x80 + c % 64]
    else if c < 0x10000 then [0xE0 + c / 4096, 0x80 + c / 64 % 64, 0x80 + c % 64]
    else [0xF0 + c / 262144, 0x80 + c / 4096 % 64, 0x80 + c / 64 % 64, 0x80 + c % 64]
  }

  function EncodeAll(cs: Word): seq<Byte>
    requires forall i :: 0 <= i < |cs| ==> Scalar(cs[i])
  {
    if cs == [] then [] else Encode(cs[0]) + EncodeAll(cs[1..])
  }

  /** One byte of a sequence that has begun. */
  lemma ScanCont(b: Byte, rest: seq<Byte>, value: nat, remain: nat)
    requires remain > 0
    ensures var v := value * 64 + ContBits(b);
            Scan([b] + rest, value, remain, false) ==
            if remain == 1 then Prepend([v], Scan(rest, v, 0, false)) else Scan(rest, v, remain - 1, false)
  {
    assert ([b] + rest)[1..] == rest;
  }

  lemma ScanLead(b: Byte, rest: seq<Byte>, value: nat)
    requires Announced(b) > 0
    ensures var v := LeadBits(b);
            Scan([b] + rest, value, 0, false) ==
            if Announced(b) == 1 then Prepend([v], Scan(rest, v, 0, false)) else Scan(rest, v, Announced(b) - 1, false)
  {
    assert ([b] + rest)[1..] == rest;
  }

  /** The last bytes of a sequence, from the last one on. */
  lemma ScanLast(c: nat, rest: seq<Byte>)
    ensures Scan([0x80 + c % 64] + rest, c / 64, 1, false) == Prepend([c], Scan(rest, c, 0, false))
  {
    hide Scan;
    ScanCont(0x80 + c % 64, rest, c / 64, 1);
  }

  lemma ScanMiddle(c: nat, rest: seq<Byte>, remain: nat)
    requires remain > 1
    ensures Scan([0x80 + c % 64] + rest, c / 64, remain, false) == Scan(rest, c, remain - 1, false)
  {
    hide Scan;
    ScanCont(0x80 + c % 64, rest, c / 64, remain);
  }

  lemma ScanEncoded(c: nat, rest: seq<Byte>, value: nat)
    requires Scalar(c)
    ensures Scan(Encode(c) + rest, value, 0, false) == Prepend([c], Scan(rest, c, 0, false))
  {
    hide Scan;
    if c < 0x80 {
      ScanLead(c, rest, value);
    } else {
      var last := [0x80 + c % 64] + rest;
      ScanLast(c, rest);
      if c < 0x800 {
        assert Encode(c) + rest == [0xC0 + c / 64] + last;
        ScanLead(0xC0 + c / 64, last, value);
      } else {
        LongEncoded(c, rest, value);
      }
    }
  }

  lemma LongEncoded(c: nat, rest: seq<Byte>, value: nat)
    requires 0x800 <= c < 0x110000
    ensures Scan(Encode(c) + rest, value, 0, false) == Scan([0x80 + c % 64] + rest, c / 64, 1, false)
  {
    hide Scan;
    var last := [0x80 + c % 64] + rest;
    var more := [0x80 + c / 64 % 64] + last;
    ScanMiddle(c / 64, last, 2);
    assert c / 64 / 64 == c / 4096;
    if c < 0x10000 {
      assert Encode(c) + rest == [0xE0 + c / 4096] + more;
      ScanLead(0xE0 + c / 4096, more, value);
    } else {
      assert Encode(c) + rest == [0xF0 + c / 262144] + ([0x80 + c / 4096 % 64] + more);
      ScanLead(0xF0 + c / 262144, [0x80 + c / 4096 % 64] + more, value);
      ScanMiddle(c / 4096, more, 3);
      assert c / 4096 / 64 == c / 262144;
    }
  }

  /** Decoding gives back what was encoded. */
  lemma {:induction false} DecodeEncoded(cs: Word, value: nat)
    requires forall i :: 0 <= i < |cs| ==> Scalar(cs[i])
    ensures var d := Decode(EncodeAll(cs), Partial(value, 0));
            d.Valid? && d.cps == cs && d.partial.remain == 0
  {
    ScanAllEncoded(cs, value);
  }

  lemma {:induction false} ScanAllEncoded(cs: Word, value: nat)
    requires forall i :: 0 <= i < |cs| ==> Scalar(cs[i])
    ensures var d := Scan(EncodeAll(cs), value, 0, false); d.Valid? && d.cps == cs && d.partial.remain == 0
    decreases |cs|
  {
    if cs != [] {
      ScanEncoded(cs[0], EncodeAll(cs[1..]), value);
      ScanAllEncoded(cs[1..], cs[0]);
      assert [cs[0]] + cs[1..] == cs;
    }
  }

  // ----- tokens

  type Token = seq<Byte>

  /** Tokens such as timestamps are written `[_..` and do not reach the grammar. */
  predicate IsSpecial(t: Token) {
    |t| >= 2 && t[0] == '[' as int && t[1] == '_' as int
  }

  /** The state of `whisper_grammar`: the rules do not change, the rest does. */
  class Recogniser {
    const rules: Rules
    var stacks: seq<Stack>
    var partial: Partial

    ghost predicate Valid()
      reads this
    {
      WellFormed(rules) && NoLeftRecursion(rules) && AllWaiting(rules, stacks)
    }

    constructor (g: Rules, start: nat)
      requires WellFormed(g) && NoLeftRecursion(g) && start < |g|
      ensures Valid() && rules == g && partial == Partial(0, 0)
      ensures WellFormedRule(g[start]) && stacks == InitFrom(g, start, 0)
    {
      assert WellFormedRule(g[start]);
      rules := g;
      stacks := InitFrom(g, start, 0);
      partial := Partial(0, 0);
    }

    /** `whisper_grammar_accept` for all stacks. */
    method AcceptChar(chr: nat) returns (next: seq<Stack>)
      requires Valid()
      ensures next == Accept(rules, stacks, chr)
    {
      hide NoLeftRecursion, WellFormed, AcceptOne, Waiting;
      next := [];
      for i := 0 to |stacks|
        invariant AllWaiting(rules, stacks[i..])
        invariant next + Accept(rules, stacks[i..], chr) == Accept(rules, stacks, chr)
      {
        assert stacks[i..][1..] == stacks[i + 1..] && stacks[i..][0] == stacks[i];
        assert Waiting(rules, stacks[i]);
        next := next + AcceptOne(rules, stacks[i], chr);
      }
    }

    method AcceptToken(text: Token)
      requires Valid()
      modifies this
      ensures Valid()
      ensures (stacks, partial) == After(rules, old(stacks), old(partial), text)
      ensures [0x5B, 0x5F] <= text ==> stacks == old(stacks) && partial == old(partial)
      ensures rules != [] && old(stacks) != [] && !([0x5B, 0x5F] <= text) ==>
                match Decode(text, old(partial))
                case Invalid => stacks == old(stacks) && partial == Partial(0, -1)
                case Valid(cps, p) => stacks == Run(rules, old(stacks), cps) && partial == p
    {
      if |rules| == 0 || |stacks| == 0 || IsSpecial(text) {
        return;
      }
      var cps, p := DecodeUtf8(text, partial);
      var n := |cps| - 1;
      for i := 0 to n
        invariant Valid() && partial == old(partial)
        invariant Run(rules, stacks, cps[i..n]) == Run(rules, old(stacks), cps[..n])
      {
        assert cps[i..n][1..] == cps[i + 1..n] && cps[i..n][0] == cps[i];
        var next := AcceptChar(cps[i]);
        stacks := next;
      }
      partial := p;
    }
  }

  /** The stacks and the cut character after a token. */
  function After(g: Rules, sts: seq<Stack>, partial: Partial, t: Token): (r: (seq<Stack>, Partial))
    requires WellFormed(g) && NoLeftRecursion(g) && AllWaiting(g, sts)
    ensures AllWaiting(g, r.0)
  {
    if |g| == 0 || sts == [] || IsSpecial(t) then (sts, partial)
    else match Decode(t, partial)
      case Invalid => (sts, Partial(0, -1))
      case Valid(cps, p) => (Run(g, sts, cps), p)
  }

  function AfterAll(g: Rules, sts: seq<Stack>, partial: Partial, ts: seq<Token>): (r: (seq<Stack>, Partial))
    requires WellFormed(g) && NoLeftRecursion(g) && AllWaiting(g, sts)
    ensures AllWaiting(g, r.0)
    decreases |ts|
  {
    if ts == [] then (sts, partial)
    else var (s, p) := After(g, sts, partial, ts[0]); AfterAll(g, s, p, ts[1..])
  }

  function Text(ts: seq<Token>): seq<Byte> {
    if ts == [] then [] else ts[0] + Text(ts[1..])
  }

  /** Every first byte is one, and is followed by its continuation bytes as far as the text goes. */
  predicate WellCoded(bs: seq<Byte>, remain: nat)
    decreases |bs|
  {
    if bs == [] then true
    else if remain > 0 then IsCont(bs[0]) && WellCoded(bs[1..], remain - 1)
    else Announced(bs[0]) > 0 && WellCoded(bs[1..], Announced(bs[0]) - 1)
  }

  lemma {:induction false} WellCodedScans(a: seq<Byte>, b: seq<Byte>, value: nat, remain: nat, strict: bool)
    requires WellCoded(a + b, remain)
    ensures var d := Scan(a, value, remain, strict);
            d.Valid? && d.partial.remain >= 0 && WellCoded(b, d.partial.remain) && Resumes(b, d.partial.remain)
    decreases |a|
  {
    if a == [] {
      assert a + b == b;
      WellCodedResumes(b, remain);
    } else {
      assert (a + b)[1..] == a[1..] + b && (a + b)[0] == a[0];
      if remain > 0 {
        var v := value * 64 + ContBits(a[0]);
        WellCodedScans(a[1..], b, v, remain - 1, if remain == 1 then false else strict);
      } else {
        WellCodedScans(a[1..], b, LeadBits(a[0]), Announced(a[0]) - 1, false);
      }
    }
  }

  lemma {:induction false} WellCodedResumes(bs: seq<Byte>, remain: nat)
    requires WellCoded(bs, remain)
    ensures Resumes(bs, remain)
    decreases |bs|
  {
    if bs != [] && remain > 0 {
      WellCodedResumes(bs[1..], remain - 1);
      assert forall i :: 0 < i < |bs| ==> bs[i] == bs[1..][i - 1];
    }
  }

  lemma {:induction false} RunAppend(g: Rules, sts: seq<Stack>, a: Word, b: Word)
    requires WellFormed(g) && NoLeftRecursion(g) && AllWaiting(g, sts)
    ensures Run(g, sts, a + b) == Run(g, Run(g, sts, a), b)
    decreases |a|
  {
    if a == [] {
      assert a + b == b;
    } else {
      assert (a + b)[1..] == a[1..] + b;
      RunAppend(g, Accept(g, sts, a[0]), a[1..], b);
    }
  }

  /** However a well coded text is cut into tokens, the recogniser ends where reading the decoded
      text as a whole leads. */
  lemma {:induction false} TokensAreText(g: Rules, sts: seq<Stack>, partial: Partial, ts: seq<Token>)
    requires WellFormed(g) && NoLeftRecursion(g) && AllWaiting(g, sts) && |g| > 0
    requires partial.remain >= 0 && WellCoded(Text(ts), partial.remain)
    requires forall i :: 0 <= i < |ts| ==> !IsSpecial(ts[i])
    ensures Decode(Text(ts), partial).Valid?
    ensures AfterAll(g, sts, partial, ts).0 == Run(g, sts, Decode(Text(ts), partial).cps)
    decreases |ts|
  {
    if ts == [] {
    } else if sts == [] {
      assert Text(ts) + [] == Text(ts);
      DecodeWellCoded(Text(ts), [], partial);
      RunEmpty(g, Decode(Text(ts), partial).cps);
      StuckStays(g, partial, ts);
    } else {
      var t, rest := ts[0], Text(ts[1..]);
      DecodeWellCoded(t, rest, partial);
      var d := Decode(t, partial);
      RunAppend(g, sts, d.cps, Decode(rest, d.partial).cps);
      TokensAreText(g, Run(g, sts, d.cps), d.partial, ts[1..]);
    }
  }

  lemma DecodeWellCoded(a: seq<Byte>, b: seq<Byte>, start: Partial)
    requires start.remain >= 0 && WellCoded(a + b, start.remain)
    ensures var d := Decode(a, start);
            d.Valid? && d.partial.remain >= 0 && WellCoded(b, d.partial.remain) &&
            Decode(b, d.partial).Valid? && Decode(a + b, start) == Prepend(d.cps, Decode(b, d.partial))
  {
    WellCodedScans(a, b, start.value, start.remain, start.remain > 0);
    if a == [] {
      assert a + b == b;
      WellCodedResumes(b, start.remain);
    }
    var d := Decode(a, start);
    DecodeSplit(a, b, start);
    assert b + [] == b;
    WellCodedScans(b, [], d.partial.value, d.partial.remain, d.partial.remain > 0);
  }

  lemma {:induction false} StuckStays(g: Rules, partial: Partial, ts: seq<Token>)
    requires WellFormed(g) && NoLeftRecursion(g)
    ensures AfterAll(g, [], partial, ts).0 == []
    decreases |ts|
  {
    if ts != [] {
      StuckStays(g, partial, ts[1..]);
    }
  }

  /** The whole engine: after any tokens that spell a well coded text, the recogniser goes on with
      exactly the words that complete the text to a word of the start rule. */
  lemma TokensRecognised(g: Rules, start: nat, ts: seq<Token>, w: Word)
    requires WellFormed(g) && NoLeftRecursion(g) && start < |g|
    requires WellCoded(Text(ts), 0) && forall i :: 0 <= i < |ts| ==> !IsSpecial(ts[i])
    ensures WellFormedRule(g[start]) && Decode(Text(ts), Partial(0, 0)).Valid?
    ensures StacksLang(g, AfterAll(g, InitFrom(g, start, 0), Partial(0, 0), ts).0, w) <==>
            RuleLang(g, start, Decode(Text(ts), Partial(0, 0)).cps + w)
  {
    assert WellFormedRule(g[start]);
    TokensAreText(g, InitFrom(g, start, 0), Partial(0, 0), ts);
    RecogniserCorrect(g, start, Decode(Text(ts), Partial(0, 0)).cps, w);
  }

  // ----- the filter and the tokens

  /** The candidate that `suppress_invalid_grammar` makes of a token. */
  function Offer(id: int, t: Token, partial: Partial): (c: Candidate)
    ensures Terminated(c)
  {
    match Decode(t, partial)
    case Invalid => Candidate(id, [0], 0, Partial(0, -1))
    case Valid(cps, p) => Candidate(id, cps + [0], 0, p)
  }

  lemma {:induction false} UnreadAll(cps: Word, at: nat)
    requires at <= |cps| && forall i :: 0 <= i < |cps| ==> cps[i] != 0
    ensures Unread(cps + [0], at) == cps[at..]
    decreases |cps| - at
  {
    if at < |cps| {
      UnreadAll(cps, at + 1);
      assert cps[at..] == [cps[at]] + cps[at + 1..];
    }
  }

  /** A grammar and its stacks as the filter gets them. */
  ghost predicate Usable(g: Rules, sts: seq<Stack>) {
    WellFormed(g) && NoLeftRecursion(g) && AllWaiting(g, sts) && |g| > 0 && sts != []
  }

  /** The filter passes the token exactly when the recogniser survives accepting it. */
  ghost predicate Predicted(g: Rules, sts: seq<Stack>, partial: Partial, id: int, t: Token)
    requires Usable(g, sts)
  {
    Passes(g, sts, Offer(id, t, partial)) <==> var (s, p) := After(g, sts, partial, t); Alive(g, s, p)
  }

  /** The filter predicts the recogniser for every token whose text has no code point 0. */
  lemma FilterPredictsToken(g: Rules, sts: seq<Stack>, partial: Partial, id: int, t: Token)
    requires Usable(g, sts) && !IsSpecial(t)
    requires Decode(t, partial).Valid? ==> 0 !in Decode(t, partial).cps
    ensures Predicted(g, sts, partial, id, t)
  {
    match Decode(t, partial)
    case Invalid =>
      assert Unread([0], 0) == [];
    case Valid(cps, p) =>
      UnreadAll(cps, 0);
      assert cps[0..] == cps;
  }

  /** The class that a cut sequence may start but 0 is not in. */
  function Blocker(p: Partial): Elem {
    if p.remain >= 0 && Low(p) == 0 then Char(1) else CharNot(0)
  }

  /** The grammar with the one word `cs`, followed by one element. */
  function Spelling(cs: Word, last: Elem): Rules {
    [seq(|cs|, i requires 0 <= i < |cs| => Char(cs[i])) + [last, End]]
  }

  lemma SpellingFits(cs: Word, last: Elem)
    requires IsClassStart(last)
    ensures var g := Spelling(cs, last); forall i :: 0 <= i <= |cs| ==> Usable(g, [[Pos(0, i)]])
  {
    var g := Spelling(cs, last);
    forall i | 0 <= i < |g[0]|
      ensures Fits(g[0], i)
    {
    }
    assert WellFormedRule(g[0]);
    forall path
      ensures !(LeftPath(g, path) && |path| > 1)
    {
      if LeftPath(g, path) && |path| > 1 {
        var i: nat :| LeftPos(g, path[0], i) && g[path[0]][i] == RuleRef(path[0 + 1]);
        assert false;
      }
    }
  }

  /** Reading on along the word. */
  lemma SpellingStep(cs: Word, last: Elem, i: nat)
    requires IsClassStart(last) && i < |cs| && Usable(Spelling(cs, last), [[Pos(0, i)]])
    ensures Accept(Spelling(cs, last), [[Pos(0, i)]], cs[i]) == [[Pos(0, i + 1)]]
  {
    hide NoLeftRecursion, WellFormed;
    var g, st := Spelling(cs, last), [Pos(0, i)];
    assert Waiting(g, [st][0]);
    var es := From(g, Top(st));
    assert es[0] == Char(cs[i]) && !es[1].RngUpper? && !es[1].CharAlt?;
    assert ItemLen(es) == 1 && ClassLen(es) == 1 && ClassHas(es, cs[i]);
    assert Matched(g, st) == [Pos(0, i + 1)];
    assert AcceptOne(g, st, cs[i]) == [[Pos(0, i + 1)]];
    assert [st][1..] == [];
  }

  lemma {:induction false} SpellingRun(cs: Word, last: Elem, i: nat, rest: Word)
    requires IsClassStart(last) && i <= |cs| && Usable(Spelling(cs, last), [[Pos(0, i)]])
    requires Usable(Spelling(cs, last), [[Pos(0, |cs|)]])
    ensures Run(Spelling(cs, last), [[Pos(0, i)]], cs[i..] + rest) == Run(Spelling(cs, last), [[Pos(0, |cs|)]], rest)
    decreases |cs| - i
  {
    hide NoLeftRecursion, WellFormed, Accept, Spelling;
    if i == |cs| {
      assert cs[i..] + rest == rest;
    } else {
      SpellingFits(cs, last);
      SpellingStep(cs, last, i);
      var w := cs[i..] + rest;
      assert w[0] == cs[i] && w[1..] == cs[i + 1..] + rest;
      SpellingRun(cs, last, i + 1, rest);
    }
  }

  /** At the end of the word a 0 is not accepted. */
  lemma SpellingBlocks(cs: Word, p: Partial)
    requires Usable(Spelling(cs, Blocker(p)), [[Pos(0, |cs|)]])
    ensures var g, sts := Spelling(cs, Blocker(p)), [[Pos(0, |cs|)]];
            Accept(g, sts, 0) == [] && (!Dead(p) ==> Alive(g, sts, p))
  {
    hide NoLeftRecursion, WellFormed;
    var g, st := Spelling(cs, Blocker(p)), [Pos(0, |cs|)];
    assert Waiting(g, [st][0]);
    var es := From(g, Top(st));
    assert es == [Blocker(p), End];
    assert AcceptOne(g, st, 0) == [] && [st][1..] == [];
    if !Dead(p) {
      BlockerMatches(es, p);
      assert [st][0] == st;
    }
  }

  lemma BlockerMatches(es: seq<Elem>, p: Partial)
    requires es == [Blocker(p), End] && !Dead(p)
    ensures p.remain > 0 ==> MatchPartial(es, p)
  {
    if p.remain > 0 {
      var n := p.remain;
      assert Shift(n) == 64 * Shift(n - 1);
      ShiftPositive(n - 1);
      assert p.value >= 1 ==> p.value * Shift(n) >= Shift(n);
    }
  }

  lemma {:induction false} UnreadToZero(cps: Word, at: nat, k: nat)
    requires at <= k < |cps| && cps[k] == 0 && forall i :: at <= i < k ==> cps[i] != 0
    ensures Unread(cps + [0], at) == cps[at..k]
    decreases k - at
  {
    if at < k {
      UnreadToZero(cps, at + 1, k);
      assert cps[at..k] == [cps[at]] + cps[at + 1..k];
    }
  }

  lemma {:induction false} FirstZero(cps: Word, n: nat) returns (k: nat)
    requires n <= |cps| && 0 in cps[..n]
    ensures k < n && cps[k] == 0 && forall i :: 0 <= i < k ==> cps[i] != 0
  {
    if 0 in cps[..n - 1] {
      k := FirstZero(cps, n - 1);
    } else {
      k := n - 1;
      assert forall i :: 0 <= i < k ==> cps[i] == cps[..n - 1][i];
    }
  }

  /** A code point 0 hides the rest of its token from the filter: there is a grammar that passes the
      token and is stuck after it. */
  lemma ZeroMisleads(partial: Partial, id: int, t: Token) returns (g: Rules, sts: seq<Stack>)
    requires !IsSpecial(t) && Decode(t, partial).Valid? && 0 in Decode(t, partial).cps
    requires !Dead(Decode(t, partial).partial)
    ensures Usable(g, sts) && !Predicted(g, sts, partial, id, t)
  {
    hide NoLeftRecursion, WellFormed, Run, Accept, Spelling, Alive, Waiting;
    var cps, p := Decode(t, partial).cps, Decode(t, partial).partial;
    assert cps[..|cps|] == cps;
    var k := FirstZero(cps, |cps|);
    var cs := cps[..k];
    g, sts := Spelling(cs, Blocker(p)), [[Pos(0, 0)]];
    SpellingFits(cs, Blocker(p));
    SpellingBlocks(cs, p);
    UnreadToZero(cps, 0, k);
    SpellingRun(cs, Blocker(p), 0, []);
    assert cs[0..] + [] == cs && cps[0..k] == cs;
    SpellingRun(cs, Blocker(p), 0, cps[k..]);
    assert cs[0..] + cps[k..] == cps;
    RunZero(g, [[Pos(0, k)]], cps[k..], p);
  }

  lemma RunZero(g: Rules, sts: seq<Stack>, w: Word, p: Partial)
    requires Usable(g, sts) && w != [] && w[0] == 0 && Accept(g, sts, 0) == []
    ensures Run(g, sts, []) == sts && !Alive(g, Run(g, sts, w), p)
  {
    hide NoLeftRecursion, WellFormed;
    RunEmpty(g, w[1..]);
  }

  /** When the filter and the recogniser agree on a token, whatever the grammar. A special token is
      skipped when it is accepted, but judged by its text: they agree on it only where nothing is left
      alive after it. */
  predicate Predictable(partial: Partial, t: Token) {
    var d := Decode(t, partial);
    if !IsSpecial(t) then d.Invalid? || 0 !in d.cps || Dead(d.partial)
    else if partial.remain == 0 then false
    else if partial.remain > 0 then Dead(partial)
    else d.Invalid? || Dead(d.partial)
  }

  /** The filter predicts the recogniser for every grammar exactly in these cases. */
  lemma FilterPredictsIff(partial: Partial, id: int, t: Token)
    ensures (forall g, sts :: Usable(g, sts) ==> Predicted(g, sts, partial, id, t)) <==> Predictable(partial, t)
  {
    hide Usable, Predicted;
    if Predictable(partial, t) {
      forall g, sts | Usable(g, sts)
        ensures Predicted(g, sts, partial, id, t)
      {
        if IsSpecial(t) {
          SpecialPredicted(g, sts, partial, id, t);
        } else if Decode(t, partial).Valid? && Dead(Decode(t, partial).partial) {
          DeadPredicted(g, sts, partial, id, t);
        } else {
          FilterPredictsToken(g, sts, partial, id, t);
        }
      }
    } else if IsSpecial(t) {
      var g, sts := SpecialMisleads(partial, id, t);
    } else {
      var g, sts := ZeroMisleads(partial, id, t);
    }
  }

  /** The text of a special token does not go on with a character that was cut. */
  lemma SpecialText(partial: Partial, t: Token)
    requires IsSpecial(t)
    ensures partial.remain > 0 ==> Decode(t, partial).Invalid?
    ensures partial.remain <= 0 && Decode(t, partial).Valid? ==>
              var w := Unread(Decode(t, partial).cps + [0], 0); w != [] && w[0] == 0x5B
  {
    if partial.remain <= 0 && Decode(t, partial).Valid? {
      var d := Scan(t[1..], 0x5B, 0, false);
      assert Scan(t, partial.value, 0, false) == Prepend([0x5B], d);
      var text := [0x5B] + d.cps + [0];
      assert Unread(text, 0) == [0x5B] + Unread(text, 1);
    }
  }

  lemma SpecialPredicted(g: Rules, sts: seq<Stack>, partial: Partial, id: int, t: Token)
    requires Usable(g, sts) && IsSpecial(t) && Predictable(partial, t)
    ensures Predicted(g, sts, partial, id, t)
  {
    hide NoLeftRecursion, WellFormed, Run, Decode;
    SpecialText(partial, t);
  }

  /** For every other special token there is a grammar on which the filter is wrong. */
  lemma SpecialMisleads(partial: Partial, id: int, t: Token) returns (g: Rules, sts: seq<Stack>)
    requires IsSpecial(t) && !Predictable(partial, t)
    ensures Usable(g, sts) && !Predicted(g, sts, partial, id, t)
  {
    hide NoLeftRecursion, WellFormed, Run, Accept, Spelling, Alive, Waiting, Decode, Unread;
    SpecialText(partial, t);
    sts := [[Pos(0, 0)]];
    if partial.remain == 0 {
      g := Spelling([], Char(1));
      SpellingFits([], Char(1));
      AliveThere(g, partial);
      if Decode(t, partial).Valid? {
        var w := Unread(Decode(t, partial).cps + [0], 0);
        BracketStops(g, w, Decode(t, partial).partial);
      } else {
        NothingPasses(g, sts, partial, id, t);
      }
    } else if partial.remain > 0 {
      g := Spelling([], Blocker(partial));
      SpellingFits([], Blocker(partial));
      SpellingBlocks([], partial);
      NothingPasses(g, sts, partial, id, t);
    } else {
      var p := Decode(t, partial).partial;
      var w := Unread(Decode(t, partial).cps + [0], 0);
      g := Spelling(w, Blocker(p));
      SpellingFits(w, Blocker(p));
      SpellingRun(w, Blocker(p), 0, []);
      assert w[0..] + [] == w;
      SpellingBlocks(w, p);
      RunNone(g, [[Pos(0, |w|)]]);
      NotAlive(g, sts, partial);
    }
  }

  lemma RunNone(g: Rules, sts: seq<Stack>)
    requires Usable(g, sts)
    ensures Run(g, sts, []) == sts
  {
  }

  lemma NotAlive(g: Rules, sts: seq<Stack>, p: Partial)
    requires AllWaiting(g, sts) && p.remain < 0
    ensures !Alive(g, sts, p)
  {
  }

  lemma AliveThere(g: Rules, p: Partial)
    requires Usable(g, [[Pos(0, 0)]]) && p.remain == 0
    ensures Alive(g, [[Pos(0, 0)]], p)
  {
  }

  /** A text that is not UTF-8 passes nowhere. */
  lemma NothingPasses(g: Rules, sts: seq<Stack>, partial: Partial, id: int, t: Token)
    requires Usable(g, sts) && Decode(t, partial).Invalid?
    ensures !Passes(g, sts, Offer(id, t, partial))
  {
    hide NoLeftRecursion, WellFormed, Run;
  }

  /** A grammar that waits for U+0001 does not read a bracket. */
  lemma BracketStops(g: Rules, w: Word, p: Partial)
    requires g == Spelling([], Char(1)) && Usable(g, [[Pos(0, 0)]]) && w != [] && w[0] == 0x5B
    ensures !Alive(g, Run(g, [[Pos(0, 0)]], w), p)
  {
    hide NoLeftRecursion, WellFormed;
    var st := [Pos(0, 0)];
    assert Waiting(g, [st][0]);
    assert From(g, Top(st)) == [Char(1), End];
    assert AcceptOne(g, st, 0x5B) == [] && [st][1..] == [];
    assert Accept(g, [st], 0x5B) == [];
    RunEmpty(g, w[1..]);
  }

  lemma DeadPredicted(g: Rules, sts: seq<Stack>, partial: Partial, id: int, t: Token)
    requires Usable(g, sts) && !IsSpecial(t) && Decode(t, partial).Valid? && Dead(Decode(t, partial).partial)
    ensures Predicted(g, sts, partial, id, t)
  {
    hide NoLeftRecursion, WellFormed, Run;
  }
}
