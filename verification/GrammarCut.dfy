/** Characters that are cut in two: which ones the filter takes the bytes read to be the start of. */
module GrammarCut {
  import opened GrammarRules
  import opened GrammarFilter
  import opened GrammarTokens

  /** How many values `n` missing bytes have. */
  function Room(n: nat): nat
    requires 1 <= n <= 3
  {
    match n case 1 => 64 case 2 => 4096 case _ => 262144
  }

  /** The first `k` bytes of the sequence of a character. */
  function Start(c: nat, k: nat): seq<Byte>
    requires Scalar(c) && k <= |Encode(c)|
  {
    Encode(c)[..k]
  }

  /** The first byte tells the length and has the highest bits. */
  lemma LeadOf(c: nat)
    requires Scalar(c) && c >= 0x80
    ensures var s := Encode(c); Announced(s[0]) == |s| && LeadBits(s[0]) == c / Room(|s| - 1)
  {
    hide LeadBits;
    LeadHas(if c < 0x800 then c / 64 else if c < 0x10000 then c / 4096 else c / 262144);
  }

  lemma LeadHas(x: nat)
    ensures x < 32 ==> LeadBits(0xC0 + x) == x
    ensures x < 16 ==> LeadBits(0xE0 + x) == x
    ensures x < 8 ==> LeadBits(0xF0 + x) == x
  {
  }

  lemma Shorter(c: nat)
    ensures c / 4096 == c / 64 / 64 && c / 262144 == c / 4096 / 64
  {
  }

  /** Reading the first bytes of a character leaves its high bits. */
  lemma StartDecoded(c: nat, k: nat, value: nat)
    requires Scalar(c) && 0 < k < |Encode(c)|
    ensures var n := |Encode(c)| - k;
            Decode(Start(c, k), Partial(value, 0)) == Valid([], Partial(c / Room(n), n))
  {
    hide LeadBits, ContBits, Announced, Scan;
    var s, n := Encode(c), |Encode(c)| - k;
    LeadOf(c);
    Shorter(c);
    ScanNone(c / Room(n), n);
    if k == 1 {
      assert Start(c, k) == [s[0]] + [];
      ScanLead(s[0], [], value);
    } else if k == 2 {
      assert Start(c, k) == [s[0]] + ([s[1]] + []);
      ScanLead(s[0], [s[1]] + [], value);
      ScanMiddle(c / Room(n), [], |s| - 1);
    } else {
      assert Start(c, k) == [s[0]] + ([s[1]] + ([s[2]] + []));
      ScanLead(s[0], [s[1]] + ([s[2]] + []), value);
      ScanMiddle(c / 4096, [s[2]] + [], 3);
      ScanMiddle(c / 64, [], 2);
    }
  }

  lemma ScanNone(value: nat, remain: nat)
    ensures Scan([], value, remain, false) == Valid([], Partial(value, remain))
  {
  }

  /** Two characters start with the same bytes exactly when their high bits agree. */
  lemma SameStart(c: nat, d: nat, k: nat)
    requires Scalar(c) && Scalar(d) && 0 < k < |Encode(d)|
    ensures Start(d, k) <= Encode(c) <==>
            |Encode(c)| == |Encode(d)| && var n := |Encode(d)| - k; c / Room(n) == d / Room(n)
  {
    var s, t, p := Encode(c), Encode(d), Start(d, k);
    assert s[0] == t[0] ==> |s| == |t| by {
      LengthOf(c);
      LengthOf(d);
    }
    assert p[0] == t[0] && (k > 1 ==> p[1] == t[1]) && (k > 2 ==> p[2] == t[2]);
    if |s| == |t| {
      assert p <= s <==> s[0] == t[0] && (k > 1 ==> s[1] == t[1]) && (k > 2 ==> s[2] == t[2]);
      SameBytes(c, d, k);
    }
  }

  lemma LengthOf(c: nat)
    requires Scalar(c)
    ensures Announced(Encode(c)[0]) == |Encode(c)|
  {
  }

  lemma SameBytes(c: nat, d: nat, k: nat)
    requires Scalar(c) && Scalar(d) && 0 < k < |Encode(d)| == |Encode(c)|
    ensures var s, t, n := Encode(c), Encode(d), |Encode(d)| - k;
            s[0] == t[0] && (k > 1 ==> s[1] == t[1]) && (k > 2 ==> s[2] == t[2]) <==> c / Room(n) == d / Room(n)
  {
    Shorter(c);
    Shorter(d);
    if c >= 0x800 {
      Digits(c / 64, d / 64);
      if c >= 0x10000 {
        Digits(c / 4096, d / 4096);
      }
    }
  }

  lemma Digits(x: nat, y: nat)
    ensures x / 64 == y / 64 && x % 64 == y % 64 <==> x == y
  {
  }

  /** The interval of a cut character holds exactly the characters that start with the bytes read. */
  lemma CompletionsAre(d: nat, k: nat, c: nat)
    requires Scalar(d) && Scalar(c) && 0 < k < |Encode(d)|
    ensures var r := Decode(Start(d, k), Partial(0, 0));
            && r.Valid? && r.cps == [] && r.partial.remain == |Encode(d)| - k && !Dead(r.partial)
            && (Low(r.partial) <= c <= High(r.partial) <==> Start(d, k) <= Encode(c))
  {
    hide Decode, Encode, Start;
    StartDecoded(d, k, 0);
    SameStart(c, d, k);
    Interval(c, d, |Encode(d)| - k);
  }

  lemma Interval(c: nat, d: nat, n: nat)
    requires Scalar(d) && Scalar(c) && 0 < n < |Encode(d)|
    ensures var p := Partial(d / Room(n), n);
            !Dead(p) && (Low(p) <= c <= High(p) <==> |Encode(c)| == |Encode(d)| && c / Room(n) == d / Room(n))
  {
    hide Low, High, Shift;
    LowHigh(d / Room(n), n);
    if n == 1 {
      assert c / 64 == d / 64 <==> d / 64 * 64 <= c <= d / 64 * 64 + 63;
    } else if n == 2 {
      assert c / 4096 == d / 4096 <==> d / 4096 * 4096 <= c <= d / 4096 * 4096 + 4095;
    } else {
      assert c / 262144 == d / 262144 <==> d / 262144 * 262144 <= c <= d / 262144 * 262144 + 262143;
    }
  }

  lemma LowHigh(value: nat, n: nat)
    requires 1 <= n <= 3
    ensures var p, low := Partial(value, n), value * Room(n);
            && High(p) == low + Room(n) - 1
            && Low(p) == if low != 0 then low else if n == 1 then 0 else if n == 2 then 0x800 else 0x10000
  {
    ShiftIs();
  }

  lemma ShiftIs()
    ensures Shift(1) == 64 && Shift(2) == 4096 && Shift(3) == 262144
  {
    assert Shift(0) == 1;
  }

  /** No character starts with 0xC0 or 0xC1, nor with 0xE0 and then 0x80 or 0x81: no class takes them. */
  lemma StartsNone(es: seq<Elem>, b: Byte)
    requires |es| > 0 && IsClassStart(es[0])
    ensures b < 2 ==> var d := Decode([0xC0 + b], Partial(0, 0)); d.Valid? && !MatchPartial(es, d.partial)
    ensures b < 2 ==> var d := Decode([0xE0, 0x80 + b], Partial(0, 0)); d.Valid? && !MatchPartial(es, d.partial)
    ensures !MatchPartial(es, Partial(0, -1))
  {
    if b < 2 {
      ScanLead(0xC0 + b, [], 0);
      ScanLead(0xE0, [0x80 + b], 0);
      ScanCont(0x80 + b, [], 0, 2);
      assert [0xE0, 0x80 + b] == [0xE0] + ([0x80 + b] + []);
      assert [0xC0 + b] == [0xC0 + b] + [];
    }
  }
}
