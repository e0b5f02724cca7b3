/** Powers of two, masks, shifts and the reversal of bits, for left aligned codewords. */
module HuffmanBits {
  import opened Arith

  function Pow2(n: nat): (p: nat)
    ensures p > 0
  {
    if n == 0 then 1 else 2 * Pow2(n - 1)
  }

  lemma {:induction false} Pow2Add(a: nat, b: nat)
    ensures Pow2(a + b) == Pow2(a) * Pow2(b)
  {
    if a > 0 {
      Pow2Add(a - 1, b);
      assert Pow2(a) * Pow2(b) == 2 * (Pow2(a - 1) * Pow2(b));
    }
  }

  lemma {:induction false} Pow2Monotone(a: nat, b: nat)
    requires a <= b
    ensures Pow2(a) <= Pow2(b)
    ensures a < b ==> 2 * Pow2(a) <= Pow2(b)
  {
    if a < b {
      Pow2Monotone(a, b - 1);
    }
  }

  /** `x & ((1 << k) - 1)`. */
  function Low(k: nat, x: nat): (r: nat)
    ensures r < Pow2(k)
  {
    if k == 0 then 0 else x % 2 + 2 * Low(k - 1, x / 2)
  }

  /** `x >> n`. */
  function Shr(x: nat, n: nat): nat {
    if n == 0 then x else Shr(x / 2, n - 1)
  }

  /** The low `k` bits of `x` in reverse order. */
  function Rev(k: nat, x: nat): (r: nat)
    ensures r < Pow2(k)
  {
    if k == 0 then 0 else (if x % 2 == 1 then Pow2(k - 1) else 0) + Rev(k - 1, x / 2)
  }

  lemma {:induction false} LowOfSmall(k: nat, x: nat)
    requires x < Pow2(k)
    ensures Low(k, x) == x
  {
    if k > 0 {
      LowOfSmall(k - 1, x / 2);
    }
  }

  lemma {:induction false} LowHighest(k: nat, x: nat)
    ensures Low(k + 1, x) == Low(k, x) + if Shr(x, k) % 2 == 1 then Pow2(k) else 0
  {
    if k > 0 {
      LowHighest(k - 1, x / 2);
    }
  }

  lemma {:induction false} LowOfLow(j: nat, k: nat, x: nat)
    requires j <= k
    ensures Low(j, Low(k, x)) == Low(j, x)
  {
    if j > 0 {
      LowOfLow(j - 1, k - 1, x / 2);
    }
  }

  /** The reversal splits at any place. */
  lemma {:induction false} RevSplit(k: nat, len: nat, x: nat)
    requires len <= k
    ensures Rev(k, x) == Rev(len, x) * Pow2(k - len) + Rev(k - len, Shr(x, len))
    decreases len
  {
    if len > 0 {
      RevSplit(k - 1, len - 1, x / 2);
      Pow2Add(len - 1, k - len);
      hide Pow2;
      Distribute(if x % 2 == 1 then Pow2(len - 1) else 0, Rev(len - 1, x / 2), Pow2(k - len));
    }
  }

  /** Zeros at the low end vanish at the high end. */
  lemma {:induction false} RevAligned(k: nat, len: nat, c: nat)
    requires len <= k
    ensures Rev(k, c * Pow2(k - len)) == Rev(len, c)
    decreases k
  {
    if len < k {
      var half := c * Pow2(k - 1 - len);
      Associate(2, c, Pow2(k - 1 - len));
      Associate(c, 2, Pow2(k - 1 - len));
      assert c * Pow2(k - len) == 2 * half;
      hide Pow2;
      RevAligned(k - 1, len, c);
    }
  }

  /** Reversal moves the highest bit to the lowest place. */
  lemma {:induction false} RevHighest(k: nat, x: nat)
    ensures Rev(k + 1, x) == 2 * Rev(k, x) + Shr(x, k) % 2
  {
    if k > 0 {
      RevHighest(k - 1, x / 2);
    }
  }

  lemma {:induction false} RevRev(k: nat, x: nat)
    ensures Rev(k, Rev(k, x)) == Low(k, x)
  {
    if k > 0 {
      RevHighest(k - 1, x);
      RevRev(k - 1, x);
      LowHighest(k - 1, x);
      assert Rev(k, x) % 2 == Shr(x, k - 1) % 2 && Rev(k, x) / 2 == Rev(k - 1, x);
    }
  }

  lemma {:induction false} RevOfLow(k: nat, x: nat)
    ensures Rev(k, Low(k, x)) == Rev(k, x)
  {
    if k > 0 {
      RevOfLow(k - 1, x / 2);
    }
  }

  // ----- left aligned codewords

  /** `code` is the number `c` of `len` bits at the left end of a word of 32 bits. */
  predicate AlignedAs(code: nat, len: nat, c: nat)
    requires len <= 32
  {
    code == c * Pow2(32 - len) && c < Pow2(len)
  }

  ghost predicate Aligned(code: nat, len: nat)
    requires len <= 32
  {
    exists c: nat :: AlignedAs(code, len, c)
  }

  /** The word `v` starts with the `len` bits of the left aligned `code`. */
  predicate In(code: nat, len: nat, v: nat)
    requires len <= 32
  {
    code <= v < code + Pow2(32 - len)
  }

  lemma SameMultiple(a: int, c: int, d: int, rem: int)
    requires 0 <= rem < d && c * d <= a * d + rem < c * d + d
    ensures a == c
  {
    if a > c {
      MulMonotone(c + 1, a, d);
      Distribute(c, 1, d);
    } else if a < c {
      MulMonotone(a + 1, c, d);
      Distribute(a, 1, d);
    }
  }

  /** Comparing the low bits of the accumulator with the stored (reversed) codeword is asking
      whether the reversed accumulator lies in the interval of the left aligned codeword. */
  lemma MatchIffIn(acc: nat, code: nat, len: nat)
    requires len <= 32 && Aligned(code, len)
    ensures Low(len, acc) == Rev(32, code) <==> In(code, len, Rev(32, acc))
    ensures Rev(32, code) < Pow2(len)
  {
    hide Pow2, Low, Rev, Shr;
    var c: nat :| AlignedAs(code, len, c);
    var d := Pow2(32 - len);
    RevAligned(32, len, c);
    RevSplit(32, len, acc);
    var a, rem := Rev(len, acc), Rev(32 - len, Shr(acc, len));
    if In(code, len, Rev(32, acc)) {
      SameMultiple(a, c, d, rem);
    }
    RevRev(len, acc);
    RevOfLow(len, acc);
    RevRev(len, c);
    LowOfSmall(len, c);
  }

  /** Intervals of codewords are nested or disjoint. */
  lemma Nested(code: nat, len: nat, wide: nat, z: nat, v: nat)
    requires z <= len <= 32 && Aligned(code, len) && Aligned(wide, z)
    requires In(code, len, v) && In(wide, z, v)
    ensures wide <= code && code + Pow2(32 - len) <= wide + Pow2(32 - z)
  {
    hide Pow2;
    var j: nat :| AlignedAs(code, len, j);
    var i: nat :| AlignedAs(wide, z, i);
    var s, k := Pow2(32 - len), Pow2(len - z);
    Pow2Add(len - z, 32 - len);
    Associate(i, k, s);
    Distribute(i * k, k, s);
    Distribute(j, 1, s);
    MulCancel(i * k, j + 1, s);
    MulCancel(j, i * k + k, s);
    MulMonotone(i * k, j, s);
    MulMonotone(j + 1, i * k + k, s);
  }
}
