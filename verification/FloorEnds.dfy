/** How the two end heights of a floor are read: `ilog`, and the number of bits. */
module FloorEnds {
  import opened Arith
  import opened HuffmanBits
  import opened Floor

  const LOG2_4 := [0, 1, 2, 2, 3, 3, 3, 3, 4, 4, 4, 4, 4, 4, 4, 4]

  function Log4(m: nat): nat
    requires m < 16
  {
    LOG2_4[m]
  }

  function Ilog(n: int): nat
    requires n < 0x8000_0000
  {
    if n < 0 then 0
    else if n < 0x4000 then
      if n < 16 then Log4(n) else if n < 512 then 5 + Log4(n / 32) else 10 + Log4(n / 1024)
    else if n < 0x100_0000 then
      if n < 0x8_0000 then 15 + Log4(n / 0x8000) else 20 + Log4(n / 0x10_0000)
    else if n < 0x2000_0000 then 25 + Log4(n / 0x200_0000)
    else 30 + Log4(n / 0x4000_0000)
  }

  /** The table gives the number of bits, from the highest that is set on. */
  lemma LogOfSmall(m: nat)
    requires m < 16
    ensures Log4(m) <= 4 && m < Pow2(Log4(m)) && (m > 0 ==> Log4(m) > 0 && Pow2(Log4(m) - 1) <= m)
  {
    assert Pow2(0) == 1 && Pow2(1) == 2 && Pow2(2) == 4 && Pow2(3) == 8 && Pow2(4) == 16;
  }

  /** The same for a number whose bits above the lowest `k` are `m`. */
  lemma LogShifted(n: nat, k: nat, m: nat)
    requires m * Pow2(k) <= n < (m + 1) * Pow2(k) && m < 16 && (m == 0 ==> k > 0 && Pow2(k - 1) <= n)
    ensures var l := k + Log4(m); l > 0 && Pow2(l - 1) <= n < Pow2(l)
  {
    LogOfSmall(m);
    hide Pow2, Log4;
    var l, p := Log4(m), Pow2(k);
    Pow2Add(k, l);
    MulMonotone(m + 1, Pow2(l), p);
    if m > 0 {
      Pow2Add(k, l - 1);
      MulMonotone(Pow2(l - 1), m, p);
    }
  }

  /** `Ilog` is the number of bits of a positive number. */
  lemma IlogBits(n: int)
    requires 0 < n < 0x8000_0000
    ensures Ilog(n) > 0 && Pow2(Ilog(n) - 1) <= n < Pow2(Ilog(n))
  {
    hide Pow2, Log4;
    Powers();
    if n < 16 {
      LogOfSmall(n);
    } else if n < 512 {
      LogShifted(n, 5, n / 32);
    } else if n < 0x4000 {
      LogShifted(n, 10, n / 1024);
    } else if n < 0x8_0000 {
      LogShifted(n, 15, n / 0x8000);
    } else if n < 0x100_0000 {
      LogShifted(n, 20, n / 0x10_0000);
    } else if n < 0x2000_0000 {
      LogShifted(n, 25, n / 0x200_0000);
    } else {
      LogShifted(n, 30, n / 0x4000_0000);
    }
  }

  lemma Powers()
    ensures Pow2(4) == 16 && Pow2(5) == 32 && Pow2(9) == 512 && Pow2(10) == 1024 && Pow2(14) == 0x4000
    ensures Pow2(15) == 0x8000 && Pow2(19) == 0x8_0000 && Pow2(20) == 0x10_0000 && Pow2(24) == 0x100_0000
    ensures Pow2(25) == 0x200_0000 && Pow2(29) == 0x2000_0000 && Pow2(30) == 0x4000_0000
  {
    assert Pow2(5) == 32;
    Pow2Add(5, 4);
    Pow2Add(5, 5);
    Pow2Add(10, 4);
    Pow2Add(10, 5);
    Pow2Add(15, 4);
    Pow2Add(15, 5);
    Pow2Add(20, 4);
    Pow2Add(20, 5);
    Pow2Add(25, 4);
    Pow2Add(25, 5);
  }

  /** How many bits of the packet each of the two end heights has. */
  function EndBits(mult: nat): nat
    requires 1 <= mult <= 4
  {
    Ilog(Range(mult)) - 1
  }

  /** The end heights are in range, and they have as many bits as section 7.2.3 of the Vorbis I
      specification says, `ilog(range - 1)`, unless the multiplier is 3. There it is one bit less, so that
      the heights from 64 to 85 cannot be given. */
  lemma EndsInRange(mult: nat)
    requires 1 <= mult <= 4
    ensures Pow2(EndBits(mult)) <= Range(mult)
    ensures Ilog(Range(mult) - 1) == (if mult == 3 then 7 else EndBits(mult))
    ensures Pow2(EndBits(mult)) == (if mult == 3 then 64 else Range(mult))
  {
    hide Pow2, Log4;
    Powers();
    Pow2Add(5, 1);
    Pow2Add(5, 2);
    Pow2Add(4, 4);
    Logs();
  }

  lemma Logs()
    ensures Log4(1) == 1 && Log4(2) == 2 && Log4(3) == 2 && Log4(4) == 3 && Log4(7) == 3 && Log4(8) == 4
    ensures Pow2(1) == 2 && Pow2(2) == 4 && Pow2(3) == 8
  {
  }
}
