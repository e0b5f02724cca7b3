/** The construction of codewords from codeword lengths: section 3.2.1 of the Vorbis I
    specification, with a table of at most one free leaf per level. */
module HuffmanCode {
  import opened Arith
  import opened HuffmanBits

  const NO_CODE: nat := 255

  predicate IsUsed(len: nat) {
    len != NO_CODE
  }

  predicate LensOk(lens: seq<nat>) {
    forall i :: 0 <= i < |lens| ==> lens[i] == NO_CODE || 1 <= lens[i] <= 31
  }

  // ----- what is used and what is free

  /** How many of the given codewords the word `v` starts with. */
  ghost function Hits(lens: seq<nat>, code: seq<nat>, v: nat): nat
    requires LensOk(lens) && |code| <= |lens|
  {
    if code == [] then 0
    else
      var e := |code| - 1;
      Hits(lens, code[..e], v) + if IsUsed(lens[e]) && In(code[e], lens[e], v) then 1 else 0
  }

  /** How many of the free leaves at levels 1 to `n` contain `v`; 0 marks a level without one. */
  ghost function FreeHits(avail: seq<nat>, v: nat, n: nat): nat
    requires n < |avail| == 32
  {
    if n == 0 then 0
    else FreeHits(avail, v, n - 1) + if avail[n] != 0 && In(avail[n], n, v) then 1 else 0
  }

  /** The sum of 2^-len over the used entries before `n`, in units of 2^-32. */
  function Kraft(lens: seq<nat>, n: nat): nat
    requires LensOk(lens) && n <= |lens|
  {
    if n == 0 then 0 else Kraft(lens, n - 1) + if IsUsed(lens[n - 1]) then Pow2(32 - lens[n - 1]) else 0
  }

  ghost function FreeMass(avail: seq<nat>, n: nat): nat
    requires n < |avail| == 32
  {
    if n == 0 then 0 else FreeMass(avail, n - 1) + if avail[n] != 0 then Pow2(32 - n) else 0
  }

  ghost predicate Leaves(avail: seq<nat>) {
    && |avail| == 32 && avail[0] == 0
    && (forall z :: 0 < z < 32 && avail[z] != 0 ==> Aligned(avail[z], z))
    && (forall z, y :: 0 < z < y < 32 && avail[z] != 0 && avail[y] != 0 ==> avail[y] + Pow2(32 - y) <= avail[z])
  }

  /** Used codewords and free leaves partition the words, and deeper free leaves are lower. */
  ghost predicate Tiled(lens: seq<nat>, code: seq<nat>, avail: seq<nat>) {
    && LensOk(lens) && |code| <= |lens| && Leaves(avail)
    && (forall v: nat :: v < Pow2(32) ==> Hits(lens, code, v) + FreeHits(avail, v, 31) == 1)
    && Kraft(lens, |code|) + FreeMass(avail, 31) == Pow2(32)
  }

  /** No word of the codeword `y` of length `len` is taken. */
  ghost predicate Untaken(lens: seq<nat>, code: seq<nat>, y: nat, len: nat)
    requires LensOk(lens) && |code| <= |lens| && len <= 32
  {
    forall v: nat :: In(y, len, v) ==> Hits(lens, code, v) == 0
  }

  /** The lowest untaken codeword of its length. */
  ghost predicate Lowest(lens: seq<nat>, code: seq<nat>, y: nat, len: nat)
    requires LensOk(lens) && |code| <= |lens| && len <= 32
  {
    && Aligned(y, len) && Untaken(lens, code, y, len)
    && forall x: nat :: Aligned(x, len) && Untaken(lens, code, x, len) ==> y <= x
  }

  /** Every used entry, in order, has the lowest codeword of its length that the entries before it
      have left: the rule of the specification. */
  ghost predicate Assigned(lens: seq<nat>, code: seq<nat>) {
    && LensOk(lens) && |code| <= |lens|
    && forall i :: 0 <= i < |code| && IsUsed(lens[i]) ==> Lowest(lens, code[..i], code[i], lens[i])
  }

  // ----- splitting a free leaf

  /** `next` is the table after the leaf `res` at level `z` has been split for a codeword of
      length `len`; level 0 stands for the whole tree. */
  ghost predicate IsSplit(avail: seq<nat>, next: seq<nat>, res: nat, z: nat, len: nat) {
    && |avail| == |next| == 32 && z <= len <= 31
    && (z > 0 ==> avail[z] == res && res > 0)
    && (forall y :: z < y <= len ==> avail[y] == 0)
    && next[z] == 0
    && (forall y :: z < y <= len ==> next[y] == res + Pow2(32 - y))
    && (forall y :: 0 <= y < z || len < y < 32 ==> next[y] == avail[y])
  }

  /** How many of the new leaves at levels above `z` up to `n` contain `v`. */
  ghost function SplitHits(res: nat, z: nat, n: nat, v: nat): nat
    requires z <= n <= 31
  {
    if n == z then 0 else SplitHits(res, z, n - 1, v) + if In(res + Pow2(32 - n), n, v) then 1 else 0
  }

  ghost function SplitMass(z: nat, n: nat): nat
    requires z <= n <= 31
  {
    if n == z then 0 else SplitMass(z, n - 1) + Pow2(32 - n)
  }

  /** The codeword and the new leaves partition the leaf that is split. */
  lemma {:induction false} SplitTiles(res: nat, z: nat, n: nat, v: nat)
    requires z <= n <= 31
    ensures SplitHits(res, z, n, v) + (if In(res, n, v) then 1 else 0) == if In(res, z, v) then 1 else 0
    ensures SplitMass(z, n) + Pow2(32 - n) == Pow2(32 - z)
  {
    if n > z {
      SplitTiles(res, z, n - 1, v);
      assert Pow2(32 - (n - 1)) == 2 * Pow2(32 - n);
    }
  }

  lemma {:induction false} SplitFreeHits(avail: seq<nat>, next: seq<nat>, res: nat, z: nat, len: nat, n: nat, v: nat)
    requires IsSplit(avail, next, res, z, len) && n <= 31
    ensures n < z ==> FreeHits(next, v, n) == FreeHits(avail, v, n)
    ensures n >= z ==>
              FreeHits(next, v, n) + (if z > 0 && In(res, z, v) then 1 else 0) ==
              FreeHits(avail, v, n) + SplitHits(res, z, if n < len then n else len, v)
    decreases n
  {
    hide Pow2, In;
    if n > 0 {
      SplitFreeHits(avail, next, res, z, len, n - 1, v);
    }
  }

  lemma {:induction false} SplitFreeMass(avail: seq<nat>, next: seq<nat>, res: nat, z: nat, len: nat, n: nat)
    requires IsSplit(avail, next, res, z, len) && n <= 31
    ensures n < z ==> FreeMass(next, n) == FreeMass(avail, n)
    ensures n >= z ==>
              FreeMass(next, n) + (if z > 0 then Pow2(32 - z) else 0) ==
              FreeMass(avail, n) + SplitMass(z, if n < len then n else len)
    decreases n
  {
    hide Pow2;
    if n > 0 {
      SplitFreeMass(avail, next, res, z, len, n - 1);
    }
  }

  lemma AlignedDeeper(res: nat, z: nat, len: nat)
    requires z <= len <= 32 && Aligned(res, z)
    ensures Aligned(res, len)
    ensures z < len ==> Aligned(res + Pow2(32 - len), len)
  {
    hide Pow2;
    var c: nat :| AlignedAs(res, z, c);
    var k := Pow2(len - z);
    Pow2Add(len - z, 32 - len);
    Pow2Add(z, len - z);
    Associate(c, k, Pow2(32 - len));
    Distribute(c * k, 1, Pow2(32 - len));
    MulMonotone(c + 1, Pow2(z), k);
    Distribute(c, 1, k);
    assert AlignedAs(res, len, c * k);
    if z < len {
      Pow2Monotone(0, len - z);
      assert Pow2(0) == 1 by {
        PowZero();
      }
      assert AlignedAs(res + Pow2(32 - len), len, c * k + 1);
    }
  }

  lemma PowZero()
    ensures Pow2(0) == 1
  {
  }

  lemma SplitLeaves(avail: seq<nat>, next: seq<nat>, res: nat, z: nat, len: nat)
    requires Leaves(avail) && IsSplit(avail, next, res, z, len) && Aligned(res, z)
    requires z == 0 ==> forall y :: 0 <= y < 32 ==> avail[y] == 0
    ensures Leaves(next)
  {
    hide Pow2;
    forall y | 0 < y < 32 && next[y] != 0
      ensures Aligned(next[y], y)
    {
      if z < y <= len {
        AlignedDeeper(res, z, y);
      }
    }
    forall w, y | 0 < w < y < 32 && next[w] != 0 && next[y] != 0
      ensures next[y] + Pow2(32 - y) <= next[w]
    {
      if z < y <= len {
        if w < z {
          Pow2Monotone(32 - y, 32 - z);
          assert avail[z] + Pow2(32 - z) <= avail[w];
        } else {
          Pow2Monotone(32 - y, 32 - w);
        }
      } else if z < w <= len {
        assert avail[y] + Pow2(32 - y) <= avail[z];
      }
    }
  }

  /** Giving the deepest sufficient leaf to the next entry keeps the partition. */
  lemma AllocateTiles(lens: seq<nat>, code: seq<nat>, avail: seq<nat>, next: seq<nat>, z: nat)
    requires Tiled(lens, code, avail) && |code| < |lens| && IsUsed(lens[|code|]) && 0 < z <= lens[|code|]
    requires IsSplit(avail, next, avail[z], z, lens[|code|])
    ensures Tiled(lens, code + [avail[z]], next)
  {
    hide Pow2, In, Aligned;
    var i := |code|;
    var len, res := lens[i], avail[z];
    var code1 := code + [res];
    assert code1[..i] == code;
    SplitLeaves(avail, next, res, z, len);
    forall v: nat | v < Pow2(32)
      ensures Hits(lens, code1, v) + FreeHits(next, v, 31) == 1
    {
      SplitFreeHits(avail, next, res, z, len, 31, v);
      SplitTiles(res, z, len, v);
      assert Hits(lens, code, v) + FreeHits(avail, v, 31) == 1;
    }
    SplitFreeMass(avail, next, res, z, len, 31);
    SplitTiles(res, z, len, 0);
  }

  /** The first used entry gets the codeword 0. */
  lemma FirstTiles(lens: seq<nat>, code: seq<nat>, avail: seq<nat>, next: seq<nat>)
    requires LensOk(lens) && |code| < |lens| && IsUsed(lens[|code|])
    requires forall e :: 0 <= e < |code| ==> !IsUsed(lens[e])
    requires |avail| == 32 && (forall y :: 0 <= y < 32 ==> avail[y] == 0) && IsSplit(avail, next, 0, 0, lens[|code|])
    ensures Tiled(lens, code + [0], next) && Lowest(lens, code, 0, lens[|code|])
  {
    hide Pow2, Aligned;
    var i := |code|;
    var len := lens[i];
    var code1 := code + [0];
    assert code1[..i] == code;
    ZeroAligned(0);
    ZeroAligned(len);
    SplitLeaves(avail, next, 0, 0, len);
    NoCodes(lens, code);
    forall v: nat | v < Pow2(32)
      ensures Hits(lens, code1, v) + FreeHits(next, v, 31) == 1
    {
      SplitFreeHits(avail, next, 0, 0, len, 31, v);
      NoFree(avail, v, 31);
      SplitTiles(0, 0, len, v);
    }
    SplitFreeMass(avail, next, 0, 0, len, 31);
    NoMass(avail, 31);
    SplitTiles(0, 0, len, 0);
  }

  lemma ZeroAligned(len: nat)
    requires len <= 32
    ensures Aligned(0, len)
  {
    assert AlignedAs(0, len, 0);
  }

  lemma {:induction false} NoCodes(lens: seq<nat>, code: seq<nat>)
    requires LensOk(lens) && |code| <= |lens| && forall e :: 0 <= e < |code| ==> !IsUsed(lens[e])
    ensures Kraft(lens, |code|) == 0 && forall v: nat :: Hits(lens, code, v) == 0
    decreases |code|
  {
    if code != [] {
      NoCodes(lens, code[..|code| - 1]);
    }
  }

  lemma {:induction false} NoFree(avail: seq<nat>, v: nat, n: nat)
    requires n < |avail| == 32 && forall z :: 0 < z <= n ==> avail[z] == 0
    ensures FreeHits(avail, v, n) == 0
  {
    if n > 0 {
      NoFree(avail, v, n - 1);
    }
  }

  // ----- the lowest codeword

  lemma {:induction false} FreeWitness(avail: seq<nat>, v: nat, n: nat) returns (z: nat)
    requires n < |avail| == 32 && FreeHits(avail, v, n) > 0
    ensures 0 < z <= n && avail[z] != 0 && In(avail[z], z, v)
  {
    if avail[n] != 0 && In(avail[n], n, v) {
      z := n;
    } else {
      z := FreeWitness(avail, v, n - 1);
    }
  }

  /** Leaves of different depths, all deeper than `d`, are too small to fill an interval as long as
      a leaf of depth `d`. */
  lemma {:induction false} DeeperTooSmall(avail: seq<nat>, y: nat, t: nat, d: nat)
    requires Leaves(avail) && d <= 31 && y + Pow2(32 - d) <= t
    requires forall v: nat :: y <= v < t ==> FreeHits(avail, v, 31) > 0
    requires forall z, v: nat :: 0 < z < 32 && avail[z] != 0 && y <= v < t && In(avail[z], z, v) ==>
               z > d && avail[z] + Pow2(32 - z) <= t
    ensures false
    decreases 31 - d
  {
    hide Pow2;
    assert FreeHits(avail, t - 1, 31) > 0;
    var z := FreeWitness(avail, t - 1, 31);
    var t1 := avail[z];
    Pow2Monotone(32 - z, 32 - d);
    forall w, v: nat | 0 < w < 32 && avail[w] != 0 && y <= v < t1 && In(avail[w], w, v)
      ensures w > z && avail[w] + Pow2(32 - w) <= t1
    {
    }
    DeeperTooSmall(avail, y, t1, z);
  }

  /** A free codeword of length `len` lies in a free leaf of at most that depth. */
  lemma LeafBelow(avail: seq<nat>, y: nat, len: nat) returns (z: nat)
    requires Leaves(avail) && 1 <= len <= 31 && Aligned(y, len)
    requires forall v: nat :: In(y, len, v) ==> FreeHits(avail, v, 31) > 0
    ensures 0 < z <= len && avail[z] != 0 && avail[z] <= y
  {
    hide Pow2;
    var t := y + Pow2(32 - len);
    z := len;
    if w: nat, v: nat :| 0 < w <= len && avail[w] != 0 && In(avail[w], w, v) && In(y, len, v) {
      Nested(y, len, avail[w], w, v);
      z := w;
    } else {
      forall w, v: nat | 0 < w < 32 && avail[w] != 0 && y <= v < t && In(avail[w], w, v)
        ensures w > len && avail[w] + Pow2(32 - w) <= t
      {
        assert In(y, len, v);
        assert w > len;
        Nested(avail[w], w, y, len, v);
      }
      DeeperTooSmall(avail, y, t, len);
    }
  }

  /** The deepest sufficient leaf is the lowest untaken codeword: the property that the source
      leaves unproved. */
  lemma DeepestIsLowest(lens: seq<nat>, code: seq<nat>, avail: seq<nat>, z: nat, len: nat)
    requires Tiled(lens, code, avail) && 0 < z <= len <= 31 && avail[z] != 0
    requires forall y :: z < y <= len ==> avail[y] == 0
    ensures Lowest(lens, code, avail[z], len)
  {
    hide Pow2, Kraft, FreeMass;
    var res := avail[z];
    AlignedDeeper(res, z, len);
    Pow2Monotone(32 - len, 32 - z);
    forall v: nat | In(res, len, v)
      ensures Hits(lens, code, v) == 0
    {
      AlignedBound(res, z);
      LeafCounts(avail, v, z, 31);
      assert Hits(lens, code, v) + FreeHits(avail, v, 31) == 1;
    }
    forall x: nat | Aligned(x, len) && Untaken(lens, code, x, len)
      ensures res <= x
    {
      AlignedBound(x, len);
      forall v: nat | In(x, len, v)
        ensures FreeHits(avail, v, 31) > 0
      {
        assert Hits(lens, code, v) + FreeHits(avail, v, 31) == 1;
      }
      var w := LeafBelow(avail, x, len);
      assert w < z ==> avail[z] + Pow2(32 - z) <= avail[w];
    }
  }

  lemma AlignedBound(code: nat, len: nat)
    requires len <= 32 && Aligned(code, len)
    ensures code + Pow2(32 - len) <= Pow2(32)
  {
    hide Pow2;
    var c: nat :| AlignedAs(code, len, c);
    Pow2Add(len, 32 - len);
    MulMonotone(c + 1, Pow2(len), Pow2(32 - len));
    Distribute(c, 1, Pow2(32 - len));
  }

  lemma {:induction false} LeafCounts(avail: seq<nat>, v: nat, z: nat, n: nat)
    requires 0 < z <= n < |avail| == 32 && avail[z] != 0 && In(avail[z], z, v)
    ensures FreeHits(avail, v, n) > 0
  {
    if z < n {
      LeafCounts(avail, v, z, n - 1);
    }
  }

  // ----- failure

  lemma {:induction false} FreeMassBound(avail: seq<nat>, len: nat, n: nat)
    requires len <= n < |avail| == 32 && forall z :: 0 < z <= len ==> avail[z] == 0
    ensures FreeMass(avail, n) + Pow2(32 - n) <= Pow2(32 - len)
    decreases n
  {
    if n > len {
      FreeMassBound(avail, len, n - 1);
      assert Pow2(32 - (n - 1)) == 2 * Pow2(32 - n);
    } else {
      NoMass(avail, n);
    }
  }

  lemma {:induction false} NoMass(avail: seq<nat>, n: nat)
    requires n < |avail| == 32 && forall z :: 0 < z <= n ==> avail[z] == 0
    ensures FreeMass(avail, n) == 0
  {
    if n > 0 {
      NoMass(avail, n - 1);
    }
  }

  lemma {:induction false} KraftMonotone(lens: seq<nat>, m: nat, n: nat)
    requires LensOk(lens) && m <= n <= |lens|
    ensures Kraft(lens, m) <= Kraft(lens, n)
    decreases n
  {
    if m < n {
      KraftMonotone(lens, m, n - 1);
    }
  }

  /** Without a sufficient leaf the lengths are overspecified. */
  lemma NoLeafOverfull(lens: seq<nat>, code: seq<nat>, avail: seq<nat>)
    requires Tiled(lens, code, avail) && |code| < |lens| && IsUsed(lens[|code|])
    requires forall z :: 0 < z <= lens[|code|] ==> avail[z] == 0
    ensures Kraft(lens, |lens|) > Pow2(32)
  {
    hide Pow2, Hits, FreeHits, FreeMass;
    var i := |code|;
    FreeMassBound(avail, lens[i], 31);
    PowPositive(32 - 31);
    KraftMonotone(lens, i + 1, |lens|);
  }

  // ----- the construction

  function UsedCount(lens: seq<nat>, n: nat): (c: nat)
    requires n <= |lens|
    ensures c <= n
  {
    if n == 0 then 0 else UsedCount(lens, n - 1) + if IsUsed(lens[n - 1]) then 1 else 0
  }

  /** Where the tables keep an entry: under its symbol, or in a sparse book under the number of
      used entries before it. */
  function Slot(lens: seq<nat>, sparse: bool, i: nat): nat
    requires i <= |lens|
  {
    if sparse then UsedCount(lens, i) else i
  }

  class Codebook {
    const sparse: bool
    const codewords: array<nat>
    const lengths: array<nat>
    const values: array<nat>

    constructor (lens: seq<nat>, sparse: bool)
      ensures this.sparse == sparse && Room(lens)
      ensures fresh(codewords) && fresh(lengths) && fresh(values)
    {
      this.sparse := sparse;
      var n := Slot(lens, sparse, |lens|);
      codewords, lengths, values := new nat[n], new nat[n], new nat[n];
    }

    ghost predicate Room(lens: seq<nat>) {
      && codewords.Length == lengths.Length == values.Length == Slot(lens, sparse, |lens|)
      && codewords != lengths && lengths != values && values != codewords
    }

    /** The tables hold the reversed codewords of the entries before `n`. */
    ghost predicate Holds(lens: seq<nat>, code: seq<nat>, n: nat)
      requires n <= |code| <= |lens|
      reads codewords, lengths, values
    {
      forall i :: 0 <= i < n && IsUsed(lens[i]) ==>
        var s := Slot(lens, sparse, i);
        s < codewords.Length && s < lengths.Length && s < values.Length && codewords[s] == Rev(32, code[i]) &&
        (sparse ==> lengths[s] == lens[i] && values[s] == i)
    }

    method AddEntry(huffCode: nat, symbol: nat, count: nat, len: nat)
      requires codewords != lengths && lengths != values && values != codewords
      requires codewords.Length == lengths.Length == values.Length
      requires (if sparse then count else symbol) < codewords.Length
      modifies codewords, lengths, values
      ensures var s := if sparse then count else symbol;
              codewords[s] == huffCode && (sparse ==> lengths[s] == len && values[s] == symbol) &&
              forall t :: 0 <= t < codewords.Length && t != s ==>
                codewords[t] == old(codewords[t]) && lengths[t] == old(lengths[t]) && values[t] == old(values[t])
    {
      if !sparse {
        codewords[symbol] := huffCode;
      } else {
        codewords[count] := huffCode;
        lengths[count] := len;
        values[count] := symbol;
      }
    }

    /** Store the codeword of entry `i`, the `m`-th used one. */
    method Store(lens: seq<nat>, ghost code: seq<nat>, i: nat, m: nat, res: nat)
      requires Room(lens) && i < |lens| && |code| == i && IsUsed(lens[i]) && m == UsedCount(lens, i)
      requires Holds(lens, code, i)
      modifies codewords, lengths, values
      ensures Holds(lens, code + [res], i + 1)
    {
      SlotBound(lens, sparse, i);
      SlotsDistinct(lens, sparse, i);
      AddEntry(Rev(32, res), i, m, lens[i]);
    }

    /** Whether the entries before `i` are placed: the state between two rounds of the loop. */
    ghost predicate Placed(lens: seq<nat>, code: seq<nat>, avail: seq<nat>, i: nat, m: nat)
      reads codewords, lengths, values
    {
      && |code| == i <= |lens| && m == UsedCount(lens, i)
      && Tiled(lens, code, avail) && Assigned(lens, code) && Holds(lens, code, i)
    }

    /** The first used entry. */
    method PlaceFirst(lens: seq<nat>, ghost code: seq<nat>, available: array<nat>, k: nat) returns (m: nat)
      requires LensOk(lens) && Room(lens) && k < |lens| && IsUsed(lens[k]) && |code| == k && Assigned(lens, code)
      requires forall e :: 0 <= e < k ==> !IsUsed(lens[e])
      requires available.Length == 32 && forall y :: 0 <= y < 32 ==> available[y] == 0
      requires available != codewords && available != lengths && available != values
      modifies codewords, lengths, values, available
      ensures Placed(lens, code + [0], available[..], k + 1, m)
    {
      hide Pow2, Rev, Tiled, Lowest, IsSplit, Assigned;
      NoneUsed(lens, k);
      ghost var empty := available[..];
      FirstLeaves(available, lens[k]);
      FirstTiles(lens, code, empty, available[..]);
      AssignedSnoc(lens, code, 0);
      Store(lens, code, k, 0, 0);
      m := 1;
    }

    method PlaceNext(lens: seq<nat>, ghost code: seq<nat>, available: array<nat>, i: nat, m: nat)
      returns (ok: bool, ghost res: nat)
      requires Room(lens) && i < |lens| && IsUsed(lens[i])
      requires available.Length == 32 && Placed(lens, code, available[..], i, m)
      requires available != codewords && available != lengths && available != values
      modifies codewords, lengths, values, available
      ensures ok ==> Placed(lens, code + [res], available[..], i + 1, m + 1)
      ensures !ok ==> Kraft(lens, |lens|) > Pow2(32)
    {
      hide Pow2, Rev, Lowest, IsSplit, Assigned;
      ghost var avail := available[..];
      var z := FindLeaf(available, lens[i]);
      assert forall y :: z < y <= lens[i] ==> avail[y] == 0;
      if z == 0 {
        NoLeafOverfull(lens, code, avail);
        return false, 0;
      }
      DeepestIsLowest(lens, code, avail, z, lens[i]);
      AssignedSnoc(lens, code, avail[z]);
      var leaf := TakeLeaf(available, z, lens[i]);
      AllocateTiles(lens, code, avail, available[..], z);
      hide Tiled;
      Store(lens, code, i, m, leaf);
      ok, res := true, leaf;
    }

    lemma PlaceUnused(lens: seq<nat>, code: seq<nat>, avail: seq<nat>, i: nat, m: nat)
      requires i < |lens| && !IsUsed(lens[i]) && Placed(lens, code, avail, i, m)
      ensures Placed(lens, code + [0], avail, i + 1, m)
    {
      hide Tiled, Assigned;
      UnusedTiles(lens, code, avail);
      AssignedSnoc(lens, code, 0);
    }

    method ComputeCodewords(lens: seq<nat>) returns (ok: bool, ghost code: seq<nat>)
      requires LensOk(lens) && Room(lens)
      modifies codewords, lengths, values
      ensures ok <==> Kraft(lens, |lens|) <= Pow2(32)
      ensures ok ==> |code| == |lens| && Assigned(lens, code) && Holds(lens, code, |lens|)
    {
      hide Pow2, Tiled, Assigned, Kraft;
      var available := new nat[32](_ => 0);
      code := [];
      var k := 0;
      NothingAssigned(lens);
      while k < |lens| && lens[k] == NO_CODE
        modifies {}
        invariant 0 <= k <= |lens| && |code| == k && Assigned(lens, code)
        invariant forall e :: 0 <= e < k ==> !IsUsed(lens[e])
      {
        AssignedSnoc(lens, code, 0);
        code := code + [0];
        k := k + 1;
      }
      NoCodes(lens, code);
      if k == |lens| {
        return true, code;
      }
      var m := PlaceFirst(lens, code, available, k);
      code := code + [0];
      var i := k + 1;
      while i < |lens|
        invariant i <= |lens| && Placed(lens, code, available[..], i, m)
      {
        if lens[i] == NO_CODE {
          PlaceUnused(lens, code, available[..], i, m);
          code := code + [0];
        } else {
          ghost var res;
          ok, res := PlaceNext(lens, code, available, i, m);
          if !ok {
            return false, code;
          }
          m := m + 1;
          code := code + [res];
        }
        i := i + 1;
      }
      TiledFits(lens, code, available[..]);
      ok := true;
    }
  }

  /** The free leaves beside the codeword 0. */
  method FirstLeaves(available: array<nat>, len: nat)
    requires available.Length == 32 && 1 <= len <= 31 && forall y :: 0 <= y < 32 ==> available[y] == 0
    modifies available
    ensures IsSplit(old(available[..]), available[..], 0, 0, len)
  {
    hide Pow2;
    for i := 1 to len + 1
      invariant forall y :: 0 < y < i ==> available[y] == Pow2(32 - y)
      invariant forall y :: y == 0 || i <= y < 32 ==> available[y] == 0
    {
      available[i] := Pow2(32 - i);
    }
  }

  /** The deepest level up to `len` with a free leaf, 0 if there is none. */
  method FindLeaf(available: array<nat>, len: nat) returns (z: nat)
    requires available.Length == 32 && 1 <= len <= 31
    ensures z <= len && (z > 0 ==> available[z] != 0)
    ensures forall y :: z < y <= len ==> available[y] == 0
  {
    z := len;
    while z > 0 && available[z] == 0
      invariant 0 <= z <= len
      invariant forall y :: z < y <= len ==> available[y] == 0
    {
      z := z - 1;
    }
  }

  /** Take the leaf at level `z` and free what a codeword of length `len` leaves of it. */
  method TakeLeaf(available: array<nat>, z: nat, len: nat) returns (res: nat)
    requires available.Length == 32 && 0 < z <= len <= 31 && available[z] != 0
    requires forall y :: z < y <= len ==> available[y] == 0
    modifies available
    ensures res == old(available[z]) && IsSplit(old(available[..]), available[..], res, z, len)
  {
    hide Pow2;
    res := available[z];
    available[z] := 0;
    var y := len;
    while y > z
      invariant z <= y <= len && available[z] == 0
      invariant forall x :: z < x <= y ==> available[x] == 0
      invariant forall x :: y < x <= len ==> available[x] == res + Pow2(32 - x)
      invariant forall x :: 0 <= x < z || len < x < 32 ==> available[x] == old(available[x])
    {
      available[y] := res + Pow2(32 - y);
      y := y - 1;
    }
  }

  lemma NothingAssigned(lens: seq<nat>)
    requires LensOk(lens)
    ensures Assigned(lens, [])
  {
  }

  lemma {:induction false} NoneUsed(lens: seq<nat>, n: nat)
    requires n <= |lens| && forall e :: 0 <= e < n ==> !IsUsed(lens[e])
    ensures UsedCount(lens, n) == 0
  {
    if n > 0 {
      NoneUsed(lens, n - 1);
    }
  }

  lemma {:induction false} UsedBefore(lens: seq<nat>, i: nat, j: nat)
    requires i < j <= |lens| && IsUsed(lens[i])
    ensures UsedCount(lens, i) < UsedCount(lens, j)
    decreases j
  {
    if i < j - 1 {
      UsedBefore(lens, i, j - 1);
    }
  }

  lemma SlotBound(lens: seq<nat>, sparse: bool, i: nat)
    requires i < |lens| && IsUsed(lens[i])
    ensures Slot(lens, sparse, i) < Slot(lens, sparse, |lens|)
  {
    UsedBefore(lens, i, |lens|);
  }

  lemma SlotsDistinct(lens: seq<nat>, sparse: bool, i: nat)
    requires i <= |lens|
    ensures forall e :: 0 <= e < i && IsUsed(lens[e]) ==> Slot(lens, sparse, e) != Slot(lens, sparse, i)
  {
    forall e | 0 <= e < i && IsUsed(lens[e])
      ensures Slot(lens, sparse, e) != Slot(lens, sparse, i)
    {
      UsedBefore(lens, e, i);
    }
  }

  lemma UnusedTiles(lens: seq<nat>, code: seq<nat>, avail: seq<nat>)
    requires Tiled(lens, code, avail) && |code| < |lens| && !IsUsed(lens[|code|])
    ensures Tiled(lens, code + [0], avail)
  {
    var code1 := code + [0];
    assert code1[..|code|] == code;
    assert forall v: nat :: Hits(lens, code1, v) == Hits(lens, code, v);
  }

  lemma AssignedSnoc(lens: seq<nat>, code: seq<nat>, res: nat)
    requires Assigned(lens, code) && |code| < |lens|
    requires IsUsed(lens[|code|]) ==> Lowest(lens, code, res, lens[|code|])
    ensures Assigned(lens, code + [res])
  {
    hide Lowest;
    var code1 := code + [res];
    forall i | 0 <= i < |code1| && IsUsed(lens[i])
      ensures Lowest(lens, code1[..i], code1[i], lens[i])
    {
      assert code1[..i] == code[..i];
      assert i == |code| ==> code[..i] == code;
    }
  }

  lemma PowPositive(n: nat)
    ensures Pow2(n) > 0
  {
  }

  // ----- what the rule implies

  lemma {:induction false} HitsCounts(lens: seq<nat>, code: seq<nat>, e: nat, v: nat)
    requires LensOk(lens) && e < |code| <= |lens| && IsUsed(lens[e]) && In(code[e], lens[e], v)
    ensures Hits(lens, code, v) > 0
    decreases |code|
  {
    if e < |code| - 1 {
      HitsCounts(lens, code[..|code| - 1], e, v);
    }
  }

  /** No word starts with two codewords: the code is prefix-free. */
  lemma PrefixFree(lens: seq<nat>, code: seq<nat>, i: nat, j: nat, v: nat)
    requires Assigned(lens, code) && i < j < |code| && IsUsed(lens[i]) && IsUsed(lens[j])
    ensures !(In(code[i], lens[i], v) && In(code[j], lens[j], v))
  {
    if In(code[i], lens[i], v) && In(code[j], lens[j], v) {
      assert Lowest(lens, code[..j], code[j], lens[j]);
      HitsCounts(lens, code[..j], i, v);
    }
  }

  lemma {:induction false} SameHits(lens: seq<nat>, a: seq<nat>, b: seq<nat>, v: nat)
    requires LensOk(lens) && |a| == |b| <= |lens| && forall i :: 0 <= i < |a| && IsUsed(lens[i]) ==> a[i] == b[i]
    ensures Hits(lens, a, v) == Hits(lens, b, v)
    decreases |a|
  {
    if a != [] {
      SameHits(lens, a[..|a| - 1], b[..|a| - 1], v);
    }
  }

  /** The rule of the specification determines the codewords. */
  lemma {:induction false} AssignedUnique(lens: seq<nat>, a: seq<nat>, b: seq<nat>, i: nat)
    requires Assigned(lens, a) && Assigned(lens, b) && |a| == |b| && i < |a| && IsUsed(lens[i])
    ensures a[i] == b[i]
    decreases i
  {
    forall e | 0 <= e < i && IsUsed(lens[e])
      ensures a[e] == b[e]
    {
      AssignedUnique(lens, a, b, e);
    }
    assert Lowest(lens, a[..i], a[i], lens[i]) && Lowest(lens, b[..i], b[i], lens[i]);
    forall v: nat
      ensures Hits(lens, a[..i], v) == Hits(lens, b[..i], v)
    {
      SameHits(lens, a[..i], b[..i], v);
    }
    assert Untaken(lens, a[..i], b[i], lens[i]) && Untaken(lens, b[..i], a[i], lens[i]);
  }

  lemma TiledFits(lens: seq<nat>, code: seq<nat>, avail: seq<nat>)
    requires Tiled(lens, code, avail)
    ensures Kraft(lens, |code|) <= Pow2(32)
  {
  }
}
