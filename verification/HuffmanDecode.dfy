/** The three ways to decode a codeword: fast table, binary search and linear scan. */
module HuffmanDecode {
  import opened HuffmanBits
  import opened HuffmanCode

  const FAST_BITS: nat := 10
  const FAST_SIZE: nat := 1024
  const FAST_LIMIT: nat := 32767

  /** A row of a finished book: a left aligned codeword and its length. */
  datatype Row = Row(code: nat, len: nat)

  ghost predicate RowOk(r: Row) {
    r.len == NO_CODE || (1 <= r.len <= 31 && Aligned(r.code, r.len))
  }

  /** Rows are codewords, and no word starts with two of them. */
  ghost predicate RowsOk(rows: seq<Row>) {
    && (forall i :: 0 <= i < |rows| ==> RowOk(rows[i]))
    && (forall i, j, v: nat :: 0 <= i < j < |rows| && IsUsed(rows[i].len) && IsUsed(rows[j].len) ==>
          !(In(rows[i].code, rows[i].len, v) && In(rows[j].code, rows[j].len, v)))
  }

  /** The codeword of row `i` is at the low end of the accumulator. */
  ghost predicate Matches(rows: seq<Row>, i: nat, acc: nat)
    requires i < |rows|
  {
    IsUsed(rows[i].len) && Low(rows[i].len, acc) == Rev(32, rows[i].code)
  }

  lemma MatchesIn(rows: seq<Row>, i: nat, acc: nat)
    requires RowsOk(rows) && i < |rows| && IsUsed(rows[i].len)
    ensures Matches(rows, i, acc) <==> In(rows[i].code, rows[i].len, Rev(32, acc))
    ensures Rev(32, rows[i].code) < Pow2(rows[i].len)
  {
    assert RowOk(rows[i]);
    MatchIffIn(acc, rows[i].code, rows[i].len);
  }

  lemma MatchUnique(rows: seq<Row>, i: nat, j: nat, acc: nat)
    requires RowsOk(rows) && i < |rows| && j < |rows| && Matches(rows, i, acc) && Matches(rows, j, acc)
    ensures i == j
  {
    MatchesIn(rows, i, acc);
    MatchesIn(rows, j, acc);
  }

  // ----- masks and shifts

  /** `x << n`. */
  function Shl(x: nat, n: nat): nat {
    if n == 0 then x else 2 * Shl(x, n - 1)
  }

  lemma {:induction false} LowAdd(k: nat, a: nat, x: nat, v: nat)
    requires k <= v
    ensures Low(k, a + Shl(x, v)) == Low(k, a)
  {
    if k > 0 {
      LowAdd(k - 1, a / 2, x, v - 1);
      assert (a + Shl(x, v)) / 2 == a / 2 + Shl(x, v - 1);
    }
  }

  lemma {:induction false} ShrAdd(a: nat, v: nat, x: nat, n: nat)
    requires n <= v
    ensures Shr(a + Shl(x, v), n) == Shr(a, n) + Shl(x, v - n)
  {
    if n > 0 {
      ShrAdd(a / 2, v - 1, x, n - 1);
      assert (a + Shl(x, v)) / 2 == a / 2 + Shl(x, v - 1);
    }
  }

  lemma {:induction false} ShlByte(b: nat, more: nat, v: nat)
    ensures Shl(b + 256 * more, v) == Shl(b, v) + Shl(more, v + 8)
    ensures b < 256 ==> Shl(b, v) + Pow2(v) <= Pow2(v + 8)
  {
    if v == 0 {
      ShlEight(more);
    } else {
      ShlByte(b, more, v - 1);
    }
  }

  lemma ShlEight(x: nat)
    ensures Shl(x, 8) == 256 * x && Pow2(8) == 256
  {
    assert Shl(x, 1) == 2 * x && Pow2(1) == 2;
    assert Shl(x, 2) == 4 * x && Pow2(2) == 4;
    assert Shl(x, 3) == 8 * x && Pow2(3) == 8;
    assert Shl(x, 4) == 16 * x && Pow2(4) == 16;
    assert Shl(x, 5) == 32 * x && Pow2(5) == 32;
    assert Shl(x, 6) == 64 * x && Pow2(6) == 64;
    assert Shl(x, 7) == 128 * x && Pow2(7) == 128;
  }

  lemma {:induction false} ShrBound(a: nat, v: nat, n: nat)
    requires n <= v && a < Pow2(v)
    ensures Shr(a, n) < Pow2(v - n)
  {
    if n > 0 {
      ShrBound(a / 2, v - 1, n - 1);
    }
  }

  /** Two numbers less than a period apart with the same low bits are equal. */
  lemma {:induction false} LowClose(k: nat, a: nat, b: nat)
    requires Low(k, a) == Low(k, b) && a <= b < a + Pow2(k)
    ensures a == b
  {
    if k > 0 {
      LowClose(k - 1, a / 2, b / 2);
    }
  }

  // ----- the bits of a packet

  function Bytes(rest: seq<nat>): nat {
    if rest == [] then 0 else rest[0] + 256 * Bytes(rest[1..])
  }

  /** The accumulator after it has been filled from the packet. */
  function Filled(acc: nat, valid: nat, rest: seq<nat>): (r: (nat, nat, seq<nat>))
    ensures r.1 <= 24 ==> r.2 == []
    decreases |rest|
  {
    if valid > 24 || rest == [] then (acc, valid, rest) else Filled(acc + Shl(rest[0], valid), valid + 8, rest[1..])
  }

  class BitReader {
    var acc: nat
    var valid: nat
    var rest: seq<nat>

    ghost predicate Valid()
      reads this
    {
      valid <= 32 && Held() < Pow2(valid) && forall i :: 0 <= i < |rest| ==> rest[i] < 256
    }

    /** What the accumulator holds; without valid bits its contents do not matter. */
    ghost function Held(): nat
      reads this
    {
      if valid == 0 then 0 else acc
    }

    /** Everything still to be read, as a number: the next bit is the lowest. */
    ghost function Stream(): nat
      reads this
    {
      Held() + Shl(Bytes(rest), valid)
    }

    ghost function Bits(): nat
      reads this
    {
      valid + 8 * |rest|
    }

    method Prep()
      requires Valid()
      modifies this
      ensures Valid() && (acc, valid, rest) == Filled(old(Held()), old(valid), old(rest)) && acc == Held()
      ensures Stream() == old(Stream()) && Bits() == old(Bits()) && old(valid) <= valid
      ensures forall n: nat :: n <= old(valid) ==> Low(n, acc) == Low(n, old(acc))
    {
      hide Pow2, Low, Shl;
      if valid <= 24 {
        if valid == 0 {
          acc := 0;
          LowZero(old(acc));
        }
        while valid <= 24 && rest != []
          invariant Valid() && acc == Held() && Filled(acc, valid, rest) == Filled(old(Held()), old(valid), old(rest))
          invariant Stream() == old(Stream()) && Bits() == old(Bits()) && old(valid) <= valid
          invariant forall n: nat :: n <= old(valid) ==> Low(n, acc) == Low(n, old(acc))
        {
          FillStep(acc, valid, rest);
          acc, valid, rest := acc + Shl(rest[0], valid), valid + 8, rest[1..];
        }
      }
    }

    /** Drop the `n` bits of a codeword. */
    method Drop(n: nat)
      requires Valid() && n <= valid && acc == Held()
      modifies this
      ensures Valid() && acc == Held() && Stream() == Shr(old(Stream()), n) && Bits() == old(Bits()) - n
    {
      hide Pow2, Shr, Shl;
      ShrAdd(acc, valid, Bytes(rest), n);
      ShrBound(acc, valid, n);
      PowZero();
      acc, valid := Shr(acc, n), valid - n;
    }
  }

  lemma LowZero(x: nat)
    ensures Low(0, x) == 0 && Low(0, 0) == 0 && Pow2(0) == 1
  {
  }

  lemma FillStep(acc: nat, valid: nat, rest: seq<nat>)
    requires valid <= 24 && rest != [] && rest[0] < 256 && acc < Pow2(valid)
    ensures var acc1 := acc + Shl(rest[0], valid);
            acc1 < Pow2(valid + 8) &&
            acc1 + Shl(Bytes(rest[1..]), valid + 8) == acc + Shl(Bytes(rest), valid) &&
            forall n: nat :: n <= valid ==> Low(n, acc1) == Low(n, acc)
  {
    hide Pow2, Low, Shl;
    ShlByte(rest[0], Bytes(rest[1..]), valid);
    forall n: nat | n <= valid
      ensures Low(n, acc + Shl(rest[0], valid)) == Low(n, acc)
    {
      LowAdd(n, acc, rest[0], valid);
    }
  }

  /** Filling keeps the bits that are there, and is complete after one time. */
  lemma {:induction false} FilledKeeps(acc: nat, valid: nat, rest: seq<nat>)
    ensures var r := Filled(acc, valid, rest);
            valid <= r.1 && Filled(r.0, r.1, r.2) == r && forall n: nat :: n <= valid ==> Low(n, r.0) == Low(n, acc)
    decreases |rest|
  {
    if valid <= 24 && rest != [] {
      FilledKeeps(acc + Shl(rest[0], valid), valid + 8, rest[1..]);
      forall n: nat | n <= valid
        ensures Low(n, acc + Shl(rest[0], valid)) == Low(n, acc)
      {
        LowAdd(n, acc, rest[0], valid);
      }
    }
  }

  /** Filling keeps the bits of the packet. */
  lemma {:induction false} FilledStream(acc: nat, valid: nat, rest: seq<nat>)
    ensures var (a, v, r) := Filled(acc, valid, rest);
            a + Shl(Bytes(r), v) == acc + Shl(Bytes(rest), valid) && v + 8 * |r| == valid + 8 * |rest|
    decreases |rest|
  {
    if valid <= 24 && rest != [] {
      ShlByte(rest[0], Bytes(rest[1..]), valid);
      FilledStream(acc + Shl(rest[0], valid), valid + 8, rest[1..]);
    }
  }

  lemma LowBound(acc: nat)
    ensures Low(FAST_BITS, acc) < FAST_SIZE
  {
    assert Pow2(5) == 32;
    assert Pow2(10) == 32 * Pow2(5);
  }

  // ----- sorted codewords

  ghost predicate Increasing(sc: seq<nat>) {
    forall x, y :: 0 <= x < y < |sc| ==> sc[x] < sc[y]
  }

  /** The last of the sorted codewords that is not above `code`. */
  method Search(sc: array<nat>, size: nat, code: nat) returns (x: nat)
    requires 0 < size <= sc.Length && Increasing(sc[..size])
    ensures x < size
    ensures sc[0] <= code ==> sc[x] <= code && (x + 1 < size ==> code < sc[x + 1])
  {
    x := 0;
    var n := size;
    while n > 1
      invariant 0 < n && x + n <= size
      invariant sc[0] <= code ==> sc[x] <= code && (x + n < size ==> code < sc[x + n])
    {
      var m := x + n / 2;
      if sc[m] <= code {
        assert sc[..size][0] == sc[0] && sc[..size][m] == sc[m];
        x := m;
        n := n - n / 2;
      } else {
        n := n / 2;
      }
    }
  }

  // ----- the finished book

  class Book {
    const sparse: bool
    const entries: nat                    // the number of symbols
    const lengths: array<nat>             // by row
    const codewords: array?<nat>          // by row; a sparse book has dropped them
    const sortedCodewords: array?<nat>
    const sortedValues: array<nat>
    const sortedEntries: nat
    const fast: array<int>
    ghost const rows: seq<Row>

    constructor (sparse: bool, entries: nat, lengths: array<nat>, codewords: array?<nat>, sortedCodewords: array?<nat>,
                 sortedValues: array<nat>, sortedEntries: nat, fast: array<int>, ghost rows: seq<Row>)
      ensures this.sparse == sparse && this.entries == entries && this.lengths == lengths && this.codewords == codewords
      ensures this.sortedCodewords == sortedCodewords && this.sortedValues == sortedValues
      ensures this.sortedEntries == sortedEntries && this.fast == fast && this.rows == rows
    {
      this.sparse, this.entries, this.lengths, this.codewords := sparse, entries, lengths, codewords;
      this.sortedCodewords, this.sortedValues, this.sortedEntries := sortedCodewords, sortedValues, sortedEntries;
      this.fast, this.rows := fast, rows;
    }

    /** The row behind the sorted codeword at `x`. */
    function RowOf(x: nat): nat
      requires x < sortedValues.Length
      reads sortedValues
    {
      if sparse then x else sortedValues[x]
    }

    /** A row that the sorted codewords include. */
    ghost predicate InSort(i: nat)
      requires i < |rows|
    {
      IsUsed(rows[i].len) && (sparse || rows[i].len > FAST_BITS)
    }

    ghost predicate RowTables()
      reads lengths, codewords
    {
      && RowsOk(rows) && lengths.Length == |rows|
      && (forall i :: 0 <= i < |rows| ==> lengths[i] == rows[i].len)
      && (codewords == null <==> sparse)
      && (codewords != null ==> codewords.Length == |rows| == entries)
      && (codewords != null ==> forall i :: 0 <= i < |rows| && IsUsed(rows[i].len) ==>
          codewords[i] == Rev(32, rows[i].code))
    }

    ghost predicate Listed(i: nat)
      requires i < |rows|
      reads sortedCodewords, sortedValues
    {
      sortedCodewords != null &&
      exists x :: 0 <= x < sortedEntries && x < sortedValues.Length && x < sortedCodewords.Length && RowOf(x) == i
    }

    ghost predicate SortedTables()
      reads sortedCodewords, sortedValues
    {
      && (sortedCodewords == null ==> sortedEntries == 0)
      && (sortedCodewords != null ==>
          0 < sortedEntries < sortedCodewords.Length && sortedEntries <= sortedValues.Length)
      && (sortedCodewords != null ==> Increasing(sortedCodewords[..sortedEntries]))
      && (sortedCodewords != null ==> forall x :: 0 <= x < sortedEntries ==>
            RowOf(x) < |rows| && InSort(RowOf(x)) && sortedCodewords[x] == rows[RowOf(x)].code)
      && (forall i :: 0 <= i < |rows| && InSort(i) ==> Listed(i))
    }

    /** The fast table holds every short row that the table can name, at every place it matches. */
    ghost predicate FastTable()
      reads fast
    {
      && fast.Length == FAST_SIZE
      && (forall j :: 0 <= j < FAST_SIZE && fast[j] >= 0 ==>
            fast[j] < |rows| && fast[j] < FAST_LIMIT && rows[fast[j]].len <= FAST_BITS && Matches(rows, fast[j], j))
      && (forall j, i :: 0 <= j < FAST_SIZE && 0 <= i < |rows| && i < FAST_LIMIT && rows[i].len <= FAST_BITS ==>
            Matches(rows, i, j) ==> fast[j] >= 0)
    }

    ghost predicate Valid()
      reads lengths, codewords, sortedCodewords, sortedValues, fast
    {
      RowTables() && SortedTables() && FastTable()
    }

    /** A row that is found without the fast table. */
    ghost predicate Searched(i: nat)
      requires i < |rows|
    {
      sparse || rows[i].len > FAST_BITS || sortedCodewords == null
    }

    /** Row `i` can be found: it is not a short row that the fast table cannot name and that the sorted
        codewords leave out. Always so in a sparse book, and for at most 32767 rows. */
    ghost predicate InReach(i: nat)
      requires i < |rows|
    {
      Searched(i) || i < FAST_LIMIT
    }

    /** What decoding has to give for row `e`: the row if the accumulator has its codeword completely,
        and its bits gone; otherwise all bits are dropped. */
    twostate predicate Consumed(f: BitReader, e: nat, sym: int, valid: nat)
      requires e < |rows|
      reads f
    {
      if valid >= rows[e].len
      then sym == e && f.Stream() == Shr(old(f.Stream()), rows[e].len) && f.Bits() == old(f.Bits()) - rows[e].len
      else sym == -1 && f.valid == 0
    }

    method DecodeBinary(f: BitReader) returns (sym: int)
      requires Valid() && f.Valid() && f.acc == f.Held() && sortedCodewords != null
      modifies f
      ensures f.Valid()
      ensures forall e :: 0 <= e < |rows| && Matches(rows, e, old(f.acc)) && InSort(e) ==>
                Consumed(f, e, sym, old(f.valid))
      ensures sym >= 0 ==> sym < |rows| && InSort(sym) && rows[sym].len <= old(f.valid)
      ensures -1 <= sym
    {
      hide Pow2, Low, Rev, Shr, FastTable;
      PowZero();
      var code := Rev(32, f.acc);
      var x := Search(sortedCodewords, sortedEntries, code);
      ghost var x0 := x;
      var row := RowOf(x);
      forall e | 0 <= e < |rows| && Matches(rows, e, f.acc) && InSort(e)
        ensures e == row
      {
        SearchFinds(x, e, f.acc);
      }
      var len := lengths[row];
      if f.valid >= len {
        f.Drop(len);
        return row;
      }
      f.valid := 0;
      sym := -1;
    }

    method DecodeLinear(f: BitReader) returns (sym: int)
      requires Valid() && f.Valid() && f.acc == f.Held() && codewords != null
      modifies f
      ensures f.Valid()
      ensures forall e :: 0 <= e < |rows| && Matches(rows, e, old(f.acc)) ==> Consumed(f, e, sym, old(f.valid))
      ensures -1 <= sym && (sym >= 0 ==> sym < |rows| && rows[sym].len <= old(f.valid))
    {
      hide Pow2, Low, Rev, Shr, FastTable, SortedTables;
      PowZero();
      for i := 0 to entries
        invariant f.acc == old(f.acc) && f.valid == old(f.valid) && f.rest == old(f.rest)
        invariant forall e :: 0 <= e < i ==> !Matches(rows, e, f.acc)
      {
        if lengths[i] != NO_CODE && codewords[i] == Low(lengths[i], f.acc) {
          assert Matches(rows, i, f.acc);
          forall e | 0 <= e < |rows| && Matches(rows, e, f.acc)
            ensures e == i
          {
            MatchUnique(rows, i, e, f.acc);
          }
          if f.valid >= lengths[i] {
            f.Drop(lengths[i]);
            return i;
          }
          f.valid := 0;
          return -1;
        }
      }
      f.valid := 0;
      sym := -1;
    }

    /** Decode without the fast table, which must have missed: only then is a short codeword of a
        book that is not sparse known to be absent. */
    method DecodeScalarRaw(f: BitReader) returns (sym: int)
      requires Valid() && f.Valid()
      modifies f
      ensures f.Valid()
      ensures var (acc, valid, _) := Filled(old(f.Held()), old(f.valid), old(f.rest));
              && (forall e :: 0 <= e < |rows| && Matches(rows, e, acc) && Searched(e) ==> Consumed(f, e, sym, valid))
              && -1 <= sym && (sym >= 0 ==> sym < |rows| && rows[sym].len <= valid)
              && (sym >= 0 && entries > 8 && sortedCodewords != null ==> InSort(sym))
    {
      hide Pow2, Low, Rev, Shr, Shl, FastTable, Filled;
      PowZero();
      f.Prep();
      if codewords == null && sortedCodewords == null {
        NoRows();
        return -1;
      }
      if if entries > 8 then sortedCodewords != null else codewords == null {
        sym := DecodeBinary(f);
      } else {
        sym := DecodeLinear(f);
      }
    }

    lemma NoRows()
      requires RowTables() && SortedTables() && codewords == null && sortedCodewords == null
      ensures forall e :: 0 <= e < |rows| ==> !IsUsed(rows[e].len)
    {
      forall e | 0 <= e < |rows|
        ensures !IsUsed(rows[e].len)
      {
        assert !Listed(e);
      }
    }

    /** Decode with the fast table: a row that comes next is found if and only if it is in reach and the
        accumulator has it completely. */
    method Decode(f: BitReader) returns (sym: int)
      requires Valid() && f.Valid()
      modifies f
      ensures f.Valid()
      ensures var (acc, valid, _) := Filled(old(f.Held()), old(f.valid), old(f.rest));
              && (forall e :: 0 <= e < |rows| && Matches(rows, e, acc) && InReach(e) ==> Consumed(f, e, sym, valid))
              && (forall e :: 0 <= e < |rows| && Matches(rows, e, acc) && !InReach(e) ==> sym != e)
              && -1 <= sym && (sym >= 0 ==> sym < |rows| && rows[sym].len <= valid)
    {
      hide Pow2, Low, Rev, Shr, Shl, Filled, Matches;
      PowZero();
      ghost var (acc, valid, rest) := Filled(f.Held(), f.valid, f.rest);
      FilledKeeps(f.Held(), f.valid, f.rest);
      if f.valid < FAST_BITS {
        f.Prep();
      }
      LowBound(f.acc);
      var j := Low(FAST_BITS, f.acc);
      assert j == Low(FAST_BITS, acc);
      sym := fast[j];
      if sym >= 0 {
        FastHit(sym, acc);
        forall e | 0 <= e < |rows| && Matches(rows, e, acc)
          ensures e == sym
        {
          MatchUnique(rows, e, sym, acc);
        }
        var n := lengths[sym];
        if f.valid < n {
          f.valid := 0;
          return -1;
        }
        f.Drop(n);
      } else {
        forall e | 0 <= e < |rows| && Matches(rows, e, acc) && InReach(e)
          ensures Searched(e)
        {
          if rows[e].len <= FAST_BITS {
            FastHit(e, acc);
          }
        }
        sym := DecodeScalarRaw(f);
      }
    }

    /** A short row matches the accumulator exactly when it matches its low bits. */
    lemma FastHit(i: nat, acc: nat)
      requires i < |rows| && rows[i].len <= FAST_BITS
      ensures Matches(rows, i, Low(FAST_BITS, acc)) <==> Matches(rows, i, acc)
    {
      LowOfLow(rows[i].len, FAST_BITS, acc);
    }

    /** The search ends at the row whose codeword is there. */
    lemma SearchFinds(x: nat, e: nat, acc: nat)
      requires RowTables() && SortedTables() && sortedCodewords != null && e < |rows| && InSort(e)
      requires Matches(rows, e, acc)
      requires x < sortedEntries
      requires sortedCodewords[0] <= Rev(32, acc) ==>
                 sortedCodewords[x] <= Rev(32, acc) && (x + 1 < sortedEntries ==> Rev(32, acc) < sortedCodewords[x + 1])
      ensures RowOf(x) == e
    {
      hide Pow2, Low, Rev;
      var v := Rev(32, acc);
      MatchesIn(rows, e, acc);
      assert Listed(e);
      var y :| 0 <= y < sortedEntries && y < sortedValues.Length && y < sortedCodewords.Length && RowOf(y) == e;
      var sc := sortedCodewords[..sortedEntries];
      assert sc[0] == sortedCodewords[0] && sc[x] == sortedCodewords[x] && sc[y] == sortedCodewords[y];
      assert sc[0] <= sc[y] <= v;
      if x + 1 < sortedEntries {
        assert sc[x + 1] == sortedCodewords[x + 1];
      }
      assert y <= x;
      if y < x {
        var r := RowOf(x);
        assert InSort(r) && rows[r].code == sc[x];
        CodeBetween(e, r, v);
      }
    }

    /** No codeword starts inside the interval of another one. */
    lemma CodeBetween(e: nat, r: nat, v: nat)
      requires RowsOk(rows) && e < |rows| && r < |rows| && IsUsed(rows[e].len) && IsUsed(rows[r].len)
      requires In(rows[e].code, rows[e].len, v) && rows[e].code < rows[r].code
      ensures v < rows[r].code
    {
      assert RowOk(rows[r]) && RowOk(rows[e]);
      if rows[r].code <= v {
        InStart(rows[r].code, rows[r].len);
        InBetween(rows[e].code, rows[e].len, v, rows[r].code);
        assert false;
      }
    }
  }

  lemma InStart(code: nat, len: nat)
    requires len <= 32
    ensures In(code, len, code)
  {
  }

  lemma InBetween(code: nat, len: nat, v: nat, w: nat)
    requires len <= 32 && In(code, len, v) && code <= w <= v
    ensures In(code, len, w)
  {
  }
}
