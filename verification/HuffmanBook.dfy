/** From codeword lengths to a finished book: the sorted codewords and the fast table. */
module HuffmanBook {
  import opened HuffmanBits
  import opened HuffmanCode
  import opened HuffmanDecode

  // ----- slots and entries

  ghost function NthUsed(lens: seq<nat>, n: nat, m: nat): (e: nat)
    requires n <= |lens| && m < UsedCount(lens, n)
    ensures e < n && IsUsed(lens[e]) && UsedCount(lens, e) == m
  {
    if IsUsed(lens[n - 1]) && UsedCount(lens, n - 1) == m then n - 1 else NthUsed(lens, n - 1, m)
  }

  /** The entry that a slot of the tables belongs to. */
  ghost function SlotEntry(lens: seq<nat>, sparse: bool, s: nat): (e: nat)
    requires s < Slot(lens, sparse, |lens|)
    ensures e < |lens| && (sparse ==> IsUsed(lens[e])) && Slot(lens, sparse, e) == s
  {
    if sparse then NthUsed(lens, |lens|, s) else s
  }

  /** An entry that the sorted codewords include. */
  predicate Included(lens: seq<nat>, sparse: bool, e: nat)
    requires e < |lens|
  {
    IsUsed(lens[e]) && (sparse || lens[e] > FAST_BITS)
  }

  lemma EntrySlot(lens: seq<nat>, sparse: bool, e: nat)
    requires e < |lens| && IsUsed(lens[e])
    ensures Slot(lens, sparse, e) < Slot(lens, sparse, |lens|)
    ensures SlotEntry(lens, sparse, Slot(lens, sparse, e)) == e
  {
    SlotBound(lens, sparse, e);
    var d := SlotEntry(lens, sparse, Slot(lens, sparse, e));
    if d < e {
      if sparse {
        UsedBefore(lens, d, e);
      }
    } else if e < d {
      UsedBefore(lens, e, d);
    }
  }

  lemma CodesDistinct(lens: seq<nat>, code: seq<nat>, i: nat, j: nat)
    requires Assigned(lens, code) && i < |code| && j < |code| && i != j && IsUsed(lens[i]) && IsUsed(lens[j])
    ensures code[i] != code[j]
  {
    InStart(code[i], lens[i]);
    InStart(code[j], lens[j]);
    PrefixFree(lens, code, if i < j then i else j, if i < j then j else i, code[i]);
  }

  lemma {:induction false} LowFull(x: nat)
    requires x < Pow2(32)
    ensures Rev(32, Rev(32, x)) == x
  {
    RevRev(32, x);
    LowOfSmall(32, x);
  }

  lemma CodeBelow(lens: seq<nat>, code: seq<nat>, e: nat)
    requires Assigned(lens, code) && e < |code| && IsUsed(lens[e])
    ensures code[e] < Pow2(32)
  {
    hide Pow2;
    assert Lowest(lens, code[..e], code[e], lens[e]);
    AlignedBound(code[e], lens[e]);
    PowPositive(32 - lens[e]);
  }

  // ----- sorting

  /** What sorting distinct words gives. */
  method SortWords(keys: seq<nat>) returns (sc: seq<nat>)
    requires forall i, j :: 0 <= i < j < |keys| ==> keys[i] != keys[j]
    ensures |sc| == |keys| && Increasing(sc) && forall v :: v in sc <==> v in keys
  {
    sc := [];
    for i := 0 to |keys|
      invariant |sc| == i && Increasing(sc) && forall v :: v in sc <==> v in keys[..i]
    {
      var k := keys[i];
      var p := 0;
      assert k !in keys[..i];
      while p < |sc| && sc[p] < k
        invariant p <= |sc| && forall q :: 0 <= q < p ==> sc[q] < k
      {
        p := p + 1;
      }
      var sc1 := sc[..p] + [k] + sc[p..];
      InsertIncreasing(sc, p, k);
      assert forall v :: v in sc1 <==> v in sc || v == k;
      assert keys[..i + 1] == keys[..i] + [k];
      sc := sc1;
    }
    assert keys[..|keys|] == keys;
  }

  lemma InsertIncreasing(sc: seq<nat>, p: nat, k: nat)
    requires Increasing(sc) && p <= |sc| && k !in sc
    requires (forall q :: 0 <= q < p ==> sc[q] < k) && (p < |sc| ==> k <= sc[p])
    ensures Increasing(sc[..p] + [k] + sc[p..])
  {
    var s := sc[..p] + [k] + sc[p..];
    forall x, y | 0 <= x < y < |s|
      ensures s[x] < s[y]
    {
      if p < |sc| {
        assert sc[p] in sc;
      }
      var a := if x < p then x else x - 1;
      var b := if y < p then y else y - 1;
      if x != p && y != p {
        assert s[x] == sc[a] && s[y] == sc[b];
      } else if y == p {
        assert s[x] == sc[x];
      } else {
        assert s[y] == sc[b] && sc[p] <= sc[b];
      }
    }
  }

  /** The keys are the codewords of the included entries with slots before `s`, each once. */
  ghost predicate Collected(lens: seq<nat>, code: seq<nat>, sparse: bool, keys: seq<nat>, ents: seq<nat>, s: nat)
    requires |code| == |lens|
  {
    && |ents| == |keys|
    && (forall k :: 0 <= k < |ents| ==> ents[k] < |lens| && Included(lens, sparse, ents[k]) && keys[k] == code[ents[k]])
    && (forall k :: 0 <= k < |ents| ==> Slot(lens, sparse, ents[k]) < s)
    && (forall j, k :: 0 <= j < k < |ents| ==> ents[j] != ents[k])
    && (forall e :: 0 <= e < |lens| && Included(lens, sparse, e) && Slot(lens, sparse, e) < s ==> e in ents)
  }

  lemma CollectedStep(lens: seq<nat>, code: seq<nat>, sparse: bool, keys: seq<nat>, ents: seq<nat>, s: nat)
    requires |code| == |lens| && Collected(lens, code, sparse, keys, ents, s) && s < Slot(lens, sparse, |lens|)
    ensures var e := SlotEntry(lens, sparse, s);
            if Included(lens, sparse, e) then Collected(lens, code, sparse, keys + [code[e]], ents + [e], s + 1)
            else Collected(lens, code, sparse, keys, ents, s + 1)
  {
    hide UsedCount;
    var e := SlotEntry(lens, sparse, s);
    forall d | 0 <= d < |lens| && IsUsed(lens[d]) && Slot(lens, sparse, d) == s
      ensures d == e
    {
      EntrySlot(lens, sparse, d);
    }
  }

  lemma CollectedAll(lens: seq<nat>, code: seq<nat>, sparse: bool, keys: seq<nat>, ents: seq<nat>)
    requires |code| == |lens| && Assigned(lens, code)
    requires Collected(lens, code, sparse, keys, ents, Slot(lens, sparse, |lens|))
    ensures forall i, j :: 0 <= i < j < |keys| ==> keys[i] != keys[j]
    ensures forall v :: v in keys <==> exists e :: 0 <= e < |lens| && Included(lens, sparse, e) && code[e] == v
  {
    hide UsedCount, Lowest, Assigned;
    forall i, j | 0 <= i < j < |keys|
      ensures keys[i] != keys[j]
    {
      CodesDistinct(lens, code, ents[i], ents[j]);
    }
    forall e | 0 <= e < |lens| && Included(lens, sparse, e)
      ensures code[e] in keys
    {
      SlotBound(lens, sparse, e);
      assert e in ents;
      var k :| 0 <= k < |ents| && ents[k] == e;
    }
  }

  /** The codewords to be sorted, read back from the tables. */
  method CollectWords(lens: seq<nat>, cb: Codebook, ghost code: seq<nat>) returns (keys: seq<nat>)
    requires LensOk(lens) && cb.Room(lens) && |code| == |lens| && Assigned(lens, code) && cb.Holds(lens, code, |lens|)
    ensures forall i, j :: 0 <= i < j < |keys| ==> keys[i] != keys[j]
    ensures forall v :: v in keys <==> exists e :: 0 <= e < |lens| && Included(lens, cb.sparse, e) && code[e] == v
  {
    hide Pow2, Rev, Lowest, Assigned, UsedCount, Collected;
    keys := [];
    ghost var ents: seq<nat> := [];
    assert Collected(lens, code, cb.sparse, keys, ents, 0) by {
      NoneCollected(lens, code, cb.sparse);
    }
    for s := 0 to cb.codewords.Length
      invariant Collected(lens, code, cb.sparse, keys, ents, s)
    {
      ghost var e := SlotEntry(lens, cb.sparse, s);
      CollectedStep(lens, code, cb.sparse, keys, ents, s);
      if cb.sparse || (lens[s] != NO_CODE && lens[s] > FAST_BITS) {
        CodeBelow(lens, code, e);
        LowFull(code[e]);
        keys := keys + [Rev(32, cb.codewords[s])];
        ents := ents + [e];
      }
    }
    CollectedAll(lens, code, cb.sparse, keys, ents);
  }

  lemma NoneCollected(lens: seq<nat>, code: seq<nat>, sparse: bool)
    requires |code| == |lens|
    ensures Collected(lens, code, sparse, [], [], 0)
  {
  }

  /** Entry `e` is filed under the place of its codeword. */
  ghost predicate Filed(lens: seq<nat>, code: seq<nat>, sc: seq<nat>, sv: seq<nat>, ls: seq<nat>, sparse: bool, e: nat)
    requires e < |lens| && e < |code|
  {
    exists x :: 0 <= x < |sc| && x < |sv| && x < |ls| && sc[x] == code[e] && sv[x] == e && (sparse ==> ls[x] == lens[e])
  }

  /** Put the value (and in a sparse book the length) of every included entry beside its codeword. */
  method FileValues(lens: seq<nat>, cb: Codebook, ghost code: seq<nat>, sc: array<nat>, size: nat)
    returns (sv: array<nat>, ls: array<nat>)
    requires LensOk(lens) && cb.Room(lens) && |code| == |lens| && Assigned(lens, code) && cb.Holds(lens, code, |lens|)
    requires 0 < size <= sc.Length && Increasing(sc[..size])
    requires forall v :: v in sc[..size] <==>
               exists e :: 0 <= e < |lens| && Included(lens, cb.sparse, e) && code[e] == v
    ensures fresh(sv) && fresh(ls) && sv.Length == ls.Length == size
    ensures forall e :: 0 <= e < |lens| && Included(lens, cb.sparse, e) ==>
              Filed(lens, code, sc[..size], sv[..], ls[..], cb.sparse, e)
  {
    hide Pow2, Rev, Lowest, Assigned, Filed, UsedCount;
    sv, ls := new nat[size], new nat[size];
    for s := 0 to cb.codewords.Length
      invariant forall e :: 0 <= e < |lens| && Included(lens, cb.sparse, e) && Slot(lens, cb.sparse, e) < s ==>
                  Filed(lens, code, sc[..size], sv[..], ls[..], cb.sparse, e)
      modifies sv, ls
    {
      ghost var e := SlotEntry(lens, cb.sparse, s);
      forall d | 0 <= d < |lens| && IsUsed(lens[d]) && Slot(lens, cb.sparse, d) == s
        ensures d == e
      {
        EntrySlot(lens, cb.sparse, d);
      }
      ghost var sv0, ls0 := sv[..], ls[..];
      if cb.sparse || (lens[s] != NO_CODE && lens[s] > FAST_BITS) {
        CodeBelow(lens, code, e);
        LowFull(code[e]);
        var key := Rev(32, cb.codewords[s]);
        var x := Search(sc, size, key);
        PlaceFound(sc[..size], x, code[e]);
        if cb.sparse {
          sv[x] := cb.values[s];
          ls[x] := lens[cb.values[s]];
        } else {
          sv[x] := s;
        }
        forall d | 0 <= d < |lens| && Included(lens, cb.sparse, d) && Slot(lens, cb.sparse, d) < s + 1
          ensures Filed(lens, code, sc[..size], sv[..], ls[..], cb.sparse, d)
        {
          if d != e {
            CodesDistinct(lens, code, d, e);
          }
          FiledStep(lens, code, sc[..size], sv0, ls0, sv[..], ls[..], cb.sparse, x, d, e);
        }
      }
    }
    forall e | 0 <= e < |lens| && Included(lens, cb.sparse, e)
      ensures Filed(lens, code, sc[..size], sv[..], ls[..], cb.sparse, e)
    {
      SlotBound(lens, cb.sparse, e);
    }
  }

  /** The search for a word that is there ends at it. */
  lemma PlaceFound(sc: seq<nat>, x: nat, key: nat)
    requires Increasing(sc) && x < |sc| && key in sc
    requires sc[0] <= key ==> sc[x] <= key && (x + 1 < |sc| ==> key < sc[x + 1])
    ensures sc[x] == key
  {
    var y :| 0 <= y < |sc| && sc[y] == key;
    assert sc[0] <= sc[y];
    assert y <= x;
  }

  lemma FiledStep(lens: seq<nat>, code: seq<nat>, sc: seq<nat>, sv0: seq<nat>, ls0: seq<nat>, sv: seq<nat>,
                  ls: seq<nat>,
                  sparse: bool, x: nat, d: nat, e: nat)
    requires d < |lens| == |code| && e < |code| && x < |sc| == |sv| == |ls| == |sv0| == |ls0| && Increasing(sc)
    requires forall y :: 0 <= y < |sc| && y != x ==> sv[y] == sv0[y] && ls[y] == ls0[y]
    requires sc[x] == code[e] && sv[x] == e && (sparse ==> ls[x] == lens[e])
    requires d != e ==> code[d] != code[e] && Filed(lens, code, sc, sv0, ls0, sparse, d)
    ensures Filed(lens, code, sc, sv, ls, sparse, d)
  {
    if d != e {
      var y :| 0 <= y < |sc| && y < |sv0| && y < |ls0| && sc[y] == code[d] && sv0[y] == d && (sparse ==>
          ls0[y] == lens[d]);
      assert sv[y] == d;
    }
  }

  // ----- the fast table

  /** The part of the fast table that the rows before `n` make. */
  ghost predicate FastUpTo(rows: seq<Row>, fast: seq<int>, n: nat) {
    && |fast| == FAST_SIZE && n <= |rows|
    && (forall j :: 0 <= j < FAST_SIZE && fast[j] >= 0 ==>
          fast[j] < n && rows[fast[j]].len <= FAST_BITS && Matches(rows, fast[j], j))
    && (forall j, i :: 0 <= j < FAST_SIZE && 0 <= i < n && rows[i].len <= FAST_BITS && Matches(rows, i, j) ==>
        fast[j] >= 0)
  }

  /** Enter row `i` at its codeword and at every step of its length after it. */
  method EnterRow(fast: array<int>, ghost rows: seq<Row>, i: nat, codeword: nat, len: nat)
    requires RowsOk(rows) && i < |rows| && rows[i].len == len <= FAST_BITS && codeword == Rev(32, rows[i].code)
    requires FastUpTo(rows, fast[..], i)
    modifies fast
    ensures FastUpTo(rows, fast[..], i + 1)
  {
    hide Pow2, Low, Rev;
    assert RowOk(rows[i]);
    MatchesIn(rows, i, 0);
    LowOfSmall(len, codeword);
    var z := codeword;
    forall j | 0 <= j < z
      ensures !Matches(rows, i, j)
    {
      if Matches(rows, i, j) {
        LowClose(len, j, z);
      }
    }
    while z < FAST_SIZE
      invariant fast.Length == FAST_SIZE && Low(len, z) == codeword
      invariant forall j :: 0 <= j < FAST_SIZE && fast[j] >= 0 ==>
                  fast[j] <= i && rows[fast[j]].len <= FAST_BITS && Matches(rows, fast[j], j)
      invariant forall j, k :: 0 <= j < FAST_SIZE && 0 <= k < i && rows[k].len <= FAST_BITS && Matches(rows, k, j) ==>
                  fast[j] >= 0
      invariant forall j :: 0 <= j < FAST_SIZE && j < z && Matches(rows, i, j) ==> fast[j] >= 0
      decreases FAST_SIZE - z
    {
      fast[z] := i;
      PowPositive(len);
      ShlOne(len);
      LowAdd(len, z, 1, len);
      forall j | z < j < z + Pow2(len)
        ensures !Matches(rows, i, j)
      {
        if Matches(rows, i, j) {
          LowClose(len, z, j);
        }
      }
      z := z + Pow2(len);
    }
  }

  lemma {:induction false} ShlOne(n: nat)
    ensures Shl(1, n) == Pow2(n)
  {
    if n > 0 {
      ShlOne(n - 1);
    }
  }

  method ComputeAccelerated(sparse: bool, rowCount: nat, lengths: array<nat>, codewords: array<nat>,
                            sorted: array<nat>, ghost rows: seq<Row>)
    returns (fast: array<int>)
    requires RowsOk(rows) && rowCount == |rows| == lengths.Length
    requires forall i :: 0 <= i < |rows| ==> lengths[i] == rows[i].len
    requires sparse ==> |rows| <= sorted.Length && forall i :: 0 <= i < |rows| ==> sorted[i] == rows[i].code
    requires !sparse ==> |rows| <= codewords.Length && forall i :: 0 <= i < |rows| && IsUsed(rows[i].len) ==>
               codewords[i] == Rev(32, rows[i].code)
    ensures fresh(fast) && FastUpTo(rows, fast[..], if |rows| < FAST_LIMIT then |rows| else FAST_LIMIT)
  {
    hide Pow2, Low, Rev;
    fast := new int[FAST_SIZE](_ => -1);
    var len := if rowCount > FAST_LIMIT then FAST_LIMIT else rowCount;
    for i := 0 to len
      invariant FastUpTo(rows, fast[..], i)
      modifies fast
    {
      if lengths[i] <= FAST_BITS {
        EnterRow(fast, rows, i, if sparse then Rev(32, sorted[i]) else codewords[i], lengths[i]);
      }
    }
  }

  // ----- the whole book

  /** The rows of a book that is not sparse are its entries. */
  ghost function EntryRows(lens: seq<nat>, code: seq<nat>): seq<Row>
    requires |code| == |lens|
  {
    seq(|lens|, i requires 0 <= i < |lens| => Row(code[i], lens[i]))
  }

  lemma EntryRowsOk(lens: seq<nat>, code: seq<nat>)
    requires |code| == |lens| && Assigned(lens, code)
    ensures RowsOk(EntryRows(lens, code))
  {
    var rows := EntryRows(lens, code);
    forall i | 0 <= i < |rows|
      ensures RowOk(rows[i])
    {
      if IsUsed(lens[i]) {
        assert Lowest(lens, code[..i], code[i], lens[i]);
      }
    }
    forall i, j, v: nat | 0 <= i < j < |rows| && IsUsed(rows[i].len) && IsUsed(rows[j].len)
      ensures !(In(rows[i].code, rows[i].len, v) && In(rows[j].code, rows[j].len, v))
    {
      PrefixFree(lens, code, i, j, v);
    }
  }

  /** The rows of a sparse book are its used entries in the order of their codewords. */
  ghost function SortedRows(sc: seq<nat>, ls: seq<nat>): seq<Row>
    requires |sc| == |ls|
  {
    seq(|sc|, x requires 0 <= x < |sc| => Row(sc[x], ls[x]))
  }

  /** Every sorted codeword has its entry, and its value and length are those of the entry. */
  ghost predicate Sorted(lens: seq<nat>, code: seq<nat>, sc: seq<nat>, sv: seq<nat>, ls: seq<nat>, sparse: bool) {
    && |code| == |lens| && |sc| == |sv| == |ls| && Increasing(sc)
    && (forall x :: 0 <= x < |sc| ==> sv[x] < |lens| && Included(lens, sparse, sv[x]) && sc[x] == code[sv[x]])
    && (sparse ==> forall x :: 0 <= x < |sc| ==> ls[x] == lens[sv[x]])
    && (forall e :: 0 <= e < |lens| && Included(lens, sparse, e) ==> exists x :: 0 <= x < |sc| && sv[x] == e)
  }

  lemma FiledSorted(lens: seq<nat>, code: seq<nat>, sc: seq<nat>, sv: seq<nat>, ls: seq<nat>, sparse: bool)
    requires |code| == |lens| && Assigned(lens, code) && |sc| == |sv| == |ls| && Increasing(sc)
    requires forall v :: v in sc <==> exists e :: 0 <= e < |lens| && Included(lens, sparse, e) && code[e] == v
    requires forall e :: 0 <= e < |lens| && Included(lens, sparse, e) ==> Filed(lens, code, sc, sv, ls, sparse, e)
    ensures Sorted(lens, code, sc, sv, ls, sparse)
  {
    hide Assigned, Lowest;
    forall x | 0 <= x < |sc|
      ensures sv[x] < |lens| && Included(lens, sparse, sv[x]) && sc[x] == code[sv[x]]
      ensures (sparse ==> ls[x] == lens[sv[x]])
    {
      assert sc[x] in sc;
      var e :| 0 <= e < |lens| && Included(lens, sparse, e) && code[e] == sc[x];
      assert Filed(lens, code, sc, sv, ls, sparse, e);
      var y :| 0 <= y < |sc| && y < |sv| && y < |ls| && sc[y] == code[e] && sv[y] == e && (sparse ==> ls[y] == lens[e]);
      assert x == y;
    }
    forall e | 0 <= e < |lens| && Included(lens, sparse, e)
      ensures exists x :: 0 <= x < |sc| && sv[x] == e
    {
      assert Filed(lens, code, sc, sv, ls, sparse, e);
    }
  }

  lemma SortedRowsOk(lens: seq<nat>, code: seq<nat>, sc: seq<nat>, sv: seq<nat>, ls: seq<nat>)
    requires Assigned(lens, code) && Sorted(lens, code, sc, sv, ls, true)
    ensures RowsOk(SortedRows(sc, ls))
  {
    hide Increasing;
    var rows := SortedRows(sc, ls);
    forall x | 0 <= x < |rows|
      ensures RowOk(rows[x])
    {
      assert Lowest(lens, code[..sv[x]], code[sv[x]], lens[sv[x]]);
    }
    forall x, y, v: nat | 0 <= x < y < |rows|
      ensures !(In(rows[x].code, rows[x].len, v) && In(rows[y].code, rows[y].len, v))
    {
      SortedDistinct(lens, code, sc, sv, ls, x, y);
      var i, j := sv[x], sv[y];
      PrefixFree(lens, code, if i < j then i else j, if i < j then j else i, v);
    }
  }

  lemma SortedDistinct(lens: seq<nat>, code: seq<nat>, sc: seq<nat>, sv: seq<nat>, ls: seq<nat>, x: nat, y: nat)
    requires Sorted(lens, code, sc, sv, ls, true) && x < y < |sc|
    ensures sv[x] != sv[y]
  {
    assert sc[x] < sc[y];
  }

  /** Make a book that is not sparse. */
  method MakeDense(lens: seq<nat>, cb: Codebook, ghost code: seq<nat>) returns (book: Book)
    requires LensOk(lens) && cb.Room(lens) && !cb.sparse && |code| == |lens| && Assigned(lens, code)
    requires cb.Holds(lens, code, |lens|)
    ensures fresh(book) && book.Valid() && !book.sparse && Books(lens, code, book)
  {
    hide Pow2, Low, Rev, Assigned, Lowest, Filed, FastUpTo, Sorted, Matches, UsedCount;
    var keys := CollectWords(lens, cb, code);
    var sorted := SortWords(keys);
    var size := |sorted|;
    var lengths := new nat[|lens|](i requires 0 <= i < |lens| => lens[i]);
    ghost var rows := EntryRows(lens, code);
    EntryRowsOk(lens, code);
    var fast := ComputeAccelerated(false, |lens|, lengths, cb.codewords, cb.codewords, rows);
    if size == 0 {
      var none := new nat[0];
      book := new Book(false, |lens|, lengths, cb.codewords, null, none, 0, fast, rows);
      NoneIncluded(lens, code, sorted, book);
    } else {
      var sc := new nat[size + 1](i requires 0 <= i < size + 1 => if i < size then sorted[i] else 0xffff_ffff);
      assert sc[..size] == sorted;
      var sv, ls := FileValues(lens, cb, code, sc, size);
      FiledSorted(lens, code, sorted, sv[..], ls[..], false);
      book := new Book(false, |lens|, lengths, cb.codewords, sc, sv, size, fast, rows);
      DenseSorted(lens, code, sorted, sv[..], ls[..], book);
    }
    FastFits(book, fast[..]);
    assert book.RowTables() by {
      DenseRows(lens, code, cb, book);
    }
  }

  lemma DenseRows(lens: seq<nat>, code: seq<nat>, cb: Codebook, book: Book)
    requires |code| == |lens| && cb.Room(lens) && !cb.sparse && cb.Holds(lens, code, |lens|)
    requires book.rows == EntryRows(lens, code) && RowsOk(book.rows) && !book.sparse && book.entries == |lens|
    requires book.lengths.Length == |lens| && forall i :: 0 <= i < |lens| ==> book.lengths[i] == lens[i]
    requires book.codewords == cb.codewords
    ensures book.RowTables()
  {
    hide Rev;
  }

  lemma FastFits(book: Book, fast: seq<int>)
    requires book.fast[..] == fast
    requires FastUpTo(book.rows, fast, if |book.rows| < FAST_LIMIT then |book.rows| else FAST_LIMIT)
    ensures book.FastTable()
  {
    hide Matches;
    assert forall j :: 0 <= j < |fast| ==> book.fast[j] == fast[j];
  }

  lemma NoneIncluded(lens: seq<nat>, code: seq<nat>, sorted: seq<nat>, book: Book)
    requires |code| == |lens| && sorted == [] && book.rows == EntryRows(lens, code) && !book.sparse
    requires book.sortedCodewords == null && book.sortedEntries == 0
    requires forall v :: v in sorted <==> exists e :: 0 <= e < |lens| && Included(lens, false, e) && code[e] == v
    ensures book.SortedTables()
  {
    forall i | 0 <= i < |book.rows|
      ensures !book.InSort(i)
    {
      assert code[i] !in sorted;
    }
  }

  lemma DenseSorted(lens: seq<nat>, code: seq<nat>, sc: seq<nat>, sv: seq<nat>, ls: seq<nat>, book: Book)
    requires Sorted(lens, code, sc, sv, ls, false) && |sc| > 0 && book.rows == EntryRows(lens, code) && !book.sparse
    requires book.sortedCodewords != null && book.sortedEntries == |sc| < book.sortedCodewords.Length
    requires book.sortedCodewords[..|sc|] == sc && book.sortedValues[..] == sv
    ensures book.SortedTables()
  {
    assert forall x :: 0 <= x < |sc| ==> book.sortedCodewords[x] == sc[x] && book.sortedValues[x] == sv[x];
    forall i | 0 <= i < |book.rows| && book.InSort(i)
      ensures book.Listed(i)
    {
      assert Included(lens, false, i);
      var x :| 0 <= x < |sc| && sv[x] == i;
      assert book.RowOf(x) == i;
    }
  }

  /** Row `r` of a book belongs to entry `EntryOf(book, r)`; every used entry has its row. */
  ghost predicate Books(lens: seq<nat>, code: seq<nat>, book: Book)
    requires |code| == |lens|
    reads book.sortedValues
  {
    && (book.sparse ==> book.sortedValues.Length == |book.rows|)
    && (!book.sparse ==> book.rows == EntryRows(lens, code))
    && (book.sparse ==> forall x :: 0 <= x < |book.rows| ==> Backed(lens, code, book.rows[x], book.sortedValues[x]))
    && (book.sparse ==> forall e :: 0 <= e < |lens| && IsUsed(lens[e]) ==> e in book.sortedValues[..])
  }

  ghost predicate Backed(lens: seq<nat>, code: seq<nat>, row: Row, e: nat)
    requires |code| == |lens|
  {
    e < |lens| && IsUsed(lens[e]) && row == Row(code[e], lens[e])
  }

  /** Make a sparse book. */
  method MakeSparse(lens: seq<nat>, cb: Codebook, ghost code: seq<nat>) returns (book: Book)
    requires LensOk(lens) && cb.Room(lens) && cb.sparse && |code| == |lens| && Assigned(lens, code)
    requires cb.Holds(lens, code, |lens|)
    ensures fresh(book) && book.Valid() && book.sparse && Books(lens, code, book)
  {
    hide Pow2, Low, Rev, Assigned, Lowest, Filed, FastUpTo, RowsOk, Books, Sorted, Matches, UsedCount;
    var keys := CollectWords(lens, cb, code);
    var sorted := SortWords(keys);
    var size := |sorted|;
    if size == 0 {
      book := MakeEmpty(lens, code, sorted);
    } else {
      var sc := new nat[size + 1](i requires 0 <= i < size + 1 => if i < size then sorted[i] else 0xffff_ffff);
      assert sc[..size] == sorted;
      var sv, ls := FileValues(lens, cb, code, sc, size);
      FiledSorted(lens, code, sorted, sv[..], ls[..], true);
      SortedRowsOk(lens, code, sorted, sv[..], ls[..]);
      ghost var rows := SortedRows(sorted, ls[..]);
      var fast := ComputeAccelerated(true, size, ls, ls, sc, rows);
      book := new Book(true, |lens|, ls, null, sc, sv, size, fast, rows);
      FastFits(book, fast[..]);
      SparseSorted(lens, code, sorted, sv[..], ls[..], book);
      assert book.RowTables() by {
        hide *;
        SparseRows(book, ls[..], sorted);
      }
    }
  }

  lemma SparseRows(book: Book, ls: seq<nat>, sc: seq<nat>)
    requires |sc| == |ls| && book.rows == SortedRows(sc, ls) && RowsOk(book.rows) && book.sparse
    requires book.lengths[..] == ls && book.codewords == null
    ensures book.RowTables()
  {
    hide RowsOk;
    assert forall i :: 0 <= i < |ls| ==> book.lengths[i] == ls[i];
  }

  method MakeEmpty(lens: seq<nat>, ghost code: seq<nat>, sorted: seq<nat>) returns (book: Book)
    requires |code| == |lens| && sorted == []
    requires forall v :: v in sorted <==> exists e :: 0 <= e < |lens| && Included(lens, true, e) && code[e] == v
    ensures fresh(book) && book.Valid() && book.sparse && Books(lens, code, book)
  {
    hide RowsOk, FastUpTo, Matches;
    var none := new nat[0];
    NoRowsOk();
    var fast := ComputeAccelerated(true, 0, none, none, none, []);
    book := new Book(true, |lens|, none, null, null, none, 0, fast, []);
    FastFits(book, fast[..]);
    forall e | 0 <= e < |lens|
      ensures !IsUsed(lens[e])
    {
      assert code[e] !in sorted;
    }
  }

  lemma NoRowsOk()
    ensures RowsOk([])
  {
  }

  lemma SparseSorted(lens: seq<nat>, code: seq<nat>, sc: seq<nat>, sv: seq<nat>, ls: seq<nat>, book: Book)
    requires Sorted(lens, code, sc, sv, ls, true) && |sc| > 0 && book.rows == SortedRows(sc, ls) && book.sparse
    requires book.sortedCodewords != null && book.sortedEntries == |sc| < book.sortedCodewords.Length
    requires book.sortedCodewords[..|sc|] == sc && book.sortedValues[..] == sv
    ensures book.SortedTables() && Books(lens, code, book)
  {
    assert forall x :: 0 <= x < |sc| ==> book.sortedCodewords[x] == sc[x] && book.sortedValues[x] == sv[x];
    forall i | 0 <= i < |book.rows| && book.InSort(i)
      ensures book.Listed(i)
    {
      assert book.RowOf(i) == i;
    }
    forall e | 0 <= e < |lens| && IsUsed(lens[e])
      ensures e in book.sortedValues[..]
    {
      assert Included(lens, true, e);
    }
  }

  /** Lengths to book: made exactly when the codewords of these lengths fit. */
  method MakeBook(lens: seq<nat>, sparse: bool) returns (book: Book?, ghost code: seq<nat>)
    requires LensOk(lens)
    ensures book != null <==> Kraft(lens, |lens|) <= Pow2(32)
    ensures book != null ==> |code| == |lens| && Assigned(lens, code)
    ensures book != null ==> book.Valid() && book.sparse == sparse && Books(lens, code, book)
  {
    hide Pow2, Assigned, Kraft;
    var cb := new Codebook(lens, sparse);
    var ok;
    ok, code := cb.ComputeCodewords(lens);
    if !ok {
      return null, code;
    }
    if sparse {
      book := MakeSparse(lens, cb, code);
    } else {
      book := MakeDense(lens, cb, code);
    }
  }

  /** The codeword of entry `e` is at the low end of `bits`. */
  ghost predicate Next(lens: seq<nat>, code: seq<nat>, e: nat, bits: nat)
    requires e < |lens| == |code|
  {
    IsUsed(lens[e]) && Low(lens[e], bits) == Rev(32, code[e])
  }

  /** The tables of the book can find entry `e`. */
  ghost predicate Findable(lens: seq<nat>, book: Book, e: nat)
    requires e < |lens|
  {
    book.sparse || lens[e] > FAST_BITS || e < FAST_LIMIT || book.sortedCodewords == null
  }

  /** How many bits the accumulator has once it is filled. */
  ghost function Room(f: BitReader): nat
    reads f
  {
    Filled(f.Held(), f.valid, f.rest).1
  }

  /** The symbol is entry `e`, and its bits are gone. */
  twostate predicate Taken(lens: seq<nat>, f: BitReader, e: nat, sym: int)
    requires e < |lens|
    reads f
  {
    sym == e && f.Stream() == Shr(old(f.Stream()), lens[e]) && f.Bits() == old(f.Bits()) - lens[e]
  }

  /** Decode a symbol. When the codeword of an entry comes next in the packet, every layout gives the
      entry and consumes its bits, if and only if the tables can find it and the accumulator has room
      for it; for up to 25 bits there is room exactly when the packet has them. */
  method DecodeSymbol(lens: seq<nat>, ghost code: seq<nat>, book: Book, f: BitReader) returns (sym: int)
    requires |code| == |lens| && book.Valid() && f.Valid() && Books(lens, code, book)
    modifies f
    ensures f.Valid()
    ensures forall e :: 0 <= e < |lens| && Next(lens, code, e, old(f.Stream())) ==>
              if Findable(lens, book, e) && old(Room(f)) >= lens[e] then Taken(lens, f, e, sym) else sym != e
    ensures forall e :: 0 <= e < |lens| && Next(lens, code, e, old(f.Stream())) && lens[e] <= 25 ==>
              && (old(Room(f)) >= lens[e] <==> old(f.Bits()) >= lens[e])
              && (old(f.Bits()) < lens[e] && Findable(lens, book, e) ==> sym == -1)
  {
    hide Pow2, Low, Rev, Shr, Shl, Filled, Next, Matches, book.Valid, Bytes, book.RowTables, book.SortedTables,
        book.FastTable;
    ghost var (acc, valid, rest) := Filled(f.Held(), f.valid, f.rest);
    ghost var stream := f.Stream();
    forall e | 0 <= e < |lens| && lens[e] <= 25
      ensures valid >= lens[e] <==> f.Bits() >= lens[e]
    {
      RoomEnough(f, lens[e]);
    }
    forall e | 0 <= e < |lens| && Next(lens, code, e, stream) && (valid >= lens[e] || lens[e] <= 25)
      ensures exists x :: RowFor(lens, book, x, e) && Matches(book.rows, x, acc)
    {
      RoomNext(lens, code, f, e);
      NextMatches(lens, code, book, e, acc);
    }
    sym := book.Decode(f);
    ghost var row := sym;
    forall e | 0 <= e < |lens| && IsUsed(lens[e]) && 0 <= sym && RowEntry(book, sym) == e
      ensures lens[e] <= valid
    {
      EntryLength(lens, code, book, sym);
    }
    if book.sparse && 0 <= sym < book.sortedValues.Length {
      sym := book.sortedValues[sym];
    }
    forall e | 0 <= e < |lens| && Next(lens, code, e, stream) && (valid >= lens[e] || lens[e] <= 25)
      ensures if !Findable(lens, book, e) then sym != e else if valid >= lens[e] then Taken(lens, f, e, sym)
              else sym == -1
    {
      var x :| RowFor(lens, book, x, e) && Matches(book.rows, x, acc);
      assert Findable(lens, book, e) ==> book.InReach(x);
      assert Findable(lens, book, e) ==> book.Consumed(f, x, row, valid);
    }
  }

  ghost function RowEntry(book: Book, x: nat): nat
    reads book.sortedValues
  {
    if book.sparse && x < book.sortedValues.Length then book.sortedValues[x] else x
  }

  ghost predicate RowFor(lens: seq<nat>, book: Book, x: int, e: nat)
    requires e < |lens|
    reads book.sortedValues
  {
    0 <= x < |book.rows| && book.rows[x].len == lens[e] && RowEntry(book, x) == e
  }

  lemma RoomEnough(f: BitReader, n: nat)
    requires n <= 25
    ensures Room(f) >= n <==> f.Bits() >= n
  {
    hide Shl, Bytes;
    FilledStream(f.Held(), f.valid, f.rest);
  }

  /** What comes next in the packet comes next in the filled accumulator. */
  lemma RoomNext(lens: seq<nat>, code: seq<nat>, f: BitReader, e: nat)
    requires |code| == |lens| && e < |lens| && Next(lens, code, e, f.Stream()) && (Room(f) >= lens[e] || lens[e] <= 25)
    ensures Next(lens, code, e, Filled(f.Held(), f.valid, f.rest).0)
  {
    hide Low, Rev, Shl;
    var (acc, valid, rest) := Filled(f.Held(), f.valid, f.rest);
    FilledStream(f.Held(), f.valid, f.rest);
    if valid >= lens[e] {
      LowAdd(lens[e], acc, Bytes(rest), valid);
    } else {
      assert rest == [];
      ShlZero(valid);
    }
  }

  lemma {:induction false} ShlZero(n: nat)
    ensures Shl(0, n) == 0
  {
    if n > 0 {
      ShlZero(n - 1);
    }
  }

  lemma NextMatches(lens: seq<nat>, code: seq<nat>, book: Book, e: nat, acc: nat)
    requires |code| == |lens| && Books(lens, code, book) && e < |lens| && Next(lens, code, e, acc)
    ensures exists x :: RowFor(lens, book, x, e) && Matches(book.rows, x, acc)
  {
    hide Low, Rev;
    var sv := book.sortedValues[..];
    if book.sparse {
      assert e in sv;
      var x :| 0 <= x < |sv| && sv[x] == e;
      assert Backed(lens, code, book.rows[x], book.sortedValues[x]);
      assert RowFor(lens, book, x, e) && Matches(book.rows, x, acc);
    } else {
      assert RowFor(lens, book, e, e) && Matches(book.rows, e, acc);
    }
  }

  lemma EntryLength(lens: seq<nat>, code: seq<nat>, book: Book, x: nat)
    requires |code| == |lens| && Books(lens, code, book) && x < |book.rows|
    ensures RowEntry(book, x) < |lens| && book.rows[x].len == lens[RowEntry(book, x)]
  {
    if book.sparse {
      assert Backed(lens, code, book.rows[x], book.sortedValues[x]);
    }
  }

  /** A codeword of more than 25 bits can be lost in the middle of a packet: with 25 bits in the
      accumulator it is not filled, although the packet goes on and the 26 bits of the codeword come next.
      The book is that of a single entry, in either layout. */
  method DecodeLong(sparse: bool, f: BitReader) returns (sym: int, ghost code: seq<nat>)
    requires f.acc == 0 && f.valid == 25 && f.rest == [0]
    modifies f
    ensures |code| == 1 && Assigned([26], code)
    ensures old(f.Bits()) == 33 && Next([26], code, 0, old(f.Stream())) && sym != 0
  {
    hide Pow2, Kraft;
    LongFits();
    LongNext(f);
    var book;
    book, code := MakeBook([26], sparse);
    LongCode(code);
    sym := DecodeSymbol([26], code, book, f);
  }

  lemma LongFits()
    ensures Kraft([26], 1) <= Pow2(32)
  {
    hide Pow2;
    assert Kraft([26], 0) == 0;
    Pow2Monotone(6, 32);
  }

  /** The only codeword of a book is 0. */
  lemma LongCode(code: seq<nat>)
    requires |code| == 1 && Assigned([26], code)
    ensures code == [0]
  {
    hide Pow2, Lowest;
    assert Lowest([26], code[..0], code[0], 26);
    LowestZero(code[..0], code[0]);
  }

  lemma LowestZero(none: seq<nat>, y: nat)
    requires none == [] && Lowest([26], none, y, 26)
    ensures y == 0
  {
    hide Pow2, Hits;
    NoCodes([26], none);
    PowPositive(26);
    assert AlignedAs(0, 26, 0);
    assert Untaken([26], none, 0, 26);
  }

  lemma LongNext(f: BitReader)
    requires f.acc == 0 && f.valid == 25 && f.rest == [0]
    ensures f.Valid() && f.Bits() == 33 && Next([26], [0], 0, f.Stream()) && Room(f) == 25
  {
    hide Shl, Pow2, Low, Rev;
    PowPositive(25);
    assert Bytes([0]) == 0 + 256 * Bytes([0][1..]) && [0][1..] == [];
    ShlZero(25);
    LowRevZero(26);
    LowRevZero(32);
  }

  lemma {:induction false} LowRevZero(n: nat)
    ensures Low(n, 0) == 0 && Rev(n, 0) == 0
  {
    if n > 0 {
      LowRevZero(n - 1);
    }
  }

  // ----- whole packets

  /** The codewords of some symbols one after the other, and then `tail`, as bits of a packet. */
  ghost function Packed(lens: seq<nat>, code: seq<nat>, syms: seq<nat>, tail: nat): nat
    requires |code| == |lens| && forall k :: 0 <= k < |syms| ==> syms[k] < |lens|
  {
    if syms == [] then tail else Rev(32, code[syms[0]]) + Shl(Packed(lens, code, syms[1..], tail), lens[syms[0]])
  }

  ghost function PackedBits(lens: seq<nat>, syms: seq<nat>): nat
    requires forall k :: 0 <= k < |syms| ==> syms[k] < |lens|
  {
    if syms == [] then 0 else lens[syms[0]] + PackedBits(lens, syms[1..])
  }

  /** The first codeword of a packet comes next, and without it the rest is left. */
  lemma PackedNext(lens: seq<nat>, code: seq<nat>, syms: seq<nat>, tail: nat)
    requires |code| == |lens| && Assigned(lens, code) && syms != [] && forall k :: 0 <= k < |syms| ==> syms[k] < |lens|
    requires IsUsed(lens[syms[0]])
    ensures Next(lens, code, syms[0], Packed(lens, code, syms, tail))
    ensures Shr(Packed(lens, code, syms, tail), lens[syms[0]]) == Packed(lens, code, syms[1..], tail)
  {
    hide Pow2, Low, Rev, Shl, Shr;
    var e := syms[0];
    var len, r, more := lens[e], Rev(32, code[e]), Packed(lens, code, syms[1..], tail);
    CodeSmall(lens, code, e);
    LowAdd(len, r, more, len);
    LowOfSmall(len, r);
    ShrAdd(r, len, more, len);
    ShrBound(r, len, len);
    PowZero();
    ShlNone(more);
  }

  lemma ShlNone(x: nat)
    ensures Shl(x, 0) == x
  {
  }

  lemma CodeSmall(lens: seq<nat>, code: seq<nat>, e: nat)
    requires |code| == |lens| && Assigned(lens, code) && e < |lens| && IsUsed(lens[e])
    ensures Rev(32, code[e]) < Pow2(lens[e])
  {
    hide Pow2, Low, Rev;
    assert Lowest(lens, code[..e], code[e], lens[e]);
    MatchIffIn(0, code[e], lens[e]);
  }

  /** Decoding gives back the symbols that were encoded. */
  method DecodeAll(lens: seq<nat>, ghost code: seq<nat>, book: Book, f: BitReader, ghost syms: seq<nat>,
                   ghost tail: nat, n: nat)
    returns (out: seq<int>)
    requires |code| == |lens| && Assigned(lens, code) && book.Valid() && f.Valid() && Books(lens, code, book)
    requires n == |syms|
    requires forall k :: 0 <= k < n ==>
               syms[k] < |lens| && IsUsed(lens[syms[k]]) && lens[syms[k]] <= 25 && Findable(lens, book, syms[k])
    requires f.Stream() == Packed(lens, code, syms, tail) && f.Bits() >= PackedBits(lens, syms)
    modifies f
    ensures |out| == n && forall k :: 0 <= k < n ==> out[k] == syms[k]
    ensures f.Stream() == tail && f.Bits() == old(f.Bits()) - PackedBits(lens, syms)
  {
    hide Assigned, Next, Findable, Shr, book.Valid, Books, f.Valid, f.Stream, f.Bits, Room;
    out := [];
    assert syms[0..] == syms;
    for i := 0 to n
      invariant |out| == i && f.Valid() && forall k :: 0 <= k < i ==> out[k] == syms[k]
      invariant f.Stream() == Packed(lens, code, syms[i..], tail) && f.Bits() >= PackedBits(lens, syms[i..])
      invariant f.Bits() - PackedBits(lens, syms[i..]) == old(f.Bits()) - PackedBits(lens, syms)
    {
      assert syms[i..][1..] == syms[i + 1..] && syms[i..][0] == syms[i];
      PackedNext(lens, code, syms[i..], tail);
      var sym := DecodeSymbol(lens, code, book, f);
      out := out + [sym];
    }
    assert syms[n..] == [];
  }
}
