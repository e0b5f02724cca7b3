/** How the decoders of a beam share the cache. */
module KvBeam {
  import opened KvCache

  const MAX_DECODERS: int := 8

  // ----- what a sequence sees

  /** The row of position `p` of a history, when it is made from the history alone: it saw the row of every
      position before it and no other. */
  ghost function Made(hist: seq<int>, p: nat): Row
    requires p < |hist|
    decreases p, 1
  {
    Row(hist[p], p, MadeBefore(hist, p))
  }

  ghost function MadeBefore(hist: seq<int>, p: nat): set<Row>
    requires p <= |hist|
    decreases p, 0
  {
    set q | 0 <= q < p :: Made(hist, q)
  }

  /** What comes later does not matter for it. */
  lemma {:induction false} MadeEarly(a: seq<int>, b: seq<int>, p: nat)
    requires p < |a| <= |b| && b[..|a|] == a
    ensures Made(b, p) == Made(a, p)
    decreases p
  {
    assert b[p] == b[..|a|][p];
    forall q: nat | q < p
      ensures Made(b, q) == Made(a, q)
    {
      MadeEarly(a, b, q);
    }
    assert MadeBefore(b, p) == MadeBefore(a, p);
  }

  /** A row tells the whole history up to it: equal rows have equal histories. */
  lemma {:induction false} MadeTells(a: seq<int>, b: seq<int>, p: nat)
    requires p < |a| && p < |b| && Made(a, p) == Made(b, p)
    ensures a[..p + 1] == b[..p + 1]
    decreases p
  {
    forall q | 0 <= q <= p
      ensures a[q] == b[q]
    {
      if q < p {
        assert Made(a, q) in MadeBefore(a, p) && MadeBefore(a, p) == MadeBefore(b, p);
        var r :| 0 <= r < p && Made(a, q) == Made(b, r);
        assert r == q;
        MadeTells(a, b, q);
        assert a[q] == a[..q + 1][q] == b[q];
      }
    }
  }

  /** Sequence `s` owns one cell for every position of `hist`, with the row that the history makes there,
      and no other cell. */
  ghost predicate Holds(cells: seq<Cell>, rows: seq<Row>, s: int, hist: seq<int>) {
    && |rows| == |cells|
    && (forall i :: 0 <= i < |cells| && s in cells[i].seqs ==>
        0 <= cells[i].pos < |hist| && rows[i] == Made(hist, cells[i].pos))
    && (forall i, j :: 0 <= i < j < |cells| && s in cells[i].seqs && s in cells[j].seqs ==>
        cells[i].pos != cells[j].pos)
    && (forall p :: 0 <= p < |hist| ==> Has(cells, s, p))
  }

  ghost predicate Has(cells: seq<Cell>, s: int, p: int) {
    exists i :: 0 <= i < |cells| && s in cells[i].seqs && cells[i].pos == p
  }

  /** Only decoders own cells; the temporary ids are not in use. */
  ghost predicate NoTemps(cells: seq<Cell>) {
    forall i, k :: 0 <= i < |cells| && k in cells[i].seqs ==> 0 <= k < MAX_DECODERS
  }

  /** The mask of a batch: row `b` is open where token `b` may look; no owned cell is left out. */
  ghost predicate Opens(cells: seq<Cell>, batch: seq<Token>, mask: array2<bool>)
    requires forall b :: 0 <= b < |batch| ==> |batch[b].seqs| == 1
    reads mask
  {
    && mask.Length0 == |batch| && mask.Length1 <= |cells|
    && (forall i :: mask.Length1 <= i < |cells| ==> cells[i].seqs == {})
    && (forall b, i :: 0 <= b < |batch| && 0 <= i < mask.Length1 ==>
          (mask[b, i] <==> batch[b].seqs[0] in cells[i].seqs && cells[i].pos <= batch[b].pos))
  }

  /** What a batch at `head` has done to the cells and rows. */
  ghost predicate Entered(was: seq<Cell>, now: seq<Cell>, rows0: seq<Row>, rows: seq<Row>, head: nat,
                          batch: seq<Token>, mask: array2<bool>)
    reads mask
  {
    && (forall b :: 0 <= b < |batch| ==> |batch[b].seqs| == 1) && |rows| == |now| && head + |batch| <= |was|
    && Placed(was, now, head, batch) && Free(was, head, |batch|) && Opens(now, batch, mask)
    && Written(rows0, rows, head, batch, mask)
  }

  /** The tokens `add` of sequence `s` stand at `at` in the batch, and follow its history. */
  ghost predicate Follows(batch: seq<Token>, s: int, hist: seq<int>, add: seq<int>, at: nat) {
    && at + |add| <= |batch| && (forall b :: 0 <= b < |batch| ==> |batch[b].seqs| == 1)
    && (forall b :: 0 <= b < |batch| ==> (batch[b].seqs[0] == s <==> at <= b < at + |add|))
    && (forall b :: at <= b < at + |add| ==> batch[b].pos == |hist| + b - at && batch[b].id == add[b - at])
  }

  /** The cells that a sequence owns after a batch. */
  lemma EnteredOwns(was: seq<Cell>, now: seq<Cell>, rows0: seq<Row>, rows: seq<Row>, head: nat, batch: seq<Token>,
                    mask: array2<bool>, s: int, hist: seq<int>, add: seq<int>, at: nat)
    requires Tidy(was) && Entered(was, now, rows0, rows, head, batch, mask) && Follows(batch, s, hist, add, at)
    ensures |now| == |was| == |rows0|
    ensures forall i :: 0 <= i < |now| ==>
              (s in now[i].seqs <==> s in was[i].seqs || head + at <= i < head + at + |add|)
    ensures forall i :: 0 <= i < |now| && s in was[i].seqs ==>
              now[i] == was[i] && rows[i] == rows0[i] && !(head <= i < head + |batch|)
    ensures forall i :: head + at <= i < head + at + |add| ==> now[i].pos == |hist| + i - head - at
  {
    hide Opens, Seen;
    forall i | 0 <= i < |now|
      ensures s in now[i].seqs <==> s in was[i].seqs || head + at <= i < head + at + |add|
      ensures s in was[i].seqs ==> now[i] == was[i] && rows[i] == rows0[i] && !(head <= i < head + |batch|)
    {
      assert TidyCell(was[i]);
      if head <= i < head + |batch| {
        var b := i - head;
        assert batch[b].seqs == [batch[b].seqs[0]];
        IdsOne(batch[b].seqs[0]);
        assert batch[b].seqs[0] == s <==> at <= b < at + |add|;
      }
    }
  }

  lemma IdsOne(k: int)
    ensures Ids([k]) == {k}
  {
    assert [k][0] == k;
  }

  /** The row of every new token is made from the history of its sequence: the mask opens exactly the rows of
      the positions before it, and these are made so themselves. */
  lemma {:induction false} RowMade(was: seq<Cell>, now: seq<Cell>, rows0: seq<Row>, rows: seq<Row>, head: nat,
                                   batch: seq<Token>, mask: array2<bool>, s: int, hist: seq<int>, add: seq<int>,
                                   at: nat, k: nat)
    requires Tidy(was) && Entered(was, now, rows0, rows, head, batch, mask) && Follows(batch, s, hist, add, at)
    requires Holds(was, rows0, s, hist) && k < |add|
    ensures rows[head + at + k] == Made(hist + add, |hist| + k)
    decreases k
  {
    hide Seen, MadeBefore;
    EnteredOwns(was, now, rows0, rows, head, batch, mask, s, hist, add, at);
    var h, p, i, end := hist + add, |hist| + k, head + at + k, head + |batch|;
    var b := at + k;
    forall c | 0 <= c < mask.Length1 && mask[b, c] && !(i <= c < end)
      ensures 0 <= now[c].pos < p && rows[c] == Made(h, now[c].pos)
    {
      assert batch[b].seqs[0] in now[c].seqs;
      if s in was[c].seqs {
        MadeEarly(hist, h, was[c].pos);
      } else {
        RowMade(was, now, rows0, rows, head, batch, mask, s, hist, add, at, c - head - at);
      }
    }
    forall q: nat | q < p
      ensures SeesAt(now, mask, b, i, end, q)
    {
      var c;
      if q < |hist| {
        assert Has(was, s, q);
        c :| 0 <= c < |was| && s in was[c].seqs && was[c].pos == q;
      } else {
        c := head + at + q - |hist|;
      }
      assert s in now[c].seqs && now[c].pos == q;
      assert c < mask.Length1;
      assert mask[b, c];
    }
    SeenMade(now, rows, mask, h, p, b, i, end);
    assert rows[i] == Row(batch[i - head].id, batch[i - head].pos, Seen(rows, mask, i - head, i, end));
  }

  /** Token `b` sees a cell with position `q`. */
  ghost predicate SeesAt(cells: seq<Cell>, mask: array2<bool>, b: nat, at: nat, end: nat, q: nat)
    requires b < mask.Length0 && mask.Length1 <= |cells|
    reads mask
  {
    exists c :: 0 <= c < mask.Length1 && mask[b, c] && !(at <= c < end) && cells[c].pos == q
  }

  lemma SeenMade(cells: seq<Cell>, rows: seq<Row>, mask: array2<bool>, hist: seq<int>, p: nat, b: nat, at: nat,
                 end: nat)
    requires b < mask.Length0 && mask.Length1 <= |cells| == |rows| && p <= |hist|
    requires forall c :: 0 <= c < mask.Length1 && mask[b, c] && !(at <= c < end) ==>
               0 <= cells[c].pos < p && rows[c] == Made(hist, cells[c].pos)
    requires forall q: nat :: q < p ==> SeesAt(cells, mask, b, at, end, q)
    ensures Seen(rows, mask, b, at, end) == MadeBefore(hist, p)
  {
    var made := MadeBefore(hist, p);
    forall x | x in Seen(rows, mask, b, at, end)
      ensures x in made
    {
      var c :| 0 <= c < mask.Length1 && mask[b, c] && !(at <= c < end) && x == rows[c];
    }
    forall q | 0 <= q < p
      ensures Made(hist, q) in Seen(rows, mask, b, at, end)
    {
      assert SeesAt(cells, mask, b, at, end, q);
      var c :| 0 <= c < mask.Length1 && mask[b, c] && !(at <= c < end) && cells[c].pos == q;
      assert rows[c] in Seen(rows, mask, b, at, end);
    }
  }

  /** A batch adds the tokens `add` to the history of `s`; they stand at `at` in the batch. */
  lemma PlaceHolds(was: seq<Cell>, now: seq<Cell>, rows0: seq<Row>, rows: seq<Row>, head: nat, batch: seq<Token>,
                   mask: array2<bool>, s: int, hist: seq<int>, add: seq<int>, at: nat)
    requires Tidy(was) && Entered(was, now, rows0, rows, head, batch, mask) && Follows(batch, s, hist, add, at)
    requires Holds(was, rows0, s, hist)
    ensures Holds(now, rows, s, hist + add)
  {
    hide Made, Entered, Follows;
    var h := hist + add;
    EnteredOwns(was, now, rows0, rows, head, batch, mask, s, hist, add, at);
    EnteredFits(was, now, rows0, rows, head, batch, mask, s, hist, add, at);
    forall i | 0 <= i < |now| && s in now[i].seqs
      ensures 0 <= now[i].pos < |h| && rows[i] == Made(h, now[i].pos)
    {
      if s in was[i].seqs {
        MadeEarly(hist, h, was[i].pos);
      } else {
        RowMade(was, now, rows0, rows, head, batch, mask, s, hist, add, at, i - head - at);
      }
    }
    forall p | 0 <= p < |h|
      ensures Has(now, s, p)
    {
      if p < |hist| {
        assert Has(was, s, p);
        var i :| 0 <= i < |was| && s in was[i].seqs && was[i].pos == p;
        assert s in now[i].seqs && now[i].pos == p;
      } else {
        var i := head + at + p - |hist|;
        assert s in now[i].seqs && now[i].pos == p;
      }
    }
  }

  lemma EnteredFits(was: seq<Cell>, now: seq<Cell>, rows0: seq<Row>, rows: seq<Row>, head: nat, batch: seq<Token>,
                    mask: array2<bool>, s: int, hist: seq<int>, add: seq<int>, at: nat)
    requires Entered(was, now, rows0, rows, head, batch, mask) && Follows(batch, s, hist, add, at)
    ensures |rows| == |now| && head + at + |add| <= |now|
  {
  }

  lemma PlaceTidy(was: seq<Cell>, now: seq<Cell>, head: nat, batch: seq<Token>)
    requires Tidy(was) && NoTemps(was) && Placed(was, now, head, batch)
    requires forall b :: 0 <= b < |batch| ==>
               0 <= batch[b].pos < MAX_POS && |batch[b].seqs| == 1 && 0 <= batch[b].seqs[0] < MAX_DECODERS
    ensures Tidy(now) && NoTemps(now)
  {
    forall i | 0 <= i < |now|
      ensures TidyCell(now[i]) && forall k :: k in now[i].seqs ==> 0 <= k < MAX_DECODERS
    {
      assert TidyCell(was[i]);
      if head <= i < head + |batch| {
        var b := batch[i - head];
        assert b.seqs[0] in Ids(b.seqs);
        assert forall k :: k in Ids(b.seqs) ==> k == b.seqs[0];
      }
    }
  }

  // ----- the reshuffle

  /** Who owns a cell after the reshuffle that was owned by `seqs`: a live decoder takes over what
      its parent had, all others keep what they have. */
  ghost predicate Inherits(seqs: set<int>, live: seq<bool>, parent: seq<nat>, k: int)
    requires |parent| == |live|
  {
    if 0 <= k < |live| && live[k] then parent[k] in seqs else k in seqs
  }

  ghost predicate Shuffled(was: Cell, now: Cell, live: seq<bool>, parent: seq<nat>)
    requires |parent| == |live|
  {
    && (forall k :: k in now.seqs <==> Inherits(was.seqs, live, parent, k))
    && (now.seqs != {} ==> now.pos == was.pos) && TidyCell(now)
  }

  /** The first `j` decoders have copied their parents to the temporary ids. */
  ghost predicate Copied(was: Cell, now: Cell, live: seq<bool>, parent: seq<nat>, j: nat)
    requires |parent| == |live| && j <= |live|
  {
    && (forall k :: k in now.seqs <==>
          k in was.seqs || (MAX_DECODERS <= k < MAX_DECODERS + j && live[k - MAX_DECODERS] &&
              parent[k - MAX_DECODERS] in was.seqs))
    && now.pos == was.pos
  }

  /** The first `j` decoders have taken over from the temporary ids. */
  ghost predicate Moved(was: Cell, now: Cell, live: seq<bool>, parent: seq<nat>, j: nat)
    requires |parent| == |live| && j <= |live|
  {
    && (forall k :: k in now.seqs <==> MovedOwner(was.seqs, live, parent, j, k))
    && (now.seqs != {} ==> now.pos == was.pos) && TidyCell(now)
  }

  ghost predicate MovedOwner(seqs: set<int>, live: seq<bool>, parent: seq<nat>, j: nat, k: int)
    requires |parent| == |live| && j <= |live|
  {
    if 0 <= k < |live| && live[k] then (if k < j then parent[k] in seqs else k in seqs)
    else if MAX_DECODERS <= k < MAX_DECODERS + |live| && live[k - MAX_DECODERS] then
      k - MAX_DECODERS >= j && parent[k - MAX_DECODERS] in seqs
    else k in seqs
  }

  ghost predicate NoTempOwner(c: Cell) {
    forall k :: k in c.seqs ==> 0 <= k < MAX_DECODERS
  }

  predicate Family(live: seq<bool>, parent: seq<nat>) {
    && |parent| == |live| <= MAX_DECODERS
    && forall j :: 0 <= j < |live| && live[j] ==> parent[j] < |live| && live[parent[j]]
  }

  lemma CopyCell(was: Cell, c: Cell, live: seq<bool>, parent: seq<nat>, j: nat)
    requires Family(live, parent) && j < |live| && TidyCell(was) && NoTempOwner(was) && Copied(was, c, live, parent, j)
    ensures Copied(was, if live[j] then CpCell(c, parent[j], MAX_DECODERS + j, -1, -1) else c, live, parent, j + 1)
  {
  }

  lemma MoveCell(was: Cell, c: Cell, live: seq<bool>, parent: seq<nat>, j: nat)
    requires Family(live, parent) && j < |live| && live[j] && TidyCell(was) && NoTempOwner(was)
    requires Moved(was, c, live, parent, j)
    ensures var c1 := RmCell(c, j, -1, -1);
            var c2 := CpCell(c1, MAX_DECODERS + j, j, -1, -1);
            Moved(was, RmCell(c2, MAX_DECODERS + j, -1, -1), live, parent, j + 1)
  {
    var c1 := RmCell(c, j, -1, -1);
    assert c1.seqs == c.seqs - {j} && TidyCell(c1) && (c1.seqs != {} ==> c1.pos == was.pos);
    var c2 := CpCell(c1, MAX_DECODERS + j, j, -1, -1);
    if MAX_DECODERS + j in c.seqs {
      assert MAX_DECODERS + j in c1.seqs;
      assert c2.seqs == c.seqs + {j};
    } else {
      assert c2.seqs == c.seqs - {j};
    }
    assert TidyCell(c2) && (c2.seqs != {} ==> c2.pos == was.pos);
    var c3 := RmCell(c2, MAX_DECODERS + j, -1, -1);
    assert c3.seqs == c2.seqs - {MAX_DECODERS + j};
    assert MovedOwner(was.seqs, live, parent, j, MAX_DECODERS + j) == (parent[j] in was.seqs);
    forall k
      ensures k in c3.seqs <==> MovedOwner(was.seqs, live, parent, j + 1, k)
    {
      if k != j && k != MAX_DECODERS + j {
        assert MovedOwner(was.seqs, live, parent, j + 1, k) == MovedOwner(was.seqs, live, parent, j, k);
      }
    }
  }

  lemma CopiedMoved(was: Cell, c: Cell, live: seq<bool>, parent: seq<nat>)
    requires Family(live, parent) && TidyCell(was) && NoTempOwner(was) && Copied(was, c, live, parent, |live|)
    ensures Moved(was, c, live, parent, 0)
  {
    forall k
      ensures k in c.seqs <==> MovedOwner(was.seqs, live, parent, 0, k)
    {
    }
    if c.seqs == {} {
      assert forall k :: k in was.seqs ==> k in c.seqs;
      assert was.seqs == {};
    } else if was.seqs == {} {
      assert forall k :: k !in c.seqs;
      assert false;
    }
  }

  lemma MovedShuffled(was: Cell, c: Cell, live: seq<bool>, parent: seq<nat>)
    requires Family(live, parent) && NoTempOwner(was) && Moved(was, c, live, parent, |live|)
    ensures Shuffled(was, c, live, parent) && NoTempOwner(c)
  {
    forall k
      ensures k in c.seqs <==> Inherits(was.seqs, live, parent, k)
    {
      assert k in c.seqs <==> MovedOwner(was.seqs, live, parent, |live|, k);
    }
  }

  /** The reshuffle of a beam step, through the temporary ids. */
  method Reshuffle(cache: Cache, live: seq<bool>, parent: seq<nat>, ghost top: nat)
    requires cache.Valid() && Tidy(cache.cells[..]) && NoTemps(cache.cells[..]) && Family(live, parent)
    modifies cache`head, cache.cells
    ensures cache.Valid() && Tidy(cache.cells[..]) && NoTemps(cache.cells[..])
    ensures forall i :: 0 <= i < cache.cells.Length ==> Shuffled(old(cache.cells[i]), cache.cells[i], live, parent)
    ensures old(Below(cache.cells[..], cache.head, top)) ==> Below(cache.cells[..], cache.head, top)
  {
    hide Copied, Moved, Shuffled;
    ghost var low := Below(cache.cells[..], cache.head, top);
    var cells := cache.cells;
    ghost var was := cells[..];
    forall i | 0 <= i < cells.Length
      ensures TidyCell(was[i]) && NoTempOwner(was[i]) && Copied(was[i], cells[i], live, parent, 0)
    {
      CopiedNone(was[i], live, parent);
    }
    for j := 0 to |live|
      invariant cache.Valid() && forall i :: 0 <= i < cells.Length ==> Copied(was[i], cells[i], live, parent, j)
      invariant low ==> Below(cells[..], cache.head, top)
    {
      forall i | 0 <= i < cells.Length
        ensures Copied(was[i], if live[j] then CpCell(cells[i], parent[j], MAX_DECODERS + j, -1, -1)
                else cells[i], live, parent, j + 1)
      {
        CopyCell(was[i], cells[i], live, parent, j);
      }
      if live[j] {
        cache.SeqCp(parent[j], MAX_DECODERS + j, -1, -1);
      }
    }
    forall i | 0 <= i < cells.Length
      ensures Moved(was[i], cells[i], live, parent, 0)
    {
      CopiedMoved(was[i], cells[i], live, parent);
    }
    for j := 0 to |live|
      invariant cache.Valid() && forall i :: 0 <= i < cells.Length ==> Moved(was[i], cells[i], live, parent, j)
      invariant low ==> Below(cells[..], cache.head, top)
    {
      if live[j] {
        forall i | 0 <= i < cells.Length
          ensures Moved(was[i], Takeover(cells[i], j), live, parent, j + 1)
        {
          MoveCell(was[i], cells[i], live, parent, j);
        }
        cache.SeqRm(j, -1, -1);
        cache.SeqCp(MAX_DECODERS + j, j, -1, -1);
        cache.SeqRm(MAX_DECODERS + j, -1, -1);
      } else {
        forall i | 0 <= i < cells.Length
          ensures Moved(was[i], cells[i], live, parent, j + 1)
        {
          MovedSkip(was[i], cells[i], live, parent, j);
        }
      }
    }
    forall i | 0 <= i < cells.Length
      ensures Shuffled(was[i], cells[i], live, parent) && NoTempOwner(cells[i]) && TidyCell(cells[i])
    {
      MovedShuffled(was[i], cells[i], live, parent);
      ShuffledTidy(was[i], cells[i], live, parent);
    }
  }

  ghost function Takeover(c: Cell, j: int): Cell {
    RmCell(CpCell(RmCell(c, j, -1, -1), MAX_DECODERS + j, j, -1, -1), MAX_DECODERS + j, -1, -1)
  }

  lemma CopiedNone(was: Cell, live: seq<bool>, parent: seq<nat>)
    requires |parent| == |live|
    ensures Copied(was, was, live, parent, 0)
  {
  }

  lemma MovedSkip(was: Cell, c: Cell, live: seq<bool>, parent: seq<nat>, j: nat)
    requires |parent| == |live| && j < |live| && !live[j] && Moved(was, c, live, parent, j)
    ensures Moved(was, c, live, parent, j + 1)
  {
    forall k
      ensures MovedOwner(was.seqs, live, parent, j + 1, k) == MovedOwner(was.seqs, live, parent, j, k)
    {
    }
  }

  lemma ShuffledTidy(was: Cell, c: Cell, live: seq<bool>, parent: seq<nat>)
    requires |parent| == |live| && Shuffled(was, c, live, parent)
    ensures TidyCell(c)
  {
  }

  /** Afterwards a live decoder holds what its parent held, and every other one what it held itself. */
  lemma ShuffleHolds(was: seq<Cell>, now: seq<Cell>, rows: seq<Row>, live: seq<bool>, parent: seq<nat>, j: nat,
                     hist: seq<int>)
    requires Family(live, parent) && j < |live| && |now| == |was|
    requires forall i :: 0 <= i < |was| ==> Shuffled(was[i], now[i], live, parent)
    requires Holds(was, rows, if live[j] then parent[j] else j, hist)
    ensures Holds(now, rows, j, hist)
  {
    var s := if live[j] then parent[j] else j;
    forall i | 0 <= i < |was|
      ensures (j in now[i].seqs <==> s in was[i].seqs) && (j in now[i].seqs ==> now[i].pos == was[i].pos)
    {
      assert Shuffled(was[i], now[i], live, parent);
      assert j in now[i].seqs <==> Inherits(was[i].seqs, live, parent, j);
    }
    forall p | 0 <= p < |hist|
      ensures Has(now, j, p)
    {
      assert Has(was, s, p);
      var i :| 0 <= i < |was| && s in was[i].seqs && was[i].pos == p;
      assert j in now[i].seqs && now[i].pos == p;
    }
  }
}
