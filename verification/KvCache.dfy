/** The unified key/value cache: a slot allocator shared by all decoders. */
module KvCache {
  const MAX_POS: int := 0x7fff_ffff

  datatype Cell = Cell(pos: int, seqs: set<int>)

  /** A token of a batch: its position, its sequences, and what its key/value row is made from. */
  datatype Token = Token(id: int, pos: int, seqs: seq<int>)

  /** What a key/value row was made from: its token, where the token stands, and the rows that it saw. */
  datatype Row = Row(id: int, pos: int, seen: set<Row>)

  // ----- specification on values

  ghost predicate Free(cells: seq<Cell>, start: nat, n: nat)
    requires start + n <= |cells|
  {
    forall i :: start <= i < start + n ==> cells[i].pos < 0
  }

  /** There are `n` free cells in a row. */
  ghost predicate HasSlot(cells: seq<Cell>, n: nat) {
    exists s :: 0 <= s && s + n <= |cells| && Free(cells, s, n)
  }

  /** No slot for `n` cells starts at `from` or later but before `to`. */
  ghost predicate NoSlot(cells: seq<Cell>, n: nat, from: nat, to: nat) {
    forall s :: from <= s < to && s + n <= |cells| ==> !Free(cells, s, n)
  }

  /** The slot at `found` is the first one from `head` on, or else the first one of all. */
  ghost predicate FirstSlot(cells: seq<Cell>, n: nat, head: nat, found: nat) {
    || (head <= found && NoSlot(cells, n, head, found))
    || (NoSlot(cells, n, head, |cells|) && NoSlot(cells, n, 0, found))
  }

  /** The cells from `top` on have never been used, and the search starts before them. */
  ghost predicate Below(cells: seq<Cell>, head: nat, top: nat) {
    head <= top && forall i :: top <= i < |cells| ==> cells[i] == Cell(-1, {})
  }

  function Ids(seqs: seq<int>): set<int> {
    set k | 0 <= k < |seqs| :: seqs[k]
  }

  /** The cells after a batch has been put at `head`. */
  ghost predicate Placed(was: seq<Cell>, now: seq<Cell>, head: nat, batch: seq<Token>) {
    && |now| == |was| && head + |batch| <= |was|
    && (forall i :: head <= i < head + |batch| ==>
          now[i] == Cell(batch[i - head].pos, was[i].seqs + Ids(batch[i - head].seqs)))
    && (forall i :: 0 <= i < |was| && !(head <= i < head + |batch|) ==> now[i] == was[i])
  }

  function Low(p0: int): int {
    if p0 < 0 then 0 else p0
  }

  function High(p1: int): int {
    if p1 < 0 then MAX_POS else p1
  }

  function RmCell(c: Cell, id: int, p0: int, p1: int): Cell {
    if Low(p0) <= c.pos < High(p1) && (id < 0 || id in c.seqs) then
      var seqs := if id < 0 then {} else c.seqs - {id};
      Cell(if seqs == {} then -1 else c.pos, seqs)
    else c
  }

  /** Removing the sequence frees this cell. */
  predicate Freed(c: Cell, id: int, p0: int, p1: int) {
    Low(p0) <= c.pos < High(p1) && (id < 0 || id in c.seqs) && RmCell(c, id, p0, p1).seqs == {}
  }

  function CpCell(c: Cell, src: int, dst: int, p0: int, p1: int): Cell {
    if src in c.seqs && Low(p0) <= c.pos < High(p1) then c.(seqs := c.seqs + {dst}) else c
  }

  /** Positions are removed and copied from `p0` on and before `p1`; a negative limit is none, and a
      negative sequence stands for all of them. */
  lemma RangeHalfOpen(c: Cell, id: int, dst: int, p0: int, p1: int, s: int)
    requires TidyCell(c)
    ensures var hit := c.pos >= p0 && (p1 < 0 || c.pos < p1);
            && (s in RmCell(c, id, p0, p1).seqs <==> s in c.seqs && !(hit && (id < 0 || s == id)))
            && (s in CpCell(c, id, dst, p0, p1).seqs <==> s in c.seqs || (hit && s == dst && id in c.seqs))
    ensures CpCell(c, id, dst, p0, p1).pos == c.pos
    ensures RmCell(c, id, p0, p1).pos == if RmCell(c, id, p0, p1).seqs == {} then -1 else c.pos
  {
  }

  /** A cell is free exactly when no sequence owns it. */
  ghost predicate TidyCell(c: Cell) {
    (c.pos >= 0 <==> c.seqs != {}) && -1 <= c.pos < MAX_POS
  }

  ghost predicate Tidy(cells: seq<Cell>) {
    forall i :: 0 <= i < |cells| ==> TidyCell(cells[i])
  }

  // ----- the cache

  class Cache {
    const cells: array<Cell>
    const rows: array<Row>    // the key/value row of every cell
    var head: nat

    constructor (size: nat)
      ensures Valid() && fresh(cells) && fresh(rows) && cells.Length == size && Tidy(cells[..]) && head == 0
      ensures forall i :: 0 <= i < size ==> cells[i] == Cell(-1, {})
    {
      cells := new Cell[size](_ => Cell(-1, {}));
      rows := new Row[size](_ => Row(0, -1, {}));
      head := 0;
    }

    ghost predicate Valid()
      reads this
    {
      head <= cells.Length == rows.Length
    }

    method FindSlot(batch: seq<Token>) returns (ok: bool)
      requires Valid()
      modifies this`head, cells
      ensures Valid()
      ensures ok <==> HasSlot(old(cells[..]), |batch|)
      ensures ok ==> head + |batch| <= cells.Length && Free(old(cells[..]), head, |batch|)
      ensures ok ==> FirstSlot(old(cells[..]), |batch|, old(head), head)
      ensures ok ==> Placed(old(cells[..]), cells[..], head, batch)
      ensures !ok ==> cells[..] == old(cells[..])
    {
      var n := |batch|;
      if n > cells.Length {
        return false;
      }
      ghost var start := head;
      ghost var pass := 0;
      var tested := 0;
      while true
        invariant Valid() && cells[..] == old(cells[..]) && 0 <= pass <= 2
        invariant pass == 0 ==> tested == head - start && NoSlot(cells[..], n, start, head)
        invariant pass == 1 ==> tested == cells.Length - start + head
        invariant pass == 1 ==> NoSlot(cells[..], n, start, cells.Length) && NoSlot(cells[..], n, 0, head)
        invariant pass == 2 ==> head == 0 && tested >= cells.Length && NoSlot(cells[..], n, 0, cells.Length)
        decreases if tested < cells.Length then cells.Length - tested else 0, head + n > cells.Length
        modifies this`head
      {
        if head + n > cells.Length {
          tested := tested + cells.Length - head;
          head := 0;
          pass := pass + 1;
          continue;
        }
        var used := FirstUsed(n);
        if used == n {
          break;
        }
        Blocked(cells[..], head, n, used);
        head := head + used + 1;
        tested := tested + used + 1;
        if tested >= cells.Length {
          return false;
        }
      }
      assert Free(cells[..], head, n);
      Place(batch);
      return true;
    }

    /** The first cell in use among the `n` at the head. */
    method FirstUsed(n: nat) returns (i: nat)
      requires Valid() && head + n <= cells.Length
      ensures i <= n && (i < n ==> cells[head + i].pos >= 0)
      ensures i == n ==> Free(cells[..], head, n)
    {
      i := 0;
      while i < n
        invariant i <= n && forall k :: head <= k < head + i ==> cells[k].pos < 0
      {
        if cells[head + i].pos >= 0 {
          return;
        }
        i := i + 1;
      }
    }

    method Place(batch: seq<Token>)
      requires Valid() && head + |batch| <= cells.Length
      modifies cells
      ensures Placed(old(cells[..]), cells[..], head, batch)
    {
      for i := 0 to |batch|
        invariant forall k :: head <= k < head + i ==>
                    cells[k] == Cell(batch[k - head].pos, old(cells[k]).seqs + Ids(batch[k - head].seqs))
        invariant forall k :: 0 <= k < cells.Length && !(head <= k < head + i) ==> cells[k] == old(cells[k])
      {
        var seqs := cells[head + i].seqs;
        var ids := batch[i].seqs;
        for j := 0 to |ids|
          invariant seqs == cells[head + i].seqs + Ids(ids[..j])
          modifies {}
        {
          assert ids[..j + 1] == ids[..j] + [ids[j]];
          seqs := seqs + {ids[j]};
        }
        assert ids[..|ids|] == ids;
        cells[head + i] := Cell(batch[i].pos, seqs);
      }
    }

    method Clear()
      requires Valid()
      modifies this`head, cells
      ensures Valid() && head == 0 && forall i :: 0 <= i < cells.Length ==> cells[i] == Cell(-1, {})
    {
      for i := 0 to cells.Length
        invariant forall k :: 0 <= k < i ==> cells[k] == Cell(-1, {})
      {
        cells[i] := Cell(-1, {});
      }
      head := 0;
    }

    method SeqRm(id: int, p0: int, p1: int)
      requires Valid()
      modifies this`head, cells
      ensures Valid() && forall i :: 0 <= i < cells.Length ==> cells[i] == RmCell(old(cells[i]), id, p0, p1)
      ensures if exists i :: 0 <= i < cells.Length && Freed(old(cells[i]), id, p0, p1)
              then head < cells.Length && Freed(old(cells[..])[head], id, p0, p1) &&
                   forall i :: 0 <= i < head ==> !Freed(old(cells[i]), id, p0, p1)
              else head == old(head)
    {
      var size := cells.Length;
      var newHead: nat := size;
      var lo := if p0 < 0 then 0 else p0;
      var hi := if p1 < 0 then MAX_POS else p1;
      for i := 0 to size
        invariant Valid() && head == old(head)
        invariant forall k :: 0 <= k < i ==> cells[k] == RmCell(old(cells[k]), id, p0, p1)
        invariant forall k :: i <= k < size ==> cells[k] == old(cells[k])
        invariant newHead <= size && forall k :: 0 <= k < i && k < newHead ==> !Freed(old(cells[k]), id, p0, p1)
        invariant newHead < size ==> newHead < i && Freed(old(cells[..])[newHead], id, p0, p1)
      {
        if lo <= cells[i].pos < hi {
          if id < 0 {
            cells[i] := cells[i].(seqs := {});
          } else if id in cells[i].seqs {
            cells[i] := cells[i].(seqs := cells[i].seqs - {id});
          } else {
            continue;
          }
          if cells[i].seqs == {} {
            cells[i] := cells[i].(pos := -1);
            if newHead == size {
              newHead := i;
            }
          }
        }
      }
      if newHead != size {
        head := newHead;
      }
    }

    method SeqCp(src: int, dst: int, p0: int, p1: int)
      requires Valid()
      modifies this`head, cells
      ensures Valid() && head == 0
      ensures forall i :: 0 <= i < cells.Length ==> cells[i] == CpCell(old(cells[i]), src, dst, p0, p1)
    {
      var lo := if p0 < 0 then 0 else p0;
      var hi := if p1 < 0 then MAX_POS else p1;
      head := 0;
      for i := 0 to cells.Length
        invariant Valid() && head == 0
        invariant forall k :: 0 <= k < i ==> cells[k] == CpCell(old(cells[k]), src, dst, p0, p1)
        invariant forall k :: i <= k < cells.Length ==> cells[k] == old(cells[k])
      {
        if src in cells[i].seqs && lo <= cells[i].pos < hi {
          cells[i] := cells[i].(seqs := cells[i].seqs + {dst});
        }
      }
    }

    /** One more than the last cell in use; cell 0 always counts. */
    method CellMax() returns (r: nat)
      requires Valid() && cells.Length > 0
      ensures 1 <= r <= cells.Length && forall i :: r <= i < cells.Length ==> cells[i].pos < 0 || cells[i].seqs == {}
      ensures r > 1 ==> cells[r - 1].pos >= 0 && cells[r - 1].seqs != {}
    {
      var i := cells.Length - 1;
      while i > 0
        invariant 0 <= i < cells.Length
        invariant forall k :: i < k < cells.Length ==> cells[k].pos < 0 || cells[k].seqs == {}
      {
        if cells[i].pos >= 0 && cells[i].seqs != {} {
          return i + 1;
        }
        i := i - 1;
      }
      return 1;
    }

    /** Write the key/value rows of a batch at the head, each from its token and the rows that the mask is
        open to. */
    method WriteRows(batch: seq<Token>, mask: array2<bool>)
      requires Valid() && head + |batch| <= rows.Length && mask.Length0 == |batch| && mask.Length1 <= rows.Length
      modifies rows
      ensures Written(old(rows[..]), rows[..], head, batch, mask)
    {
      var end := head + |batch|;
      for b := 0 to |batch|
        invariant forall k :: head <= k < head + b ==>
                    rows[k] == Row(batch[k - head].id, batch[k - head].pos, Seen(rows[..], mask, k - head, k, end))
        invariant forall k :: 0 <= k < rows.Length && !(head <= k < head + b) ==> rows[k] == old(rows[k])
      {
        ghost var was := rows[..];
        var at := head + b;
        var seen := set k | 0 <= k < mask.Length1 && mask[b, k] && !(at <= k < end) :: rows[k];
        rows[at] := Row(batch[b].id, batch[b].pos, seen);
        assert seen == Seen(was, mask, b, at, end);
        forall k | head <= k <= at
          ensures rows[k] == Row(batch[k - head].id, batch[k - head].pos, Seen(rows[..], mask, k - head, k, end))
        {
          SeenSame(was, rows[..], mask, k - head, k, end);
        }
      }
    }
  }

  /** The rows that token `b` of a batch sees: those of the batch itself as far as they are made, which are
      those before its own at `at`. */
  ghost function Seen(rows: seq<Row>, mask: array2<bool>, b: nat, at: nat, end: nat): set<Row>
    requires b < mask.Length0 && mask.Length1 <= |rows|
    reads mask
  {
    set k | 0 <= k < mask.Length1 && mask[b, k] && !(at <= k < end) :: rows[k]
  }

  lemma SeenSame(was: seq<Row>, now: seq<Row>, mask: array2<bool>, b: nat, at: nat, end: nat)
    requires b < mask.Length0 && mask.Length1 <= |was| == |now|
    requires forall k :: 0 <= k < |was| && !(at <= k < end) ==> now[k] == was[k]
    ensures Seen(now, mask, b, at, end) == Seen(was, mask, b, at, end)
  {
  }

  ghost predicate Written(was: seq<Row>, now: seq<Row>, head: nat, batch: seq<Token>, mask: array2<bool>)
    requires mask.Length0 == |batch| && mask.Length1 <= |now|
    reads mask
  {
    && |now| == |was| && head + |batch| <= |was|
    && (forall i :: head <= i < head + |batch| ==>
          now[i] == Row(batch[i - head].id, batch[i - head].pos, Seen(now, mask, i - head, i, head + |batch|)))
    && (forall i :: 0 <= i < |was| && !(head <= i < head + |batch|) ==> now[i] == was[i])
  }

  /** Below unused cells there is always a slot, and it does not reach far into them. */
  lemma SlotBelow(cells: seq<Cell>, head: nat, top: nat, n: nat)
    requires Below(cells, head, top) && top + n <= |cells|
    ensures HasSlot(cells, n)
    ensures forall s :: 0 <= s && s + n <= |cells| && Free(cells, s, n) && FirstSlot(cells, n, head, s) ==> s <= top
  {
    assert Free(cells, top, n);
  }

  lemma BelowMore(cells: seq<Cell>, head: nat, top: nat, higher: nat)
    requires Below(cells, head, top) && top <= higher
    ensures Below(cells, head, higher)
  {
  }

  lemma PlacedBelow(was: seq<Cell>, now: seq<Cell>, head: nat, top: nat, batch: seq<Token>)
    requires Below(was, 0, top) && Placed(was, now, head, batch) && head <= top
    ensures Below(now, head, top + |batch|)
  {
  }

  /** A used cell rules out every slot that contains it. */
  lemma Blocked(cells: seq<Cell>, head: nat, n: nat, used: nat)
    requires used < n && head + n <= |cells| && cells[head + used].pos >= 0
    ensures forall s :: head <= s <= head + used && s + n <= |cells| ==> !Free(cells, s, n)
  {
  }
}
