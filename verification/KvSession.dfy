/** A decoding attempt over the shared cache: the prompt, then rounds of sampling and extending. */
module KvSession {
  import opened KvCache
  import opened KvBeam

  // ----- the attention mask

  predicate Padding(pad: nat) {
    pad == 1 || pad == 32 || pad == 256
  }

  /** `n` rounded up to a multiple of the padding. */
  function Padded(n: nat, pad: nat): (r: nat)
    requires Padding(pad)
    ensures r % pad == 0 && n <= r < n + pad
  {
    if pad == 1 then n else if pad == 32 then (n + 31) / 32 * 32 else (n + 255) / 256 * 256
  }

  /** How many cells the attention looks at: all that are in use. */
  method Width(cache: Cache, pad: nat) returns (n: nat)
    requires cache.Valid() && cache.cells.Length > 0 && Padding(pad)
    ensures 0 < n <= cache.cells.Length
    ensures Tidy(cache.cells[..]) ==> forall i :: n <= i < cache.cells.Length ==> cache.cells[i].seqs == {}
  {
    var used := cache.CellMax();
    var wide := Padded(used, pad);
    if wide < pad {
      wide := pad;
    }
    n := if cache.cells.Length < wide then cache.cells.Length else wide;
    if Tidy(cache.cells[..]) {
      forall i | n <= i < cache.cells.Length
        ensures cache.cells[i].seqs == {}
      {
        assert TidyCell(cache.cells[..][i]);
      }
    }
  }

  /** The mask: `true` where a token may look. The rows past the batch are closed. */
  method Mask(cache: Cache, batch: seq<Token>, n: nat, height: nat) returns (mask: array2<bool>)
    requires cache.Valid() && n <= cache.cells.Length && |batch| <= height
    requires forall b :: 0 <= b < |batch| ==> |batch[b].seqs| > 0
    ensures fresh(mask) && mask.Length0 == height && mask.Length1 == n
    ensures forall b, i :: 0 <= b < height && 0 <= i < n ==>
              (mask[b, i] <==>
               b < |batch| && batch[b].seqs[0] in cache.cells[i].seqs && cache.cells[i].pos <= batch[b].pos)
  {
    mask := new bool[height, n]((_, _) => true);
    for b := 0 to |batch|
      modifies mask
      invariant forall c, i :: 0 <= c < b && 0 <= i < n ==>
                  (mask[c, i] <==> batch[c].seqs[0] in cache.cells[i].seqs && cache.cells[i].pos <= batch[c].pos)
      invariant forall c, i :: b <= c < height && 0 <= i < n ==> mask[c, i]
    {
      for i := 0 to n
        modifies mask
        invariant forall c, k :: 0 <= c < b && 0 <= k < n ==>
                    (mask[c, k] <==> batch[c].seqs[0] in cache.cells[k].seqs && cache.cells[k].pos <= batch[c].pos)
        invariant forall k :: 0 <= k < i ==>
                    (mask[b, k] <==> batch[b].seqs[0] in cache.cells[k].seqs && cache.cells[k].pos <= batch[b].pos)
        invariant forall k :: i <= k < n ==> mask[b, k]
        invariant forall c, k :: b < c < height && 0 <= k < n ==> mask[c, k]
      {
        if batch[b].seqs[0] !in cache.cells[i].seqs || cache.cells[i].pos > batch[b].pos {
          mask[b, i] := false;
        }
      }
    }
    for b := |batch| to height
      modifies mask
      invariant forall c, i :: 0 <= c < |batch| && 0 <= i < n ==>
                  (mask[c, i] <==> batch[c].seqs[0] in cache.cells[i].seqs && cache.cells[i].pos <= batch[c].pos)
      invariant forall c, i :: |batch| <= c < b && 0 <= i < n ==> !mask[c, i]
    {
      for i := 0 to n
        modifies mask
        invariant forall c, k :: 0 <= c < |batch| && 0 <= k < n ==>
                    (mask[c, k] <==> batch[c].seqs[0] in cache.cells[k].seqs && cache.cells[k].pos <= batch[c].pos)
        invariant forall c, k :: |batch| <= c < b && 0 <= k < n ==> !mask[c, k]
        invariant forall k :: 0 <= k < i ==> !mask[b, k]
      {
        mask[b, i] := false;
      }
    }
  }

  /** A token at position `p` of sequence `s` sees its own history up to itself: for every position
      up to `p` exactly one cell, with the row that the history makes there, and nothing else. */
  ghost predicate SeesHistory(cells: seq<Cell>, rows: seq<Row>, open: seq<bool>, hist: seq<int>, p: nat)
    requires p < |hist|
  {
    && |open| <= |cells| == |rows|
    && (forall i :: 0 <= i < |open| && open[i] ==> 0 <= cells[i].pos <= p && rows[i] == Made(hist, cells[i].pos))
    && (forall i, j :: 0 <= i < j < |open| && open[i] && open[j] ==> cells[i].pos != cells[j].pos)
    && (forall q :: 0 <= q <= p ==> OpenAt(cells, open, q))
  }

  ghost predicate OpenAt(cells: seq<Cell>, open: seq<bool>, q: nat) {
    exists i :: 0 <= i < |open| && i < |cells| && open[i] && cells[i].pos == q
  }

  lemma MaskExact(cells: seq<Cell>, rows: seq<Row>, open: seq<bool>, s: int, hist: seq<int>, p: nat)
    requires Holds(cells, rows, s, hist) && p < |hist| && |open| <= |cells|
    requires forall i :: |open| <= i < |cells| ==> cells[i].seqs == {}
    requires forall i :: 0 <= i < |open| ==> (open[i] <==> s in cells[i].seqs && cells[i].pos <= p)
    ensures SeesHistory(cells, rows, open, hist, p)
  {
    forall q | 0 <= q <= p
      ensures OpenAt(cells, open, q)
    {
      assert Has(cells, s, q);
      var i :| 0 <= i < |cells| && s in cells[i].seqs && cells[i].pos == q;
      assert open[i];
    }
  }

  // ----- a batch

  /** Put a batch into the cache and open the mask of its tokens. */
  method Evaluate(cache: Cache, batch: seq<Token>, pad: nat, ghost top: nat) returns (ok: bool, mask: array2?<bool>)
    requires cache.Valid() && cache.cells.Length > 0 && Tidy(cache.cells[..]) && NoTemps(cache.cells[..])
    requires Padding(pad)
    requires forall b :: 0 <= b < |batch| ==>
               0 <= batch[b].pos < MAX_POS && |batch[b].seqs| == 1 && 0 <= batch[b].seqs[0] < MAX_DECODERS
    modifies cache`head, cache.cells, cache.rows
    ensures cache.Valid() && Tidy(cache.cells[..]) && NoTemps(cache.cells[..])
    ensures (ok <==> HasSlot(old(cache.cells[..]), |batch|)) && (!ok ==> cache.cells[..] == old(cache.cells[..]))
    ensures ok ==> mask != null && mask.Length0 == |batch| && Opens(cache.cells[..], batch, mask)
    ensures ok ==>
              Entered(old(cache.cells[..]), cache.cells[..], old(cache.rows[..]), cache.rows[..], cache.head, batch,
                      mask)
    ensures old(Below(cache.cells[..], cache.head, top)) && top + |batch| <= cache.cells.Length ==>
              ok && Below(cache.cells[..], cache.head, top + |batch|)
  {
    ghost var low := Below(cache.cells[..], cache.head, top) && top + |batch| <= cache.cells.Length;
    if low {
      SlotBelow(cache.cells[..], cache.head, top, |batch|);
    }
    ok := cache.FindSlot(batch);
    if !ok {
      return false, null;
    }
    PlaceTidy(old(cache.cells[..]), cache.cells[..], cache.head, batch);
    if low {
      PlacedBelow(old(cache.cells[..]), cache.cells[..], cache.head, top, batch);
    }
    var width := Width(cache, pad);
    mask := Mask(cache, batch, width, |batch|);
    cache.WriteRows(batch, mask);
  }

  /** Row `b` of the mask. */
  ghost function MaskRow(mask: array2<bool>, b: nat): seq<bool>
    requires b < mask.Length0
    reads mask
  {
    seq(mask.Length1, i requires 0 <= i < mask.Length1 reads mask => mask[b, i])
  }

  lemma ClearSlot(cells: seq<Cell>, n: nat)
    requires forall i :: 0 <= i < |cells| ==> cells[i] == Cell(-1, {})
    ensures HasSlot(cells, n) <==> n <= |cells|
    ensures Tidy(cells) && NoTemps(cells)
  {
    if n <= |cells| {
      assert Free(cells, 0, n);
    }
  }

  lemma PromptHolds(was: seq<Cell>, now: seq<Cell>, rows0: seq<Row>, rows: seq<Row>, head: nat, prompt: seq<int>,
                    batch: seq<Token>, mask: array2<bool>)
    requires (forall i :: 0 <= i < |was| ==> was[i] == Cell(-1, {})) && |rows0| == |was|
    requires |batch| == |prompt| && forall b :: 0 <= b < |batch| ==> batch[b] == Token(prompt[b], b, [0])
    requires Entered(was, now, rows0, rows, head, batch, mask)
    ensures Holds(now, rows, 0, prompt) && forall i, k :: 0 <= i < |now| && k in now[i].seqs ==> k == 0
  {
    IdsOne(0);
    PlaceHolds(was, now, rows0, rows, head, batch, mask, 0, [], prompt, 0);
    assert [] + prompt == prompt;
  }

  lemma RowSees(cells: seq<Cell>, rows: seq<Row>, batch: seq<Token>, mask: array2<bool>, b: nat, hist: seq<int>)
    requires b < |batch| && (forall c :: 0 <= c < |batch| ==> |batch[c].seqs| == 1) && Opens(cells, batch, mask)
    requires Holds(cells, rows, batch[b].seqs[0], hist) && 0 <= batch[b].pos < |hist|
    ensures SeesHistory(cells, rows, MaskRow(mask, b), hist, batch[b].pos)
  {
    hide Holds;
    MaskExact(cells, rows, MaskRow(mask, b), batch[b].seqs[0], hist, batch[b].pos);
  }

  /** A copy of sequence 0 holds what sequence 0 holds; all others keep what they hold. */
  lemma CopyHolds(was: seq<Cell>, now: seq<Cell>, rows: seq<Row>, j: nat, prompt: seq<int>)
    requires Tidy(was) && NoTemps(was) && 0 < j < MAX_DECODERS && |now| == |was|
    requires forall i :: 0 <= i < |was| ==> now[i] == CpCell(was[i], 0, j, -1, -1)
    requires forall i, k :: 0 <= i < |was| && k in was[i].seqs ==> k < j
    requires forall k :: 0 <= k < j ==> Holds(was, rows, k, prompt)
    ensures Tidy(now) && NoTemps(now) && forall k :: 0 <= k <= j ==> Holds(now, rows, k, prompt)
    ensures forall i, k :: 0 <= i < |now| && k in now[i].seqs ==> k <= j
  {
    assert forall i :: 0 <= i < |was| ==> TidyCell(was[i]);
    forall k | 0 <= k <= j
      ensures Holds(now, rows, k, prompt)
    {
      var s := if k == j then 0 else k;
      assert Holds(was, rows, s, prompt);
      assert forall i :: 0 <= i < |was| ==> (k in now[i].seqs <==> s in was[i].seqs) && now[i].pos == was[i].pos;
      forall p | 0 <= p < |prompt|
        ensures Has(now, k, p)
      {
        assert Has(was, s, p);
        var i :| 0 <= i < |was| && s in was[i].seqs && was[i].pos == p;
        assert k in now[i].seqs && now[i].pos == p;
      }
    }
  }

  lemma SamePositions(was: seq<Cell>, now: seq<Cell>, rows: seq<Row>, open: seq<bool>, hist: seq<int>, p: nat)
    requires p < |hist| && |now| == |was| && (forall i :: 0 <= i < |was| ==> now[i].pos == was[i].pos)
    requires SeesHistory(was, rows, open, hist, p)
    ensures SeesHistory(now, rows, open, hist, p)
  {
    forall q | 0 <= q <= p
      ensures OpenAt(now, open, q)
    {
      assert OpenAt(was, open, q);
    }
  }

  // ----- the decoders

  /** What one round draws from the sampler: every decoder's parent and token, and who ends. */
  datatype Round = Round(parent: seq<nat>, token: seq<int>, ends: seq<bool>)

  predicate RoundOk(r: Round, n: nat, live: seq<bool>, beam: bool) {
    && |r.parent| == |r.token| == |r.ends| == n == |live|
    && (beam ==> Family(live, r.parent))
  }

  function Front(s: seq<int>): seq<int> {
    if s == [] then [] else s[..|s| - 1]
  }

  class Session {
    const cache: Cache
    const prompt: seq<int>
    const n: nat
    var live: seq<bool>
    var tokens: seq<seq<int>>

    /** What decoder `j` has in the cache: all its tokens, or all but the last one. */
    ghost function History(j: nat, full: bool): seq<int>
      requires j < |tokens|
      reads this
    {
      prompt + if full then tokens[j] else Front(tokens[j])
    }

    ghost predicate Valid()
      reads this, cache, cache.cells, cache.rows
    {
      && cache.Valid() && cache.cells.Length > 0 && Tidy(cache.cells[..]) && NoTemps(cache.cells[..])
      && 0 < n <= MAX_DECODERS && n == |live| == |tokens|
    }

    ghost predicate Fits()
      reads this, cache
    {
      cache.Valid() && cache.cells.Length > 0 && 0 < n <= MAX_DECODERS
    }

    /** The cache holds the history of every decoder: `full[j]` says whether with the last token. */
    ghost predicate Cached(full: seq<bool>)
      requires |full| == |tokens|
      reads this, cache, cache.cells, cache.rows
    {
      forall j :: 0 <= j < |tokens| ==> Holds(cache.cells[..], cache.rows[..], j, History(j, full[j]))
    }

    /** Between rounds: live decoders have `i` tokens, all of them in the cache. */
    ghost predicate Between(i: nat)
      reads this, cache, cache.cells, cache.rows
    {
      Valid() && Cached(live) && forall j :: 0 <= j < n && live[j] ==> |tokens[j]| == i
    }

    constructor (cache: Cache, prompt: seq<int>, n: nat)
      requires cache.Valid() && cache.cells.Length > 0 && 0 < n <= MAX_DECODERS
      ensures this.cache == cache && this.prompt == prompt && this.n == n
      ensures live == seq(n, _ => true) && tokens == seq(n, _ => [])
    {
      this.cache, this.prompt, this.n := cache, prompt, n;
      live, tokens := seq(n, _ => true), seq(n, _ => []);
    }

    /** Clear the cache, evaluate the prompt as decoder 0 and share it with all decoders. */
    method Prime(pad: nat) returns (ok: bool, mask: array2?<bool>)
      requires Fits() && |prompt| < MAX_POS && Padding(pad)
      modifies this, cache, cache.cells, cache.rows
      ensures cache.Valid() && (ok <==> |prompt| <= cache.cells.Length)
      ensures live == seq(n, _ => true) && tokens == seq(n, _ => []) && (ok ==> Between(0))
      ensures ok ==> Below(cache.cells[..], cache.head, |prompt|)
      ensures ok ==> mask != null && mask.Length0 == |prompt|
      ensures ok ==> forall p :: 0 <= p < |prompt| ==>
                SeesHistory(cache.cells[..], cache.rows[..], MaskRow(mask, p), prompt, p)
    {
      hide Opens, Holds, SeesHistory, Entered;
      live, tokens := seq(n, _ => true), seq(n, _ => []);
      cache.Clear();
      ghost var c0, r0 := cache.cells[..], cache.rows[..];
      var batch := seq(|prompt|, b requires 0 <= b < |prompt| => Token(prompt[b], b, [0]));
      ClearSlot(c0, |prompt|);
      ok, mask := Evaluate(cache, batch, pad, 0);
      if !ok {
        return;
      }
      PromptHolds(c0, cache.cells[..], r0, cache.rows[..], cache.head, prompt, batch, mask);
      forall p | 0 <= p < |prompt|
        ensures SeesHistory(cache.cells[..], cache.rows[..], MaskRow(mask, p), prompt, p)
      {
        RowSees(cache.cells[..], cache.rows[..], batch, mask, p, prompt);
      }
      for j := 1 to n
        modifies cache`head, cache.cells
        invariant cache.Valid() && Tidy(cache.cells[..]) && NoTemps(cache.cells[..])
        invariant forall k :: 0 <= k < j ==> Holds(cache.cells[..], cache.rows[..], k, prompt)
        invariant forall i, k :: 0 <= i < cache.cells.Length && k in cache.cells[i].seqs ==> k < j
        invariant Below(cache.cells[..], cache.head, |prompt|)
        invariant forall p :: 0 <= p < |prompt| ==>
                    SeesHistory(cache.cells[..], cache.rows[..], MaskRow(mask, p), prompt, p)
      {
        ghost var was := cache.cells[..];
        cache.SeqCp(0, j, -1, -1);
        ghost var now := cache.cells[..];
        CopyHolds(was, now, cache.rows[..], j, prompt);
        forall p | 0 <= p < |prompt|
          ensures SeesHistory(now, cache.rows[..], MaskRow(mask, p), prompt, p)
        {
          SamePositions(was, now, cache.rows[..], MaskRow(mask, p), prompt, p);
        }
      }
      forall j | 0 <= j < n
        ensures Holds(cache.cells[..], cache.rows[..], j, History(j, live[j]))
      {
        assert History(j, live[j]) == prompt;
      }
    }

    /** Sample a token for every live decoder; with a beam, each goes on from its parent. */
    method Sample(r: Round, beam: bool, ghost i: nat, ghost top: nat)
      requires Between(i) && RoundOk(r, n, live, beam)
      modifies this`tokens, cache`head, cache.cells
      ensures Valid() && Cached(seq(n, _ => false))
      ensures forall j :: 0 <= j < n && live[j] ==>
                |tokens[j]| == i + 1 && tokens[j] == old(tokens)[if beam then r.parent[j] else j] + [r.token[j]]
      ensures forall j :: 0 <= j < n && !live[j] ==> tokens[j] == old(tokens)[j]
      ensures old(Below(cache.cells[..], cache.head, top)) ==> Below(cache.cells[..], cache.head, top)
    {
      hide Holds, Shuffled;
      ghost var was := cache.cells[..];
      if beam {
        Reshuffle(cache, live, r.parent, top);
      }
      ghost var before := tokens;
      var next := tokens;
      for j := 0 to n
        modifies {}
        invariant |next| == n
        invariant forall k :: 0 <= k < j && live[k] ==>
                    next[k] == before[if beam then r.parent[k] else k] + [r.token[k]]
        invariant forall k :: 0 <= k < n && !(k < j && live[k]) ==> next[k] == before[k]
      {
        if live[j] {
          next := next[j := tokens[if beam then r.parent[j] else j] + [r.token[j]]];
        }
      }
      tokens := next;
      forall j | 0 <= j < n
        ensures Holds(cache.cells[..], cache.rows[..], j, History(j, false))
      {
        SampleHolds(was, cache.cells[..], cache.rows[..], live, r, beam, prompt, before, tokens, j);
      }
    }

    /** The last token of every live decoder as a batch, and where in it each of them is. */
    method Collect(i: nat) returns (batch: seq<Token>, at: seq<nat>)
      requires n == |live| == |tokens| && forall j :: 0 <= j < n && live[j] ==> |tokens[j]| == i + 1
      ensures |at| == n && |batch| == LiveCount(live, n)
      ensures forall j :: 0 <= j < n && live[j] ==> at[j] < |batch| && batch[at[j]] == Next(j, i)
      ensures forall b :: 0 <= b < |batch| ==>
                |batch[b].seqs| == 1 && 0 <= batch[b].seqs[0] < n && live[batch[b].seqs[0]] &&
                at[batch[b].seqs[0]] == b && batch[b] == Next(batch[b].seqs[0], i)
    {
      batch := [];
      at := seq(n, _ => 0);
      for j := 0 to n
        invariant |at| == n && |batch| == LiveCount(live, j)
        invariant forall k :: 0 <= k < j && live[k] ==> at[k] < |batch| && batch[at[k]] == Next(k, i)
        invariant forall b :: 0 <= b < |batch| ==>
                    |batch[b].seqs| == 1 && 0 <= batch[b].seqs[0] < j && live[batch[b].seqs[0]] &&
                    at[batch[b].seqs[0]] == b && batch[b] == Next(batch[b].seqs[0], i)
      {
        if live[j] {
          at := at[j := |batch|];
          batch := batch + [Token(tokens[j][|tokens[j]| - 1], |prompt| + i, [j])];
        }
      }
    }

    lemma BetweenValid(k: nat)
      requires Between(k)
      ensures Valid()
    {
    }

    /** When no decoder is left, nothing more has to be in the cache. */
    lemma NoneLeft(k: nat)
      requires Valid() && Cached(seq(n, _ => false)) && forall j :: 0 <= j < n ==> !live[j]
      ensures Between(k)
    {
      assert live == seq(n, _ => false);
    }

    /** Evaluate the last token of every live decoder. */
    method Extend(pad: nat, i: nat, ghost top: nat) returns (ok: bool, mask: array2?<bool>, at: seq<nat>)
      requires Valid() && Cached(seq(n, _ => false)) && Padding(pad) && |prompt| + i < MAX_POS
      requires forall j :: 0 <= j < n && live[j] ==> |tokens[j]| == i + 1
      modifies cache`head, cache.cells, cache.rows
      ensures Valid() && |at| == n
      ensures ok <==> HasSlot(old(cache.cells[..]), LiveCount(live, n))
      ensures !ok ==> cache.cells[..] == old(cache.cells[..])
      ensures ok ==> Between(i + 1) && mask != null
      ensures ok ==> forall j :: 0 <= j < n && live[j] ==>
                at[j] < mask.Length0 &&
                SeesHistory(cache.cells[..], cache.rows[..], MaskRow(mask, at[j]), prompt + tokens[j], |prompt| + i)
      ensures old(Below(cache.cells[..], cache.head, top)) && top + n <= cache.cells.Length ==>
                ok && Below(cache.cells[..], cache.head, top + n)
    {
      hide Opens, Holds, SeesHistory, Entered, HasSlot, Below;
      LiveAtMost(live, n);
      ghost var c0, r0 := cache.cells[..], cache.rows[..];
      var batch;
      batch, at := Collect(i);
      ok, mask := Evaluate(cache, batch, pad, top);
      if !ok {
        return;
      }
      if Below(cache.cells[..], cache.head, top + |batch|) {
        BelowMore(cache.cells[..], cache.head, top + |batch|, top + n);
      }
      forall j | 0 <= j < n
        ensures Holds(cache.cells[..], cache.rows[..], j, History(j, live[j]))
      {
        assert Holds(c0, r0, j, History(j, seq(n, _ => false)[j]));
        assert live[j] ==> History(j, true) == History(j, false) + [tokens[j][i]];
        BatchHolds(c0, cache.cells[..], r0, cache.rows[..], cache.head, batch, mask, j, History(j, false),
                   if live[j] then [tokens[j][i]] else [], at[j]);
        assert History(j, false) + [] == History(j, false);
      }
      forall j | 0 <= j < n && live[j]
        ensures SeesHistory(cache.cells[..], cache.rows[..], MaskRow(mask, at[j]), prompt + tokens[j], |prompt| + i)
      {
        assert Holds(cache.cells[..], cache.rows[..], j, History(j, live[j]));
        RowSees(cache.cells[..], cache.rows[..], batch, mask, at[j], prompt + tokens[j]);
      }
    }

    /** The token that decoder `j` puts into the batch of round `i`. */
    ghost function Next(j: nat, i: nat): Token
      requires j < |tokens| && |tokens[j]| == i + 1
      reads this
    {
      Token(tokens[j][i], |prompt| + i, [j])
    }

    /** The decoders for which the round is the last one stop. */
    method Finish(r: Round)
      requires Valid() && |r.ends| == n
      modifies this`live
      ensures Valid() && forall j :: 0 <= j < n ==> (live[j] <==> old(live)[j] && !r.ends[j])
      ensures forall full: seq<bool> :: |full| == n && old(Cached(full)) ==> Cached(full)
    {
      for j := 0 to n
        invariant Valid() && forall full: seq<bool> :: |full| == n && old(Cached(full)) ==> Cached(full)
        invariant forall k :: 0 <= k < n ==> (live[k] <==> old(live)[k] && !(k < j && r.ends[k]))
      {
        if r.ends[j] {
          live := live[j := false];
        }
      }
    }
  }

  lemma SampleHolds(was: seq<Cell>, now: seq<Cell>, rows: seq<Row>, live: seq<bool>, r: Round, beam: bool,
                    prompt: seq<int>, before: seq<seq<int>>, next: seq<seq<int>>, j: nat)
    requires RoundOk(r, |live|, live, beam) && j < |live| == |before| == |next| && |now| == |was|
    requires if beam then forall i :: 0 <= i < |was| ==> Shuffled(was[i], now[i], live, r.parent) else now == was
    requires forall k :: 0 <= k < |live| ==>
               Holds(was, rows, k, prompt + if live[k] then before[k] else Front(before[k]))
    requires next[j] == if live[j] then before[if beam then r.parent[j] else j] + [r.token[j]] else before[j]
    ensures Holds(now, rows, j, prompt + Front(next[j]))
  {
    hide Holds, Shuffled;
    var s := if beam && live[j] then r.parent[j] else j;
    assert Holds(was, rows, s, prompt + if live[s] then before[s] else Front(before[s]));
    if live[j] {
      assert Front(next[j]) == before[s];
    }
    if beam {
      ShuffleHolds(was, now, rows, live, r.parent, j, prompt + Front(next[j]));
    }
  }

  function LiveCount(live: seq<bool>, n: nat): nat
    requires n <= |live|
  {
    if n == 0 then 0 else LiveCount(live, n - 1) + if live[n - 1] then 1 else 0
  }

  lemma {:induction false} LiveAtMost(live: seq<bool>, n: nat)
    requires n <= |live|
    ensures LiveCount(live, n) <= n
  {
    if n > 0 {
      LiveAtMost(live, n - 1);
    }
  }

  /** The effect of a batch with one token per live decoder on one decoder. */
  lemma BatchHolds(was: seq<Cell>, now: seq<Cell>, rows0: seq<Row>, rows: seq<Row>, head: nat, batch: seq<Token>,
                   mask: array2<bool>, s: int, hist: seq<int>, add: seq<int>, at: nat)
    requires Tidy(was) && Entered(was, now, rows0, rows, head, batch, mask)
    requires Holds(was, rows0, s, hist) && |add| <= 1
    requires forall b :: 0 <= b < |batch| ==> |batch[b].seqs| == 1
    requires forall b :: 0 <= b < |batch| && batch[b].seqs[0] == s ==> add != [] && b == at
    requires add != [] ==> at < |batch| && batch[at] == Token(add[0], |hist|, [s])
    ensures Holds(now, rows, s, hist + add)
  {
    hide Holds, Entered;
    PlaceHolds(was, now, rows0, rows, head, batch, mask, s, hist, add, if add == [] then 0 else at);
  }

  // ----- whole attempts

  /** The decoders after one round. */
  ghost function Advance(r: Round, live: seq<bool>, tokens: seq<seq<int>>, beam: bool): (d: (seq<bool>, seq<seq<int>>))
    requires |live| == |tokens|
    ensures |d.0| == |d.1| == |live|
  {
    if !RoundOk(r, |live|, live, beam) then (live, tokens)
    else
      (seq(|live|, j requires 0 <= j < |live| => live[j] && !r.ends[j]),
       seq(|live|, j requires 0 <= j < |live| => NextTokens(r, live, tokens, beam, j)))
  }

  ghost function NextTokens(r: Round, live: seq<bool>, tokens: seq<seq<int>>, beam: bool, j: nat): seq<int>
    requires j < |live| == |tokens| && RoundOk(r, |live|, live, beam)
  {
    if live[j] then tokens[if beam then r.parent[j] else j] + [r.token[j]] else tokens[j]
  }

  /** Who is live and what has been sampled after the first `k` rounds. */
  ghost function After(rounds: seq<Round>, n: nat, beam: bool, k: nat): (d: (seq<bool>, seq<seq<int>>))
    requires k <= |rounds|
    ensures |d.0| == |d.1| == n
  {
    if k == 0 then (seq(n, _ => true), seq(n, _ => []))
    else
      var (live, tokens) := After(rounds, n, beam, k - 1);
      Advance(rounds[k - 1], live, tokens, beam)
  }

  /** What attention sees in one round: the cells, their rows, and where decoder `j` may look. */
  datatype View = View(cells: seq<Cell>, rows: seq<Row>, open: seq<seq<bool>>)

  /** Every live decoder sees the prompt and exactly what it has sampled, its last token included. */
  ghost predicate SeesOwn(v: View, prompt: seq<int>, live: seq<bool>, tokens: seq<seq<int>>, k: nat)
    requires |live| == |tokens|
  {
    |v.open| == |live| &&
    forall j :: 0 <= j < |live| && live[j] ==>
      |tokens[j]| == k + 1 && SeesHistory(v.cells, v.rows, v.open[j], prompt + tokens[j], |prompt| + k)
  }

  ghost predicate SawOwn(views: seq<View>, prompt: seq<int>, rounds: seq<Round>, n: nat, beam: bool) {
    |views| <= |rounds| &&
    forall i :: 0 <= i < |views| ==>
      SeesOwn(views[i], prompt, After(rounds, n, beam, i + 1).0, After(rounds, n, beam, i + 1).1, i)
  }

  lemma SawNone(prompt: seq<int>, rounds: seq<Round>, n: nat, beam: bool)
    ensures SawOwn([], prompt, rounds, n, beam)
  {
  }

  lemma SawMore(views: seq<View>, v: View, prompt: seq<int>, rounds: seq<Round>, n: nat, beam: bool)
    requires SawOwn(views, prompt, rounds, n, beam) && |views| < |rounds|
    requires SeesOwn(v, prompt, After(rounds, n, beam, |views| + 1).0, After(rounds, n, beam, |views| + 1).1, |views|)
    ensures SawOwn(views + [v], prompt, rounds, n, beam)
  {
    hide SeesOwn, After;
  }

  lemma AfterOne(rounds: seq<Round>, n: nat, beam: bool, k: nat)
    requires k < |rounds|
    ensures After(rounds, n, beam, 0) == (seq(n, _ => true), seq(n, _ => []))
    ensures After(rounds, n, beam, k + 1) ==
            Advance(rounds[k], After(rounds, n, beam, k).0, After(rounds, n, beam, k).1, beam)
  {
  }

  /** Why an attempt ended: no decoder is left, the rounds are over, there is no slot, or a round that
      no sampler can draw. */
  datatype End = AllDone | RoundsOver | NoRoom | Unfit

  /** A cell number that no cell in use is past after `i` rounds. */
  function Top(prompt: seq<int>, n: nat, i: nat): nat {
    if i == 0 then |prompt| else Top(prompt, n, i - 1) + n
  }

  lemma {:induction false} TopGrows(prompt: seq<int>, n: nat, i: nat, j: nat)
    requires i <= j
    ensures Top(prompt, n, i) <= Top(prompt, n, j) && |prompt| <= Top(prompt, n, i)
    ensures Top(prompt, n, j) == |prompt| + n * j
    decreases j
  {
    if i < j {
      TopGrows(prompt, n, i, j - 1);
      assert n * j == n * (j - 1) + n;
    } else if j > 0 {
      TopGrows(prompt, n, j - 1, j - 1);
      assert n * j == n * (j - 1) + n;
    }
  }

  /** One round: sample, end decoders, and evaluate the new tokens of those that are left. */
  method DoRound(session: Session, r: Round, beam: bool, pad: nat, k: nat, ghost top: nat)
    returns (ok: bool, done: bool, ghost open: seq<seq<bool>>)
    requires session.Between(k) && RoundOk(r, session.n, session.live, beam) && Padding(pad)
    requires |session.prompt| + k < MAX_POS
    modifies session, session.cache, session.cache.cells, session.cache.rows
    ensures session.Valid()
    ensures (session.live, session.tokens) == Advance(r, old(session.live), old(session.tokens), beam)
    ensures done <==> forall j :: 0 <= j < session.n ==> !session.live[j]
    ensures done || ok ==> session.Between(k + 1)
    ensures !done && !ok ==> !HasSlot(session.cache.cells[..], LiveCount(session.live, session.n))
    ensures !done && ok ==>
              SeesOwn(View(session.cache.cells[..], session.cache.rows[..], open), session.prompt, session.live,
                  session.tokens, k)
    ensures !done && old(Below(session.cache.cells[..], session.cache.head, top)) &&
            top + session.n <= session.cache.cells.Length ==>
              ok && Below(session.cache.cells[..], session.cache.head, top + session.n)
  {
    hide SeesHistory, SeesOwn, Holds, Below, HasSlot, session.Cached, session.Between;
    session.BetweenValid(k);
    ghost var live0, tokens0 := session.live, session.tokens;
    session.Sample(r, beam, k, top);
    session.Finish(r);
    Advanced(r, live0, tokens0, beam, session.live, session.tokens);
    open := [];
    if forall j :: 0 <= j < session.n ==> !session.live[j] {
      session.NoneLeft(k + 1);
      return true, true, open;
    }
    done := false;
    ok, open := ExtendView(session, pad, k, top);
  }

  /** Evaluate the new tokens; `open` says where each decoder may look. */
  method ExtendView(session: Session, pad: nat, k: nat, ghost top: nat) returns (ok: bool, ghost open: seq<seq<bool>>)
    requires session.Valid() && session.Cached(seq(session.n, _ => false)) && Padding(pad)
    requires |session.prompt| + k < MAX_POS
    requires forall j :: 0 <= j < session.n && session.live[j] ==> |session.tokens[j]| == k + 1
    modifies session.cache`head, session.cache.cells, session.cache.rows
    ensures session.Valid() && (ok ==> session.Between(k + 1))
    ensures !ok ==> !HasSlot(session.cache.cells[..], LiveCount(session.live, session.n))
    ensures ok ==>
              SeesOwn(View(session.cache.cells[..], session.cache.rows[..], open), session.prompt, session.live,
                  session.tokens, k)
    ensures old(Below(session.cache.cells[..], session.cache.head, top)) &&
            top + session.n <= session.cache.cells.Length ==>
              ok && Below(session.cache.cells[..], session.cache.head, top + session.n)
  {
    hide SeesHistory, Holds, Below, HasSlot, session.Cached, session.Between;
    var mask, at;
    ok, mask, at := session.Extend(pad, k, top);
    open := [];
    if ok {
      open := seq(session.n, j requires 0 <= j < session.n && |at| == session.n reads mask =>
        if at[j] < mask.Length0 then MaskRow(mask, at[j]) else []);
    }
  }

  lemma Advanced(r: Round, live0: seq<bool>, tokens0: seq<seq<int>>, beam: bool, live: seq<bool>, tokens: seq<seq<int>>)
    requires |live0| == |tokens0| == |live| == |tokens| && RoundOk(r, |live0|, live0, beam)
    requires forall j :: 0 <= j < |live| && live0[j] ==>
               tokens[j] == tokens0[if beam then r.parent[j] else j] + [r.token[j]]
    requires forall j :: 0 <= j < |live| && !live0[j] ==> tokens[j] == tokens0[j]
    requires forall j :: 0 <= j < |live| ==> (live[j] <==> live0[j] && !r.ends[j])
    ensures (live, tokens) == Advance(r, live0, tokens0, beam)
  {
    var (l, t) := Advance(r, live0, tokens0, beam);
    assert l == live && t == tokens;
  }

  /** A whole attempt: prompt, then rounds. The decoders are those that the rounds make, the cache has
      exactly the history of each, and in every round each sees exactly its own. */
  method Run(session: Session, rounds: seq<Round>, beam: bool, pad: nat)
    returns (end: End, k: nat, ghost views: seq<View>)
    requires session.Fits() && Padding(pad) && |session.prompt| + |rounds| < MAX_POS
    modifies session, session.cache, session.cache.cells, session.cache.rows
    ensures k <= |rounds| && (session.live, session.tokens) == After(rounds, session.n, beam, k)
    ensures end.AllDone? ==> 0 < k && forall j :: 0 <= j < session.n ==> !session.live[j]
    ensures end.RoundsOver? ==> k == |rounds|
    ensures end.NoRoom? ==>
              if k == 0 then |session.prompt| > session.cache.cells.Length
              else !HasSlot(session.cache.cells[..], LiveCount(session.live, session.n))
    ensures end.Unfit? ==> k < |rounds| && !RoundOk(rounds[k], session.n, session.live, beam)
    ensures !end.NoRoom? ==> exists i :: session.Between(i)
    ensures k <= |views| + 1 && |views| <= k && (end.RoundsOver? || end.Unfit? ==> |views| == k)
    ensures SawOwn(views, session.prompt, rounds, session.n, beam)
    ensures Top(session.prompt, session.n, |rounds|) <= session.cache.cells.Length ==> !end.NoRoom?
  {
    hide SeesHistory, Holds, Below, SawOwn, SeesOwn, Advance, RoundOk, HasSlot, LiveCount;
    var n, size := session.n, session.cache.cells.Length;
    ghost var prompt := session.prompt;
    var ok, mask := session.Prime(pad);
    k, views := 0, [];
    TopGrows(prompt, n, 0, |rounds|);
    SawNone(prompt, rounds, n, beam);
    if !ok {
      return NoRoom, k, views;
    }
    while k < |rounds|
      invariant k == |views| <= |rounds| && session.Between(k)
      invariant (session.live, session.tokens) == After(rounds, n, beam, k)
      invariant SawOwn(views, prompt, rounds, n, beam)
      invariant Top(prompt, n, |rounds|) <= size ==>
                  Below(session.cache.cells[..], session.cache.head, Top(prompt, n, k))
    {
      var r := rounds[k];
      if !RoundOk(r, n, session.live, beam) {
        return Unfit, k, views;    // the sampler continues live decoders only
      }
      TopGrows(prompt, n, k + 1, |rounds|);
      AfterOne(rounds, n, beam, k);
      var ok1, done, open := DoRound(session, r, beam, pad, k, Top(prompt, n, k));
      k := k + 1;
      if done {
        return AllDone, k, views;
      }
      if !ok1 {
        return NoRoom, k, views;
      }
      ghost var view := View(session.cache.cells[..], session.cache.rows[..], open);
      SawMore(views, view, prompt, rounds, n, beam);
      views := views + [view];
    }
    return RoundsOver, k, views;
  }

  /** How many cells are allocated for `n` decoders. */
  function Allocated(textCtx: nat, n: nat): nat {
    Padded(textCtx, 256) * if n > 1 then n + 2 else 1
  }

  /** A text context for each decoder and two more, in whole pages of 256 cells. */
  lemma AllocatedPages(textCtx: nat, n: nat) returns (room: nat)
    requires n > 0
    ensures room % 256 == 0 && textCtx <= room < textCtx + 256
    ensures Allocated(textCtx, n) == if n == 1 then room else (n + 2) * room
  {
    room := Padded(textCtx, 256);
  }

  /** These are enough: a prompt takes at most half the text context and four tokens, and there are at
      most half of it less four rounds, so that no attempt ends for lack of room. */
  lemma EnoughRoom(prompt: seq<int>, textCtx: nat, n: nat, rounds: nat)
    requires 1 <= n <= MAX_DECODERS && textCtx > 0
    requires |prompt| <= textCtx / 2 + 4 && (rounds == 0 || rounds <= textCtx / 2 - 4)
    ensures Top(prompt, n, rounds) <= Allocated(textCtx, n)
  {
    TopGrows(prompt, n, 0, rounds);
    var size := Padded(textCtx, 256);
    assert size >= textCtx && size >= 256;
    if rounds > 0 {
      var most := textCtx / 2 - 4;
      assert n * rounds <= n * most by {
        assert n * most == n * rounds + n * (most - rounds);
      }
      if n > 1 {
        assert size * (n + 2) == n * size + 2 * size;
        assert n * size >= n * most by {
          assert n * size == n * most + n * (size - most);
        }
      }
    } else {
      assert n > 1 ==> size * (n + 2) >= size;
    }
  }
}
