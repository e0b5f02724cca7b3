/** Two ring buffers for audio samples, each kept against the plain sequence it stands for. */
module Rings {
  import opened Arith

  /** A place in a ring of `cap`, for places less than one round too far. */
  function Wrap(x: int, cap: int): int {
    if x >= cap then x - cap else x
  }

  /** How far `x` is after `pos` in a ring. */
  function Dist(pos: int, x: int, cap: int): int {
    if x >= pos then x - pos else x - pos + cap
  }

  /** A place in a ring, however far. */
  function Mod(x: nat, cap: nat): nat
    requires cap > 0
  {
    x % cap
  }

  lemma WrapMod(x: nat, cap: nat)
    requires x < 2 * cap
    ensures Mod(x, cap) == Wrap(x, cap) && 0 <= Wrap(x, cap) < cap
  {
    if x >= cap {
      ModUnique(x, cap, 1, x - cap);
    } else {
      ModUnique(x, cap, 0, x);
    }
  }

  /** The `len` samples from `head` on. */
  ghost function Ring(b: seq<real>, head: nat, len: nat): (r: seq<real>)
    requires head < |b| && len <= |b|
    ensures |r| == len
  {
    seq(len, i requires 0 <= i < len => b[Wrap(head + i, |b|)])
  }

  lemma RingIs(b: seq<real>, head: nat, s: seq<real>)
    requires head < |b| && |s| <= |b| && forall i :: 0 <= i < |s| ==> s[i] == b[Wrap(head + i, |b|)]
    ensures Ring(b, head, |s|) == s
  {
  }

  lemma RingAt(b: seq<real>, head: nat, len: nat)
    requires head < |b| && len <= |b|
    ensures forall i :: 0 <= i < len ==> Ring(b, head, len)[i] == b[Wrap(head + i, |b|)]
  {
  }

  /** The last `n` of a sequence, or all of it. */
  function Last(s: seq<real>, n: nat): (r: seq<real>)
    ensures |r| == if |s| <= n then |s| else n
  {
    if |s| <= n then s else s[|s| - n..]
  }

  method Copy(buf: array<real>, at: nat, s: seq<real>)
    requires at + |s| <= buf.Length
    modifies buf
    ensures forall x :: 0 <= x < buf.Length ==> buf[x] == if at <= x < at + |s| then s[x - at] else old(buf[x])
  {
    for i := 0 to |s|
      invariant forall x :: 0 <= x < buf.Length ==> buf[x] == if at <= x < at + i then s[x - at] else old(buf[x])
    {
      buf[at + i] := s[i];
    }
  }

  ghost predicate PutAt(was: seq<real>, now: seq<real>, pos: int, chunk: seq<real>) {
    && |now| == |was|
    && forall x :: 0 <= x < |was| ==>
        now[x] == if 0 <= Dist(pos, x, |was|) < |chunk| then chunk[Dist(pos, x, |was|)] else was[x]
  }

  /** Write a chunk from `pos` on, around the end if need be. */
  method Put(buf: array<real>, pos: nat, chunk: seq<real>)
    requires pos < buf.Length && |chunk| <= buf.Length
    modifies buf
    ensures PutAt(old(buf[..]), buf[..], pos, chunk)
  {
    var room := buf.Length - pos;
    var first := if |chunk| < room then |chunk| else room;
    Copy(buf, pos, chunk[..first]);
    if first < |chunk| {
      Copy(buf, 0, chunk[first..]);
    }
  }

  /** Read `n` samples from `head` on. */
  method Take(buf: array<real>, head: nat, n: nat) returns (out: seq<real>)
    requires head < buf.Length && n <= buf.Length
    ensures out == Ring(buf[..], head, n)
  {
    var room := buf.Length - head;
    var first := if n < room then n else room;
    out := buf[head..head + first];
    if first < n {
      out := out + buf[..n - first];
    }
    RingIs(buf[..], head, out);
  }

  /** Writing behind the samples adds to them. */
  lemma PutBehind(was: seq<real>, now: seq<real>, head: nat, len: nat, chunk: seq<real>)
    requires head < |was| && len + |chunk| <= |was| && PutAt(was, now, Wrap(head + len, |was|), chunk)
    ensures Ring(now, head, len + |chunk|) == Ring(was, head, len) + chunk
  {
    hide Ring;
    RingAt(was, head, len);
    var cap, pos, s := |was|, Wrap(head + len, |was|), Ring(was, head, len) + chunk;
    forall i | 0 <= i < |s|
      ensures s[i] == now[Wrap(head + i, cap)]
    {
      var x := Wrap(head + i, cap);
      assert now[x] == if 0 <= Dist(pos, x, cap) < |chunk| then chunk[Dist(pos, x, cap)] else was[x];
    }
    RingIs(now, head, s);
  }

  lemma RingDrop(b: seq<real>, head: nat, len: nat, n: nat)
    requires head < |b| && n <= len <= |b|
    ensures Wrap(head + n, |b|) < |b| && Ring(b, Wrap(head + n, |b|), len - n) == Ring(b, head, len)[n..]
    ensures Ring(b, head, n) == Ring(b, head, len)[..n]
  {
    hide Ring;
    RingAt(b, head, len);
    var r := Ring(b, head, len);
    RingIs(b, head, r[..n]);
    forall i | 0 <= i < len - n
      ensures r[n..][i] == b[Wrap(Wrap(head + n, |b|) + i, |b|)]
    {
      assert r[n..][i] == r[n + i];
    }
    RingIs(b, Wrap(head + n, |b|), r[n..]);
  }

  lemma LastOfLong(s: seq<real>, chunk: seq<real>, n: nat)
    requires n <= |chunk|
    ensures Last(s + chunk, n) == chunk[|chunk| - n..]
  {
  }

  lemma RingWhole(b: seq<real>)
    requires |b| > 0
    ensures Ring(b, 0, |b|) == b
  {
    RingIs(b, 0, b);
  }

  /** The last samples of a suffix are the last of the whole, unless the suffix is short. */
  lemma Suffix(all: seq<real>, gone: nat, chunk: seq<real>, cap: nat)
    requires gone <= |all| && |all| - gone <= cap
    ensures var now := all + chunk;
            Last(all[gone..] + chunk, cap) == now[if gone + cap < |now| then |now| - cap else gone..]
  {
    assert all[gone..] + chunk == (all + chunk)[gone..];
  }

  // ----- the chunk buffer

  class AudioChunkBuffer {
    const buf: array<real>
    var head: nat
    var len: nat
    ghost var all: seq<real>     // everything appended since the last clear
    ghost var gone: nat          // how many of them have been consumed or dropped

    /** The buffer holds what is not gone, in order. */
    ghost predicate Valid()
      reads this, buf
    {
      head < buf.Length && len <= buf.Length && gone <= |all| && Contents() == all[gone..]
    }

    ghost function Contents(): seq<real>
      requires head < buf.Length && len <= buf.Length
      reads this, buf
    {
      Ring(buf[..], head, len)
    }

    constructor (maxSamples: nat)
      requires maxSamples > 0
      ensures Valid() && buf.Length == maxSamples && fresh(buf) && all == [] && gone == 0
    {
      buf := new real[maxSamples](_ => 0.0);
      head, len, all, gone := 0, 0, [], 0;
    }

    /** Drops samples only when there is no room, and then the oldest. */
    method Append(chunk: seq<real>)
      requires Valid()
      modifies this, buf
      ensures Valid() && all == old(all) + chunk
      ensures gone == if old(gone) + buf.Length < |all| then |all| - buf.Length else old(gone)
      ensures Contents() == Last(old(Contents()) + chunk, buf.Length)
    {
      hide Mod, Ring, Wrap;
      ghost var whole := Contents() + chunk;
      ghost var was, left := all, gone;
      if |chunk| == 0 {
        assert all + chunk == all;
        assert whole == Contents();
        return;
      }
      if |chunk| >= buf.Length {
        Replace(chunk);
      } else {
        Write(chunk);
      }
      Suffix(was, left, chunk, buf.Length);
      all := all + chunk;
      gone := if gone + buf.Length < |all| then |all| - buf.Length else gone;
    }

    /** The chunk is as large as the buffer: its last samples are all that stays. */
    method Replace(chunk: seq<real>)
      requires head < buf.Length && len <= buf.Length <= |chunk|
      modifies this`head, this`len, buf
      ensures head < buf.Length && len <= buf.Length && Contents() == Last(old(Contents()) + chunk, buf.Length)
    {
      hide Mod, Ring, Wrap, Last;
      var cap := buf.Length;
      var start := |chunk| - cap;
      Copy(buf, 0, chunk[start..]);
      head, len := 0, cap;
      RingWhole(buf[..]);
      LastOfLong(old(Contents()), chunk, cap);
      assert buf[..] == chunk[start..];
    }

    method Write(chunk: seq<real>)
      requires head < buf.Length && len <= buf.Length && |chunk| < buf.Length
      modifies this`head, this`len, buf
      ensures head < buf.Length && len <= buf.Length && Contents() == Last(old(Contents()) + chunk, buf.Length)
    {
      hide Mod, Ring, Wrap, PutAt;
      var cap := buf.Length;
      var available := cap - len;
      ghost var drop := if |chunk| > available then |chunk| - available else 0;
      if |chunk| > available {
        MakeRoom(|chunk| - available);
      }
      ghost var kept := Contents();
      WrapMod(head + len, cap);
      var tail := Mod(head + len, cap);
      ghost var was := buf[..];
      Put(buf, tail, chunk);
      PutBehind(was, buf[..], head, len, chunk);
      len := len + |chunk|;
      assert kept == old(Contents())[drop..];
      assert Contents() == kept + chunk;
    }

    method MakeRoom(n: nat)
      requires head < buf.Length && n <= len <= buf.Length
      modifies this`head, this`len
      ensures head < buf.Length && len == old(len) - n && Contents() == old(Contents())[n..]
    {
      hide Mod, Ring, Wrap;
      RingDrop(buf[..], head, len, n);
      WrapMod(head + n, buf.Length);
      head := Mod(head + n, buf.Length);
      len := len - n;
    }

    /** First in, first out. */
    method Consume(n: nat) returns (out: seq<real>)
      requires Valid()
      modifies this
      ensures Valid() && all == old(all) && gone == old(gone) + |out| && out == all[old(gone)..gone]
      ensures |out| == if n < old(len) then n else old(len)
      ensures old(Contents()) == out + Contents()
    {
      hide Mod, Ring, Wrap;
      var count := if n < len then n else len;
      if count == 0 {
        out := [];
        assert old(Contents()) == out + Contents();
        return;
      }
      out := Take(buf, head, count);
      RingDrop(buf[..], head, len, count);
      MakeRoom(count);
      gone := gone + count;
      assert old(Contents()) == out + Contents();
      assert Contents() == all[gone..];
    }

    method Clear()
      requires Valid()
      modifies this
      ensures Valid() && all == [] && gone == 0 && Contents() == []
    {
      head, len, all, gone := 0, 0, [], 0;
    }

    method ToFloat32Array() returns (out: seq<real>)
      requires Valid()
      ensures out == Contents() == all[gone..]
    {
      if len == 0 {
        return [];
      }
      out := Take(buf, head, len);
    }
  }

  // ----- the capture buffer

  class AudioAsync {
    const audio: array<real>
    const sampleRate: nat
    const lenMs: nat
    var pos: nat
    var len: nat
    var running: bool
    ghost var heard: seq<real>   // everything captured since the last clear

    ghost function Start(): int
      reads this
    {
      if pos >= len then pos - len else pos - len + audio.Length
    }

    /** The samples before `pos` are the last that were heard. */
    ghost predicate Valid()
      reads this, audio
    {
      pos < audio.Length && len <= audio.Length && Ring(audio[..], Start(), len) == Last(heard, audio.Length)
    }

    constructor (sampleRate: nat, lenMs: nat)
      requires sampleRate * lenMs / 1000 > 0
      ensures Valid() && running && heard == [] && audio.Length == sampleRate * lenMs / 1000
    {
      this.sampleRate, this.lenMs := sampleRate, lenMs;
      audio := new real[sampleRate * lenMs / 1000](_ => 0.0);
      pos, len, running, heard := 0, 0, true, [];
    }

    /** New samples arrive; of too many only the last count. */
    method Callback(stream: seq<real>)
      requires Valid()
      modifies this`pos, this`len, this`heard, audio
      ensures Valid() && heard == if running then old(heard) + stream else old(heard)
    {
      hide Mod, Ring, Wrap, Last, PutAt;
      if !running {
        return;
      }
      var cap := audio.Length;
      LastIs(stream, cap);
      var samples := if |stream| > cap then stream[|stream| - cap..] else stream;
      ghost var was, start, size := audio[..], Start(), len;
      Put(audio, pos, samples);
      Heard(was, audio[..], start, size, pos, heard, stream);
      WrapMod(pos + |samples|, cap);
      pos := Mod(pos + |samples|, cap);
      len := if len + |samples| < cap then len + |samples| else cap;
      heard := heard + stream;
    }

    function Wanted(ms: int): (n: nat)
    {
      var t: nat := if ms <= 0 then lenMs else ms;
      assert sampleRate * t >= 0;
      sampleRate * t / 1000
    }

    lemma WantedIs(ms: int)
      ensures Wanted(ms) == sampleRate * (if ms <= 0 then lenMs else ms) / 1000
    {
    }

    /** The last `ms` of what was heard since the last clear, as far as the buffer goes back. */
    method Get(ms: int, result0: seq<real>) returns (result: seq<real>)
      requires Valid()
      ensures !running ==> result == result0
      ensures running ==>
                var n: int := sampleRate * (if ms <= 0 then lenMs else ms) / 1000;
                result == Last(heard, if n < audio.Length then n else audio.Length)
    {
      hide Mod, Ring, Wrap, Wanted;
      if !running {
        return result0;
      }
      WantedIs(ms);
      var n := Wanted(ms);
      if n > len {
        n := len;
      }
      var s0 := pos - n;
      if s0 < 0 {
        s0 := s0 + audio.Length;
      }
      result := Take(audio, s0, n);
      RingDrop(audio[..], Start(), len, len - n);
      StartLast(pos, len, n, audio.Length);
    }

    method Clear()
      requires Valid()
      modifies this`pos, this`len, this`heard
      ensures Valid() && heard == if running then [] else old(heard)
    {
      if !running {
        return;
      }
      pos, len, heard := 0, 0, [];
    }
  }

  /** Writing at the end of the last samples, over the oldest of them if need be. */
  lemma Heard(was: seq<real>, now: seq<real>, start: nat, len: nat, pos: nat, heard: seq<real>, stream: seq<real>)
    requires pos < |was| && len <= |was| && start == (if pos >= len then pos - len else pos - len + |was|) < |was|
    requires Ring(was, start, len) == Last(heard, |was|) && PutAt(was, now, pos, Last(stream, |was|))
    ensures var n := |Last(stream, |was|)|;
            var len1 := if len + n < |was| then len + n else |was|;
            var pos1 := Wrap(pos + n, |was|);
            var start1 := if pos1 >= len1 then pos1 - len1 else pos1 - len1 + |was|;
            0 <= start1 < |was| && Ring(now, start1, len1) == Last(heard + stream, |was|)
  {
    hide Ring, PutAt, Last;
    var cap, s := |was|, Last(stream, |was|);
    var drop := if len + |s| > cap then len + |s| - cap else 0;
    RingDrop(was, start, len, drop);
    Behind(start, len, pos, drop, cap);
    PutBehind(was, now, Wrap(start + drop, cap), len - drop, s);
    LastJoin(heard, stream, cap, drop);
  }

  lemma Behind(start: nat, len: nat, pos: nat, drop: nat, cap: nat)
    requires pos < cap && drop <= len <= cap && start == if pos >= len then pos - len else pos - len + cap
    ensures Wrap(start + drop, cap) < cap && Wrap(Wrap(start + drop, cap) + (len - drop), cap) == pos
  {
  }

  lemma StartLast(pos: nat, len: nat, n: nat, cap: nat)
    requires pos < cap && n <= len <= cap
    ensures var start := if pos >= len then pos - len else pos - len + cap;
            Wrap(start + (len - n), cap) == if pos >= n then pos - n else pos - n + cap
  {
  }

  lemma LastIs(s: seq<real>, n: nat)
    ensures Last(s, n) == if |s| > n then s[|s| - n..] else s
  {
  }

  lemma LastJoin(heard: seq<real>, stream: seq<real>, cap: nat, drop: nat)
    requires var len := |Last(heard, cap)| + |Last(stream, cap)|; drop == if len > cap then len - cap else 0
    ensures drop <= |Last(heard, cap)| && Last(heard, cap)[drop..] + Last(stream, cap) == Last(heard + stream, cap)
  {
  }
}
