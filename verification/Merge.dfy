/** Joining a new transcript to an old one where they overlap. */
module Merge {
  import opened Seqs

  predicate Filtered(c: char) {
    c == ' ' || c == ',' || c == '.' || c == ';' || c == '-'
  }

  // ----- words

  /** The word that is being read at the end of a text. */
  ghost function Current(t: string): string {
    if t == "" then "" else if Filtered(t[|t| - 1]) then "" else Current(t[..|t| - 1]) + [t[|t| - 1]]
  }

  /** The words that are complete at the end of a text. */
  ghost function Complete(t: string): seq<string> {
    if t == "" then []
    else
      var r := t[..|t| - 1];
      if Filtered(t[|t| - 1]) then Complete(r) + One(Current(r)) else Complete(r)
  }

  ghost function One(w: string): seq<string> {
    if w == "" then [] else [w]
  }

  ghost function Words(t: string): seq<string> {
    Complete(t) + One(Current(t))
  }

  method SplitAndNormalize(text: string) returns (result: seq<string>)
    ensures result == Words(text)
  {
    result := [];
    if text == "" {
      return;
    }
    var current := "";
    for i := 0 to |text|
      invariant result == Complete(text[..i]) && current == Current(text[..i])
    {
      assert text[..i + 1][..i] == text[..i];
      if Filtered(text[i]) {
        if current != "" {
          result := result + [current];
          current := "";
        }
      } else {
        current := current + [text[i]];
      }
    }
    assert text[..|text|] == text;
    if current != "" {
      result := result + [current];
    }
  }

  ghost predicate Plain(w: string) {
    forall i :: 0 <= i < |w| ==> w[i] !in [' ', ',', '.', ';', '-']
  }

  /** Words are not empty and have no filtered characters. */
  lemma {:induction false} WordsPlain(t: string)
    ensures Plain(Current(t)) && forall k :: 0 <= k < |Complete(t)| ==> Complete(t)[k] != "" && Plain(Complete(t)[k])
    ensures forall k :: 0 <= k < |Words(t)| ==> Words(t)[k] != "" && Plain(Words(t)[k])
  {
    if t != "" {
      WordsPlain(t[..|t| - 1]);
    }
  }

  lemma {:induction false} PlainWord(w: string)
    requires Plain(w)
    ensures Current(w) == w && Complete(w) == [] && Words(w) == One(w)
  {
    if w != "" {
      PlainWord(w[..|w| - 1]);
    }
  }

  /** A filtered character separates: the words of both sides are the words of the whole. */
  lemma {:induction false} SplitAt(u: string, c: char, v: string)
    requires c in [' ', ',', '.', ';', '-']
    ensures Current(u + [c] + v) == Current(v) && Complete(u + [c] + v) == Words(u) + Complete(v)
    ensures Words(u + [c] + v) == Words(u) + Words(v)
  {
    var t := u + [c] + v;
    if v == "" {
      assert t[..|t| - 1] == u;
      assert Complete(v) == [] && Words(u) + [] == Words(u);
    } else {
      var r := v[..|v| - 1];
      SplitAt(u, c, r);
      assert t[..|t| - 1] == u + [c] + r && t[|t| - 1] == v[|v| - 1];
      Assoc(Words(u), Complete(r), One(Current(r)));
    }
    Assoc(Words(u), Complete(v), One(Current(v)));
  }

  lemma SpaceAtEnd(u: string, v: string)
    requires u != "" && Filtered(u[|u| - 1])
    ensures Words(u + v) == Words(u) + Words(v)
  {
    hide Words;
    EmptyWords();
    var r, c := u[..|u| - 1], u[|u| - 1];
    SplitAt(r, c, v);
    SplitAt(r, c, "");
    assert r + [c] == u;
    assert u + "" == u;
  }

  lemma EmptyWords()
    ensures Words("") == []
  {
  }

  /** The first `k` words with spaces between. */
  ghost function Joined(ws: seq<string>, k: nat): string
    requires 0 < k <= |ws|
  {
    if k == 1 then ws[0] else Joined(ws, k - 1) + " " + ws[k - 1]
  }

  lemma {:induction false} WordsJoined(ws: seq<string>, k: nat)
    requires 0 < k <= |ws| && forall i :: 0 <= i < |ws| ==> ws[i] != "" && Plain(ws[i])
    ensures Words(Joined(ws, k)) == ws[..k]
  {
    hide Words, Plain;
    PlainWord(ws[k - 1]);
    if k > 1 {
      WordsJoined(ws, k - 1);
      SplitAt(Joined(ws, k - 1), ' ', ws[k - 1]);
    }
  }

  ghost function Length(ws: seq<string>, k: nat): nat
    requires k <= |ws|
  {
    if k == 0 then 0 else Length(ws, k - 1) + |ws[k - 1]|
  }

  lemma {:induction false} JoinedLength(ws: seq<string>, k: nat)
    requires 0 < k <= |ws|
    ensures |Joined(ws, k)| == Length(ws, k) + k - 1
  {
    if k > 1 {
      JoinedLength(ws, k - 1);
    }
  }

  // ----- matching three words

  ghost predicate SameThree(tail: seq<string>, i: nat, base: seq<string>, b: nat) {
    && i + 2 < |tail| && b + 2 < |base|
    && tail[i] == base[b] && tail[i + 1] == base[b + 1] && tail[i + 2] == base[b + 2]
  }

  /** The match of the plain search: the first place in the tail that occurs in the base at all, at
      its first occurrence there; -1 if there is none. */
  ghost predicate IsMatch(tail: seq<string>, base: seq<string>, k: int) {
    if k < 0 then k == -1 && forall i: nat, b: nat :: i + 2 < |tail| && b + 2 < |base| ==> !SameThree(tail, i, base, b)
    else exists i: nat :: First(tail, base, i, k)
  }

  ghost predicate First(tail: seq<string>, base: seq<string>, i: nat, k: nat) {
    && SameThree(tail, i, base, k)
    && (forall j: nat, b: nat :: j < i && b + 2 < |base| ==> !SameThree(tail, j, base, b))
    && (forall b: nat :: b < k ==> !SameThree(tail, i, base, b))
  }

  lemma MatchUnique(tail: seq<string>, base: seq<string>, k: int, l: int)
    requires IsMatch(tail, base, k) && IsMatch(tail, base, l)
    ensures k == l
  {
    if k >= 0 && l >= 0 {
      var i: nat :| First(tail, base, i, k);
      var j: nat :| First(tail, base, j, l);
    }
  }

  /** What the index lists under a hash: all places with that hash before `n`, in order. */
  ghost predicate Indexed(hash: (string, string, string) -> int, base: seq<string>, index: map<int, seq<nat>>, n: nat) {
    && (forall h :: h in index ==>
          && (forall x :: 0 <= x < |index[h]| ==> index[h][x] < n && index[h][x] + 2 < |base|)
          && (forall x, y :: 0 <= x < y < |index[h]| ==> index[h][x] < index[h][y]))
    && (forall b: nat :: b < n && b + 2 < |base| ==>
          var h := hash(base[b], base[b + 1], base[b + 2]); h in index && b in index[h])
  }

  method BuildIndex(hash: (string, string, string) -> int, base: seq<string>) returns (index: map<int, seq<nat>>)
    requires forall i :: 0 <= i < |base| ==> base[i] != ""
    ensures Indexed(hash, base, index, |base|)
  {
    hide Indexed;
    index := map[];
    IndexNone(hash, base);
    var i := 0;
    while i + 2 < |base|
      invariant 0 <= i <= |base| && Indexed(hash, base, index, i)
    {
      if base[i] != "" && base[i + 1] != "" && base[i + 2] != "" {
        IndexStep(hash, base, index, i);
        var h := hash(base[i], base[i + 1], base[i + 2]);
        index := index[h := (if h in index then index[h] else []) + [i]];
      }
      i := i + 1;
    }
    IndexAll(hash, base, index, i);
  }

  lemma IndexNone(hash: (string, string, string) -> int, base: seq<string>)
    ensures Indexed(hash, base, map[], 0)
  {
  }

  lemma IndexAll(hash: (string, string, string) -> int, base: seq<string>, index: map<int, seq<nat>>, n: nat)
    requires Indexed(hash, base, index, n) && n <= |base| <= n + 2
    ensures Indexed(hash, base, index, |base|)
  {
  }

  lemma IndexStep(hash: (string, string, string) -> int, base: seq<string>, index: map<int, seq<nat>>, i: nat)
    requires Indexed(hash, base, index, i) && i + 2 < |base|
    ensures var h := hash(base[i], base[i + 1], base[i + 2]);
            Indexed(hash, base, index[h := (if h in index then index[h] else []) + [i]], i + 1)
  {
    var h := hash(base[i], base[i + 1], base[i + 2]);
    var list := if h in index then index[h] else [];
    var next := index[h := list + [i]];
    forall b: nat | b < i + 1 && b + 2 < |base|
      ensures var g := hash(base[b], base[b + 1], base[b + 2]); g in next && b in next[g]
    {
      var g := hash(base[b], base[b + 1], base[b + 2]);
      if b == i {
        assert (list + [i])[|list|] == i;
      } else {
        assert g in index && b in index[g];
        assert g == h ==> b in list;
      }
    }
  }

  /** Search with the index: it finds what the plain search finds, whatever the hash function. */
  method FindBestMatch(hash: (string, string, string) -> int, tail: seq<string>, base: seq<string>, index: map<int,
                       seq<nat>>)
    returns (k: int)
    requires Indexed(hash, base, index, |base|) && forall i :: 0 <= i < |tail| ==> tail[i] != ""
    ensures IsMatch(tail, base, k)
  {
    hide Indexed, SameThree;
    if |tail| < 3 {
      return -1;
    }
    var i := 0;
    while i + 2 < |tail|
      invariant 0 <= i && forall j: nat, b: nat :: j < i && b + 2 < |base| ==> !SameThree(tail, j, base, b)
    {
      var h := hash(tail[i], tail[i + 1], tail[i + 2]);
      if h in index {
        var x := FindIn(tail, i, base, index[h]);
        if x < |index[h]| {
          FirstFound(hash, tail, base, index, i, h, x);
          return index[h][x];
        }
      }
      NoneFound(hash, tail, base, index, i, h);
      i := i + 1;
    }
    return -1;
  }

  /** The first place of the list where the words really are the same. */
  method FindIn(tail: seq<string>, i: nat, base: seq<string>, list: seq<nat>) returns (x: nat)
    requires i + 2 < |tail|
    ensures x <= |list| && (x < |list| ==> SameThree(tail, i, base, list[x]))
    ensures forall y :: 0 <= y < x ==> !SameThree(tail, i, base, list[y])
  {
    x := 0;
    while x < |list|
      invariant x <= |list| && forall y :: 0 <= y < x ==> !SameThree(tail, i, base, list[y])
    {
      var b := list[x];
      if b + 2 < |base| && tail[i] == base[b] && tail[i + 1] == base[b + 1] && tail[i + 2] == base[b + 2] {
        return;
      }
      x := x + 1;
    }
  }

  lemma NoneFound(hash: (string, string, string) -> int, tail: seq<string>, base: seq<string>, index: map<int,
                  seq<nat>>, i: nat, h: int)
    requires Indexed(hash, base, index, |base|) && i + 2 < |tail| && h == hash(tail[i], tail[i + 1], tail[i + 2])
    requires h in index ==> forall y :: 0 <= y < |index[h]| ==> !SameThree(tail, i, base, index[h][y])
    ensures forall b: nat :: b + 2 < |base| ==> !SameThree(tail, i, base, b)
  {
    forall b: nat | b + 2 < |base|
      ensures !SameThree(tail, i, base, b)
    {
      var g := hash(base[b], base[b + 1], base[b + 2]);
      assert g in index && b in index[g];
    }
  }

  lemma FirstFound(hash: (string, string, string) -> int, tail: seq<string>, base: seq<string>, index: map<int,
                   seq<nat>>, i: nat, h: int, x: nat)
    requires Indexed(hash, base, index, |base|) && i + 2 < |tail| && h == hash(tail[i], tail[i + 1], tail[i + 2])
    requires h in index && x < |index[h]| && SameThree(tail, i, base, index[h][x])
    requires forall y :: 0 <= y < x ==> !SameThree(tail, i, base, index[h][y])
    requires forall j: nat, b: nat :: j < i && b + 2 < |base| ==> !SameThree(tail, j, base, b)
    ensures First(tail, base, i, index[h][x])
  {
    forall b: nat | b < index[h][x]
      ensures !SameThree(tail, i, base, b)
    {
      var g := hash(base[b], base[b + 1], base[b + 2]);
      assert g in index && b in index[g];
      var y :| 0 <= y < |index[g]| && index[g][y] == b;
      assert g == h ==> y < x;
    }
  }

  // ----- merging

  /** How many words of the old text are kept. */
  ghost function Kept(base: seq<string>, k: int): nat {
    if 0 <= k <= |base| then k else |base|
  }

  method ResultSize(a: string, b: string, base: seq<string>, k: int) returns (size: int)
    requires k <= |base|
    ensures k > 0 ==> size == Length(base, k) + k + |b|
    ensures k <= 0 ==> size == |a| + (if a == "" || a[|a| - 1] == ' ' then 0 else 1) + |b|
  {
    if k > 0 {
      size := 0;
      for i := 0 to k
        invariant size == Length(base, i)
      {
        size := size + |base[i]|;
      }
      return size + k - 1 + 1 + |b|;
    }
    return |a| + (if a == "" || a[|a| - 1] == ' ' then 0 else 1) + |b|;
  }

  /** Keep the old words before the match, or all of them, and go on with the new text. The space
      set aside for the result is enough; where a text is returned as it is, that is its length. */
  method MergeStrings(hash: (string, string, string) -> int, a: string, b: string)
    returns (result: string, ghost k: int, size: int)
    ensures IsMatch(Words(b), Words(a), k)
    ensures Words(result) == Words(a)[..Kept(Words(a), k)] + Words(b)
    ensures k == 0 ==> result == b
    ensures |result| <= size && (k != 0 && a != "" && b != "" && Words(a) != [] && Words(b) != [] ==> |result| == size)
  {
    hide Words, Plain, IsMatch, Indexed, Length;
    k := -1;
    EmptyWords();
    if a == "" {
      NoMatch(Words(b), Words(a));
      return b, k, |b|;
    }
    if b == "" {
      NoMatch(Words(b), Words(a));
      return a, k, |a|;
    }
    var base := SplitAndNormalize(a);
    var tail := SplitAndNormalize(b);
    if base == [] || tail == [] {
      NoMatch(tail, base);
      result := if base == [] then b else a;
      return result, k, |result|;
    }
    WordsPlain(a);
    WordsPlain(b);
    var index := BuildIndex(hash, base);
    var best := FindBestMatch(hash, tail, base, index);
    MatchInside(tail, base, best);
    k := best;
    size := ResultSize(a, b, base, best);
    result := Compose(a, b, base, best);
  }

  lemma MatchInside(tail: seq<string>, base: seq<string>, k: int)
    requires IsMatch(tail, base, k)
    ensures -1 <= k && (k >= 0 ==> k + 2 < |base|)
  {
  }

  method Compose(a: string, b: string, base: seq<string>, best: int) returns (result: string)
    requires a != "" && base == Words(a) && best <= |base|
    ensures Words(result) == base[..Kept(base, best)] + Words(b)
    ensures best == 0 ==> result == b
    ensures best > 0 ==> |result| == Length(base, best) + best + |b|
    ensures best < 0 ==> |result| == |a| + (if a[|a| - 1] == ' ' then 0 else 1) + |b|
  {
    WordsPlain(a);
    hide Words, Plain;
    if best > 0 {
      result := base[0];
      for i := 1 to best
        invariant result == Joined(base, i)
      {
        result := result + " ";
        result := result + base[i];
      }
      WordsJoined(base, best);
      SplitAt(result, ' ', b);
      JoinedLength(base, best);
      result := result + " ";
    } else if best < 0 {
      result := a;
      if result[|result| - 1] != ' ' {
        SplitAt(a, ' ', b);
        result := result + " ";
      } else {
        SpaceAtEnd(a, b);
      }
    } else {
      result := "";
      assert "" + b == b;
    }
    result := result + b;
  }

  lemma NoMatch(tail: seq<string>, base: seq<string>)
    requires tail == [] || base == []
    ensures IsMatch(tail, base, -1)
  {
  }

  /** Merging a text of three or more words with itself gives the text. */
  lemma SelfMatch(ws: seq<string>, k: int)
    requires |ws| >= 3 && IsMatch(ws, ws, k)
    ensures k == 0
  {
    assert SameThree(ws, 0, ws, 0);
    assert First(ws, ws, 0, 0);
    MatchUnique(ws, ws, k, 0);
  }

  /** Texts that overlap in three or more words are joined at the overlap, if its first three words
      do not come earlier in the old text. */
  lemma Overlap(x: seq<string>, y: seq<string>, z: seq<string>, k: int)
    requires |y| >= 3 && IsMatch(y + z, x + y, k)
    requires forall b: nat :: b < |x| ==> !SameThree(y + z, 0, x + y, b)
    ensures (x + y)[..Kept(x + y, k)] + (y + z) == x + y + z
  {
    assert SameThree(y + z, 0, x + y, |x|);
    assert First(y + z, x + y, 0, |x|);
    MatchUnique(y + z, x + y, k, |x|);
    assert (x + y)[..|x|] == x;
  }
}
