/** The flat grammar format shared by the grammar compiler and the recogniser,
    and the languages it denotes. The language is the ordinary one of a
    context-free grammar: it is defined by derivations and knows nothing of
    the pushdown stacks of the recogniser. */
module GrammarRules {

  datatype Elem =
    | End
    | Alt
    | RuleRef(rule: nat)
    | Char(c: nat)
    | CharNot(c: nat)
    | RngUpper(c: nat)
    | CharAlt(c: nat)

  /** A byte of a C string. */
  type Byte = b: int | 0 < b < 256 witness 1

  type Rules = seq<seq<Elem>>
  type Word = seq<nat>

  predicate IsEnd(e: Elem) {
    e.End? || e.Alt?
  }

  predicate IsClassStart(e: Elem) {
    e.Char? || e.CharNot?
  }

  predicate IsCharElem(e: Elem) {
    e.Char? || e.CharNot? || e.RngUpper? || e.CharAlt?
  }

  /** A continuation element may only follow what it continues. */
  predicate Follows(prev: Elem, e: Elem) {
    && (e.CharAlt? ==> IsCharElem(prev))
    && (e.RngUpper? ==> IsCharElem(prev) && !prev.RngUpper?)
  }

  /** The element at `i` stands where the elements before it allow it. */
  predicate Fits(rule: seq<Elem>, i: nat)
    requires i < |rule|
  {
    if i == 0 then !rule[0].CharAlt? && !rule[0].RngUpper? else Follows(rule[i - 1], rule[i])
  }

  predicate WellFormedBody(rule: seq<Elem>) {
    forall i :: 0 <= i < |rule| ==> Fits(rule, i)
  }

  predicate WellFormedRule(rule: seq<Elem>) {
    && |rule| > 0
    && rule[|rule| - 1].End?
    && (forall i :: 0 <= i < |rule| - 1 ==> !rule[i].End?)
    && WellFormedBody(rule)
  }

  predicate WellFormed(g: Rules) {
    && (forall r :: 0 <= r < |g| ==> WellFormedRule(g[r]))
    && (forall r, i :: 0 <= r < |g| && 0 <= i < |g[r]| && g[r][i].RuleRef? ==> g[r][i].rule < |g|)
  }

  // ----- character classes

  /** The number of elements that one character or character range takes. */
  function ItemLen(es: seq<Elem>): (n: nat)
    requires |es| > 0
    ensures 1 <= n <= 2 && n <= |es|
  {
    if |es| > 1 && es[1].RngUpper? then 2 else 1
  }

  /** The number of elements that the character class at the head takes. */
  function ClassLen(es: seq<Elem>): (n: nat)
    requires |es| > 0
    ensures 1 <= n <= |es|
    ensures n < |es| ==> !es[n].CharAlt?
  {
    var n := ItemLen(es);
    if n < |es| && es[n].CharAlt? then n + ClassLen(es[n..]) else n
  }

  predicate ItemHas(es: seq<Elem>, chr: nat)
    requires |es| > 0 && IsCharElem(es[0])
  {
    if ItemLen(es) == 2 then es[0].c <= chr <= es[1].c else es[0].c == chr
  }

  predicate ItemsHave(es: seq<Elem>, chr: nat)
    requires |es| > 0 && IsCharElem(es[0])
  {
    var n := ItemLen(es);
    ItemHas(es, chr) || (n < |es| && es[n].CharAlt? && ItemsHave(es[n..], chr))
  }

  /** Does the (regular or negated) class at the head contain `chr`? */
  predicate ClassHas(es: seq<Elem>, chr: nat)
    requires |es| > 0 && IsClassStart(es[0])
  {
    ItemsHave(es, chr) == es[0].Char?
  }

  // ----- derivations

  /** `w` is `u` followed by `v`. */
  predicate Cat(w: Word, u: Word, v: Word) {
    w == u + v
  }

  /** `s` is the index of the first element of an alternative of rule `r`. */
  predicate AltStart(g: Rules, r: nat, s: nat) {
    r < |g| && s < |g[r]| && (s == 0 || g[r][s - 1].Alt?)
  }

  /** A derivation of the elements of a sequence, up to the end of its alternative. */
  datatype Tree =
    | Done
    | Chr(c: nat, rest: Tree)
    | Call(alt: nat, sub: Tree, rest: Tree)

  ghost predicate IsTree(g: Rules, es: seq<Elem>, t: Tree)
    decreases t
  {
    if es == [] || IsEnd(es[0]) then t.Done?
    else if es[0].RuleRef? then
      t.Call? && AltStart(g, es[0].rule, t.alt) &&
      IsTree(g, g[es[0].rule][t.alt..], t.sub) && IsTree(g, es[1..], t.rest)
    else
      IsClassStart(es[0]) && t.Chr? && ClassHas(es, t.c) && IsTree(g, es[ClassLen(es)..], t.rest)
  }

  /** The word at the leaves of a derivation. */
  function Yield(t: Tree): Word {
    match t
    case Done => []
    case Chr(c, rest) => [c] + Yield(rest)
    case Call(_, sub, rest) => Yield(sub) + Yield(rest)
  }

  /** The words that `es` derives. */
  ghost predicate Lang(g: Rules, es: seq<Elem>, w: Word) {
    exists t {:trigger IsTree(g, es, t)} :: IsTree(g, es, t) && Yield(t) == w
  }

  ghost predicate RuleLang(g: Rules, r: nat, w: Word) {
    exists s: nat :: AltStart(g, r, s) && Lang(g, g[r][s..], w)
  }

  lemma LangEnd(g: Rules, es: seq<Elem>, w: Word)
    requires es == [] || IsEnd(es[0])
    ensures Lang(g, es, w) <==> w == []
  {
    assert IsTree(g, es, Done) && Yield(Done) == [];
  }

  lemma LangClass(g: Rules, es: seq<Elem>, w: Word)
    requires es != [] && IsClassStart(es[0])
    ensures Lang(g, es, w) <==> w != [] && ClassHas(es, w[0]) && Lang(g, es[ClassLen(es)..], w[1..])
  {
    if Lang(g, es, w) {
      var t :| IsTree(g, es, t) && Yield(t) == w;
      assert IsTree(g, es[ClassLen(es)..], t.rest) && Yield(t.rest) == w[1..];
    }
    if w != [] && ClassHas(es, w[0]) && Lang(g, es[ClassLen(es)..], w[1..]) {
      var t :| IsTree(g, es[ClassLen(es)..], t) && Yield(t) == w[1..];
      assert IsTree(g, es, Chr(w[0], t)) && Yield(Chr(w[0], t)) == w;
    }
  }

  lemma LangRefElim(g: Rules, es: seq<Elem>, w: Word) returns (s: nat, u: Word, v: Word)
    requires es != [] && es[0].RuleRef? && Lang(g, es, w)
    ensures AltStart(g, es[0].rule, s) && w == u + v
    ensures Lang(g, g[es[0].rule][s..], u) && Lang(g, es[1..], v)
  {
    var t :| IsTree(g, es, t) && Yield(t) == w;
    s, u, v := t.alt, Yield(t.sub), Yield(t.rest);
    assert IsTree(g, g[es[0].rule][s..], t.sub) && IsTree(g, es[1..], t.rest);
  }

  lemma LangRefIntro(g: Rules, es: seq<Elem>, s: nat, u: Word, v: Word)
    requires es != [] && es[0].RuleRef? && AltStart(g, es[0].rule, s)
    requires Lang(g, g[es[0].rule][s..], u) && Lang(g, es[1..], v)
    ensures Lang(g, es, u + v)
  {
    var t1 :| IsTree(g, g[es[0].rule][s..], t1) && Yield(t1) == u;
    var t2 :| IsTree(g, es[1..], t2) && Yield(t2) == v;
    assert IsTree(g, es, Call(s, t1, t2)) && Yield(Call(s, t1, t2)) == u + v;
  }

  /** A derivation that starts with a reference, taken apart and put together. */
  lemma CallTree(g: Rules, id: nat, tail: seq<Elem>, t: Tree)
    ensures IsTree(g, [RuleRef(id)] + tail, t) <==>
            t.Call? && AltStart(g, id, t.alt) && IsTree(g, g[id][t.alt..], t.sub) && IsTree(g, tail, t.rest)
  {
    assert ([RuleRef(id)] + tail)[1..] == tail;
  }
}
