/** Path queries: levels of alternatives with modifiers, and wildcards with bounds on how many levels they
    stand for. */
module PathQuery {
  import opened CString
  import opened LTree

  datatype Variant = Variant(name: string, incase: bool, anyend: bool, sublexeme: bool)

  // A level with variants stands for one level of a path; one without is a wildcard for low to high levels.
  datatype Level = Level(variants: seq<Variant>, not: bool, low: nat, high: nat)

  datatype LQuery = LQuery(levels: seq<Level>, firstgood: nat, hasnot: bool)

  predicate Flagged(l: Level) {
    l.not || exists i :: 0 <= i < |l.variants| && (l.variants[i].incase || l.variants[i].anyend || l.variants[i].sublexeme)
  }

  // A level that stands for exactly one label.
  predicate Good(l: Level) {
    |l.variants| == 1 && !Flagged(l)
  }

  // How many levels at the start are good.
  function FirstGood(ls: seq<Level>): (n: nat)
    ensures n <= |ls|
  {
    if ls == [] || !Good(ls[0]) then 0 else 1 + FirstGood(ls[1..])
  }

  lemma {:induction false} FirstGoodAt(ls: seq<Level>, i: nat)
    requires i < FirstGood(ls)
    ensures Good(ls[i])
  {
    if i > 0 {
      FirstGoodAt(ls[1..], i - 1);
    }
  }

  predicate ValidQuery(q: LQuery) {
    q.firstgood == FirstGood(q.levels)
  }

  // LQL_CANLOOKSIGN: the hashes of the variants say whether the level can match.
  predicate CanLookSign(l: Level) {
    !l.not && forall i :: 0 <= i < |l.variants| ==> !l.variants[i].anyend && !l.variants[i].sublexeme
  }

  function LowerAll(s: string): string {
    seq(|s|, i requires 0 <= i < |s| => Lower(s[i]))
  }

  // ----- What a query without negation means -----

  // The end of the run of bars, and of the run of other characters, from i on.
  function SkipBars(s: string, i: nat): (n: nat)
    requires i <= |s|
    ensures i <= n <= |s| && (n < |s| ==> s[n] != '_')
    decreases |s| - i
  {
    if i < |s| && s[i] == '_' then SkipBars(s, i + 1) else i
  }

  function WordEnd(s: string, i: nat): (n: nat)
    requires i <= |s|
    ensures i <= n <= |s| && (i < |s| && s[i] != '_' ==> i < n)
    decreases |s| - i
  {
    if i < |s| && s[i] != '_' then WordEnd(s, i + 1) else i
  }

  // The words of s from i on; bars separate words.
  function Words(s: string, i: nat): (ws: seq<string>)
    requires i <= |s|
    decreases |s| - i
  {
    var a := SkipBars(s, i);
    if a == |s| then [] else [s[a..WordEnd(s, a)]] + Words(s, WordEnd(s, a))
  }

  // x is w, or starts with w when the variant allows any ending; case counts unless it allows any case.
  predicate NameMatches(v: Variant, w: string, x: string) {
    && (|x| == |w| || (|x| > |w| && v.anyend))
    && if v.incase then LowerAll(w) == LowerAll(x[..|w|]) else w == x[..|w|]
  }

  // Every word of the variant matches some word of the label.
  ghost predicate WordsMatch(v: Variant, name: string) {
    forall i :: 0 <= i < |Words(v.name, 0)| ==> WordMatches(v, Words(v.name, 0)[i], Words(name, 0))
  }

  ghost predicate WordMatches(v: Variant, w: string, xs: seq<string>) {
    exists j :: 0 <= j < |xs| && NameMatches(v, w, xs[j])
  }

  // A label is the variant, or has its words.
  ghost predicate VariantMatches(v: Variant, name: string) {
    if v.sublexeme then WordsMatch(v, name) else NameMatches(v, v.name, name)
  }

  ghost predicate LevelMatches(l: Level, name: string) {
    exists i :: 0 <= i < |l.variants| && VariantMatches(l.variants[i], name)
  }

  /** A path fits levels without negation: a level with variants takes one label, a wildcard takes a number
      of labels within its bounds. */
  ghost predicate Fits(ls: seq<Level>, p: Path) {
    if ls == [] then p == []
    else if ls[0].variants == [] then
      exists n :: ls[0].low <= n <= ls[0].high && n <= |p| && Fits(ls[1..], p[n..])
    else p != [] && LevelMatches(ls[0], p[0]) && Fits(ls[1..], p[1..])
  }

  // ----- What every matching path has -----

  // The path starts with the fixed labels of the query.
  predicate HasPrefix(q: LQuery, p: Path)
    requires ValidQuery(q)
  {
    q.firstgood <= |p| && forall i :: 0 <= i < q.firstgood ==> p[i] == FixedName(q, i)
  }

  function FixedName(q: LQuery, i: nat): string
    requires ValidQuery(q) && i < q.firstgood
  {
    FirstGoodAt(q.levels, i);
    q.levels[i].variants[0].name
  }

  // Some label of the path is, up to case, one of the variants.
  ghost predicate HasVariant(l: Level, p: Path) {
    exists i, j :: 0 <= i < |l.variants| && 0 <= j < |p| && LowerAll(l.variants[i].name) == LowerAll(p[j])
  }

  ghost predicate HasVariants(q: LQuery, p: Path) {
    forall k :: 0 <= k < |q.levels| && q.levels[k].variants != [] && CanLookSign(q.levels[k]) ==> HasVariant(q.levels[k], p)
  }
}
