/** How a path query is stored: the number of levels, the number of variants of a level and the length of a
    level are 16-bit fields, and the next level is found by adding that length. */
module LQueryStore {
  import opened Basics
  import opened LTree
  import opened PathQuery
  import opened LQueryText
  import opened LQueryRoundTrip

  // MAXALIGN rounds up to words of 8 bytes.
  function Words(n: nat): (w: nat)
    ensures 8 * w >= n
  {
    (n + 7) / 8
  }

  function Align(n: nat): nat {
    8 * Words(n)
  }

  const LVAR_HDRSIZE := 8
  const LQL_HDRSIZE := 16

  // The words a variant takes: its header and its name.
  function VariantWords(v: Variant): nat {
    1 + Words(|v.name|)
  }

  function VariantsWords(vs: seq<Variant>): (w: nat)
    ensures w >= |vs|
  {
    if vs == [] then 0 else VariantsWords(vs[..|vs| - 1]) + VariantWords(vs[|vs| - 1])
  }

  /** The bytes a level takes. */
  function LevelSize(l: Level): (n: nat)
    ensures n >= LQL_HDRSIZE + LVAR_HDRSIZE * |l.variants|
  {
    LQL_HDRSIZE + 8 * VariantsWords(l.variants)
  }

  // ----- The stored form -----

  // The variants that are copied: as many as a 16-bit count of them says.
  function Copied(l: Level): (vs: seq<Variant>)
    ensures |vs| == UInt2(|l.variants|)
  {
    l.variants[..UInt2(|l.variants|)]
  }

  // The length field: a 16-bit sum.
  function TotalLen(l: Level): nat {
    UInt2(LQL_HDRSIZE + 8 * VariantsWords(Copied(l)))
  }

  // Where level i is written, counted from the first level.
  function Start(ls: seq<Level>, i: nat): nat
    requires i <= |ls|
  {
    if i == 0 then 0 else Start(ls, i - 1) + Align(TotalLen(ls[i - 1]))
  }

  // The levels at the start that have one variant, by the 16-bit count, and no flag.
  function CountedGood(ls: seq<Level>): (n: nat)
    ensures n <= |ls|
  {
    if ls == [] || UInt2(|ls[0].variants|) != 1 || Flagged(ls[0]) then 0 else 1 + CountedGood(ls[1..])
  }

  // A level as it is written, with its header.
  datatype Written = Written(at: nat, totallen: nat, numvar: nat, level: Level)

  datatype Stored = Stored(numlevel: nat, firstgood: nat, hasnot: bool, levels: seq<Written>)

  function WriteLevel(ls: seq<Level>, i: nat): Written
    requires i < |ls|
  {
    Written(Start(ls, i), TotalLen(ls[i]), UInt2(|ls[i].variants|), ls[i])
  }

  /** What lquery_in stores of the levels it has read. */
  function Store(q: LQuery): (st: Stored)
    ensures |st.levels| == |q.levels|
  {
    Stored(UInt2(|q.levels|), UInt2(CountedGood(q.levels)), q.hasnot,
           seq(|q.levels|, i requires 0 <= i < |q.levels| => WriteLevel(q.levels, i)))
  }

  // The query that the stored levels are.
  function QueryOf(st: Stored): (q: LQuery)
    ensures |q.levels| == |st.levels|
  {
    LQuery(seq(|st.levels|, i requires 0 <= i < |st.levels| => st.levels[i].level), st.firstgood, st.hasnot)
  }

  // Every field holds what it should, and each level starts where the one before it ends.
  predicate IntactAt(st: Stored, i: nat)
    requires i < |st.levels|
  {
    var w := st.levels[i];
    && w.numvar == |w.level.variants| && w.totallen == LevelSize(w.level)
    && (i + 1 < |st.levels| ==> st.levels[i + 1].at == w.at + LevelSize(w.level))
  }

  predicate Intact(st: Stored) {
    && st.numlevel == |st.levels| && ValidQuery(QueryOf(st))
    && forall i :: 0 <= i < |st.levels| ==> IntactAt(st, i)
  }

  // The condition on a query: its levels can be counted and each measured in 16 bits.
  predicate SizesFit(q: LQuery) {
    |q.levels| <= 0xffff && forall i :: 0 <= i < |q.levels| ==> LevelSize(q.levels[i]) <= 0xffff
  }

  lemma FittingLevel(l: Level)
    requires LevelSize(l) <= 0xffff
    ensures UInt2(|l.variants|) == |l.variants| && TotalLen(l) == Align(TotalLen(l)) == LevelSize(l)
  {
    assert Copied(l) == l.variants;
    WordsOf(2 + VariantsWords(l.variants));
  }

  lemma WordsOf(w: nat)
    ensures Words(8 * w) == w
  {
  }

  lemma {:induction false} FittingGood(ls: seq<Level>)
    requires forall i :: 0 <= i < |ls| ==> LevelSize(ls[i]) <= 0xffff
    ensures CountedGood(ls) == FirstGood(ls)
  {
    if ls != [] {
      FittingLevel(ls[0]);
      FittingGood(ls[1..]);
    }
  }

  lemma FittingIsIntact(q: LQuery)
    requires ValidQuery(q) && SizesFit(q)
    ensures Intact(Store(q)) && QueryOf(Store(q)) == q
  {
    var st := Store(q);
    assert QueryOf(st).levels == q.levels;
    FittingGood(q.levels);
    forall i | 0 <= i < |st.levels| ensures IntactAt(st, i) {
      WrittenAt(q, i);
    }
  }

  lemma WrittenAt(q: LQuery, i: nat)
    requires i < |q.levels| && LevelSize(q.levels[i]) <= 0xffff
    ensures IntactAt(Store(q), i)
  {
    FittingLevel(q.levels[i]);
    assert Store(q).levels[i] == WriteLevel(q.levels, i);
    if i + 1 < |q.levels| {
      assert Store(q).levels[i + 1] == WriteLevel(q.levels, i + 1);
    }
  }

  lemma IntactFits(q: LQuery, i: nat)
    requires i < |q.levels| && IntactAt(Store(q), i)
    ensures LevelSize(q.levels[i]) <= 0xffff
  {
    assert Store(q).levels[i] == WriteLevel(q.levels, i);
  }

  /** A query that was read is stored intact if and only if its sizes fit. */
  lemma IntactIff(q: LQuery)
    requires ValidQuery(q)
    ensures Intact(Store(q)) <==> SizesFit(q)
    ensures SizesFit(q) ==> QueryOf(Store(q)) == q
  {
    if SizesFit(q) {
      FittingIsIntact(q);
    } else if Intact(Store(q)) {
      forall i | 0 <= i < |q.levels| ensures LevelSize(q.levels[i]) <= 0xffff {
        IntactFits(q, i);
      }
    }
  }

  /** The level after one that is too long is written inside it. */
  lemma OverlongOverlaps(ls: seq<Level>, i: nat)
    requires i + 1 < |ls| && |ls[i].variants| <= 0xffff && LevelSize(ls[i]) > 0xffff
    ensures Start(ls, i) <= Start(ls, i + 1) < Start(ls, i) + LevelSize(ls[i])
  {
    assert Copied(ls[i]) == ls[i].variants;
    var w := WholeWords(2 + VariantsWords(ls[i].variants));
    WordsOf(w);
  }

  lemma {:induction false} WholeWords(w: nat) returns (v: nat)
    ensures UInt2(8 * w) == 8 * v
  {
    v := w;
    if 8 * w >= 0x1_0000 {
      v := WholeWords(w - 0x2000);
    }
  }

  // ----- Texts that are not stored intact -----

  const A := Variant("a", false, false, false)

  lemma OneLetter(l: Level, last: bool)
    requires l.variants != [] && !l.not && l.low == 0 && l.high == 0 && forall j :: 0 <= j < |l.variants| ==> l.variants[j] == A
    ensures WellFormedLevel(l, last)
  {
    assert AlnumRun("a") == 1;
    assert "a"[1..] == "";
    forall j | 0 <= j < |l.variants| ensures WellFormedVariant(l, j, last) {
      assert l.variants[j] == A;
    }
  }

  function Repeat(l: Level, n: nat): (ls: seq<Level>)
    ensures |ls| == n && forall i :: 0 <= i < n ==> ls[i] == l
  {
    seq(n, _ => l)
  }

  lemma {:induction false} NoneIsNot(ls: seq<Level>)
    requires forall i :: 0 <= i < |ls| ==> !ls[i].not
    ensures !AnyNot(ls)
  {
  }

  /** A text of 65536 levels, a.a.a. ... .a, is read, and no level is counted. */
  lemma TooManyLevels()
    ensures var ls := Repeat(Level([A], false, 0, 0), 0x1_0000);
            var q := LQuery(ls, FirstGood(ls), false);
            Parse(Print(q)) == Read(q) && Store(q).numlevel == 0 && !Intact(Store(q))
  {
    var ls := Repeat(Level([A], false, 0, 0), 0x1_0000);
    var q := LQuery(ls, FirstGood(ls), false);
    forall i | 0 <= i < |ls| ensures WellFormedLevel(ls[i], i + 1 == |ls|) {
      OneLetter(ls[i], i + 1 == |ls|);
    }
    NoneIsNot(ls);
    PrintedParsesBack(q);
    IntactIff(q);
  }

  function Letters(n: nat): (vs: seq<Variant>)
    ensures |vs| == n && (forall i :: 0 <= i < n ==> vs[i] == A) && (n > 0 ==> vs[..n - 1] == Letters(n - 1))
  {
    if n == 0 then [] else Letters(n - 1) + [A]
  }

  lemma {:induction false} LettersSize(n: nat)
    ensures VariantsWords(Letters(n)) == 2 * n
  {
    if n > 0 {
      var vs := Letters(n);
      LettersSize(n - 1);
      assert vs[..|vs| - 1] == Letters(n - 1) && vs[|vs| - 1] == A;
      assert VariantWords(A) == 2;
    }
  }

  // n variants and one more level.
  function TwoLevels(n: nat): (q: LQuery) {
    var ls := [Level(Letters(n), false, 0, 0), Level([A], false, 0, 0)];
    LQuery(ls, FirstGood(ls), false)
  }

  lemma TwoLevelsRead(n: nat)
    requires n > 0
    ensures Parse(Print(TwoLevels(n))) == Read(TwoLevels(n))
  {
    var q := TwoLevels(n);
    OneLetter(q.levels[0], false);
    OneLetter(q.levels[1], true);
    NoneIsNot(q.levels);
    PrintedParsesBack(q);
  }

  /** A level of 4095 variants, a|a| ... |a, has a length of 65536 bytes, which is stored as 0: in the text
      a|a| ... |a.a the second level is written over the first. */
  lemma OverlongLevel(n: nat)
    requires n == 4095
    ensures var q := TwoLevels(n);
            Parse(Print(q)) == Read(q) && Store(q).levels[1].at == Store(q).levels[0].at && !Intact(Store(q))
  {
    var q := TwoLevels(n);
    TwoLevelsRead(n);
    LettersLevel(q.levels[0], n);
    OverlongStart(q);
    IntactIff(q);
  }

  lemma LettersLevel(l: Level, n: nat)
    requires n == 4095 && l.variants == Letters(n)
    ensures LevelSize(l) == 0x1_0000 && TotalLen(l) == 0
  {
    LettersSize(n);
    LengthWraps(l);
  }

  lemma LengthWraps(l: Level)
    requires |l.variants| <= 0xffff && VariantsWords(l.variants) == 8190
    ensures LevelSize(l) == 0x1_0000 && TotalLen(l) == 0
  {
    assert Copied(l) == l.variants;
  }

  lemma OverlongStart(q: LQuery)
    requires |q.levels| > 1 && TotalLen(q.levels[0]) == 0
    ensures Store(q).levels[1].at == Store(q).levels[0].at
  {
    assert Start(q.levels, 1) == Start(q.levels, 0) + Align(0);
    assert Store(q).levels[1] == WriteLevel(q.levels, 1) && Store(q).levels[0] == WriteLevel(q.levels, 0);
  }
}
