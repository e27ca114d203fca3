/** The texts of path queries, by themselves: levels with dots between them, a level being variants with bars
    between them, with or without ! in front, or a wildcard with its bounds in any of their forms; and a variant
    being a name with its modifiers in any order.  lquery_in reads each of them as the query it spells. */
module LQueryGrammar {
  import opened Basics
  import opened CString
  import opened LTree
  import opened PathQuery
  import opened LQueryText
  import opened LQueryRoundTrip

  // ----- Spelling -----

  predicate Distinct(u: string) {
    forall i, j :: 0 <= i < j < |u| ==> u[i] != u[j]
  }

  // The modifiers of a variant, each once, in any order.
  predicate SpellsMods(u: string, v: Variant) {
    && Distinct(u) && (forall i :: 0 <= i < |u| ==> u[i] in {'@', '*', '%'})
    && ('@' in u <==> v.incase) && ('*' in u <==> v.anyend) && ('%' in u <==> v.sublexeme)
  }

  predicate SpellsVariant(t: string, v: Variant) {
    v.name != "" && AllAlnum(v.name) && v.name <= t && SpellsMods(t[|v.name|..], v)
  }

  // A bound that is left out is 0 below and 65535 above.
  predicate SpellsBound(t: string, n: nat, default: nat) {
    n <= 0xffff && (t == Digits(n) || (t == "" && n == default))
  }

  datatype WildText = Star | Braces(n: string) | Range(from: string, to: string)

  function WildString(w: WildText): (t: string) {
    match w
    case Star => "*"
    case Braces(n) => "*{" + n + "}"
    case Range(from, to) => "*{" + from + "," + to + "}"
  }

  predicate SpellsWild(w: WildText, low: nat, high: nat) {
    match w
    case Star => low == 0 && high == 0xffff
    case Braces(n) => low == high <= 0xffff && n == Digits(low)
    case Range(from, to) => SpellsBound(from, low, 0) && SpellsBound(to, high, 0xffff)
  }

  datatype LevelText = Variants(items: seq<string>) | Wildcard(w: WildText)

  function LevelString(t: LevelText, l: Level): (s: string) {
    if t.Variants? then (if l.not then "!" else "") + Join(t.items, "|", 0) else WildString(t.w)
  }

  // The length of a variant counts its modifiers and the !.
  predicate SpellsAt(items: seq<string>, l: Level, j: nat)
    requires j < |items| == |l.variants|
  {
    SpellsVariant(items[j], l.variants[j]) && |items[j]| + (if l.not && j == 0 then 1 else 0) <= 255
  }

  predicate SpellsLevel(t: LevelText, l: Level) {
    match t
    case Variants(items) =>
      |items| == |l.variants| > 0 && l.low == l.high == 0 && forall j :: 0 <= j < |items| ==> SpellsAt(items, l, j)
    case Wildcard(w) => l.variants == [] && !l.not && SpellsWild(w, l.low, l.high)
  }

  predicate SpellsLevels(ts: seq<LevelText>, ls: seq<Level>) {
    |ts| == |ls| > 0 && forall i :: 0 <= i < |ls| ==> SpellsLevel(ts[i], ls[i])
  }

  function LevelStrings(ts: seq<LevelText>, ls: seq<Level>): (items: seq<string>)
    requires |ts| == |ls|
    ensures |items| == |ls| && forall i :: 0 <= i < |ls| ==> items[i] == LevelString(ts[i], ls[i])
  {
    seq(|ls|, i requires 0 <= i < |ls| => LevelString(ts[i], ls[i]))
  }

  // ----- Variants are read -----

  lemma {:induction false} ModsInAnyOrder(f: Flags, u: string)
    requires Distinct(u) && forall i :: 0 <= i < |u| ==> u[i] in {'@', '*', '%'} && AddFlag(f, u[i]) != f
    ensures AddFlags(f, u) == Flags(f.incase || '@' in u, f.anyend || '*' in u, f.sublexeme || '%' in u)
    ensures LQueryText.Count(AddFlags(f, u)) == LQueryText.Count(f) + |u|
    decreases |u|
  {
    if u != "" {
      var f', t := AddFlag(f, u[0]), u[1..];
      assert u == [u[0]] + t;
      forall i | 0 <= i < |t| ensures t[i] in {'@', '*', '%'} && AddFlag(f', t[i]) != f' {
        assert t[i] == u[i + 1] && u[0] != u[i + 1];
      }
      ModsInAnyOrder(f', t);
    }
  }

  // The name characters of a spelled variant, and the modifiers after them.
  lemma SpelledMods(t: string, v: Variant)
    requires SpellsVariant(t, v)
    ensures var u := t[|v.name|..];
            AddFlags(NONE, u) == FlagsOf(v) && LQueryText.Count(FlagsOf(v)) == |u| && forall i :: 0 <= i < |u| ==> IsFlag(u[i])
  {
    var u := t[|v.name|..];
    forall i | 0 <= i < |u| ensures u[i] in {'@', '*', '%'} && AddFlag(NONE, u[i]) != NONE {
    }
    ModsInAnyOrder(NONE, u);
  }

  lemma SpelledParts(s: string, at: nat, t: string, v: Variant)
    requires SpellsVariant(t, v) && Has(s, at, t)
    ensures var n := |v.name|;
            0 < n <= |t| && at + |t| <= |s| && s[at..at + n] == v.name && s[at + n..at + |t|] == t[n..]
  {
    HasSlice(s, at, t);
    HasRest(s, at, t, |v.name|);
    assert s[at..at + |v.name|] == s[at..at + |t|][..|v.name|] == t[..|v.name|];
  }

  lemma VariantReadsFrom(s: string, at: nat, t: string, v: Variant, p: P)
    requires SpellsVariant(t, v) && Has(s, at, t) && AtVariant(p, at)
    ensures at + |t| <= |s| && ReadsFrom(s, at, at + |t|, v, p)
  {
    var n := |v.name|;
    SpelledMods(t, v);
    SpelledParts(s, at, t, v);
    forall i | at <= i < at + n ensures IsAlnum(s[i]) {
      assert s[i] == s[at..at + n][i - at];
    }
    forall i | at + n <= i < at + |t| ensures IsFlag(s[i]) {
      assert s[i] == s[at + n..at + |t|][i - at - n];
    }
    RunSpelled(s, at, n, |t|, FlagsOf(v), p);
  }

  lemma VariantReads(s: string, at: nat, t: string, v: Variant)
    requires SpellsVariant(t, v) && Has(s, at, t)
    ensures Reads(s, at, at + |t|, v) && t != "" && IsAlnum(s[at])
  {
    forall p | AtVariant(p, at) ensures ReadsFrom(s, at, at + |t|, v, p) {
      VariantReadsFrom(s, at, t, v, p);
    }
    SpelledParts(s, at, t, v);
    assert s[at] == s[at..at + |v.name|][0] == v.name[0];
  }

  lemma SpelledItem(s: string, ptr: nat, end: nat, l: Level, items: seq<string>, j: nat)
    requires j < |l.variants| == |items| && SpellsAt(items, l, j) && Standing(s, ptr, end, items, "|", 0)
    ensures FineItem(s, l, ptr, items, j)
  {
    ItemAt(s, ptr, end, items, "|", j);
    VariantReads(s, Start(ptr, items, j), items[j], l.variants[j]);
  }

  lemma VariantsRead(s: string, ptr: nat, end: nat, levels: seq<Level>, l: Level, items: seq<string>) returns (p: P)
    requires SpellsLevel(Variants(items), l) && Has(s, ptr, Bang(l)) && Standing(s, ptr + |Bang(l)|, end, items, "|", 0)
    ensures end <= |s| && Leads(s, ptr, Fresh(levels), end, p) && Closes(s, end, p, levels, l)
  {
    var from := ptr + |Bang(l)|;
    forall j | 0 <= j < |items| ensures FineItem(s, l, from, items, j) {
      assert SpellsAt(items, l, j);
      SpelledItem(s, from, end, l, items, j);
    }
    FinePieces(s, from, end, l, items);
    p := ReadAllVariants(s, ptr, levels, l, from, items);
    assert SpellsAt(items, l, |items| - 1);
    CloseVariants(s, end, levels, l, p);
  }

  // ----- Wildcards are read -----

  // *{,}
  lemma ReadOpen(s: string, ptr: nat, levels: seq<Level>)
    requires Has(s, ptr, FromTo("", ""))
    ensures Leads(s, ptr, Fresh(levels), ptr + 4, Bounded(levels, 0, ANY))
  {
    FromToText(s, ptr, "", "");
    HasAt(s, ptr + 2, ",", 0);
    HasAt(s, ptr + 3, "}", 0);
    ReadBrace(s, ptr, levels);
    var a, b, c := LQueryRoundTrip.Star(levels, WaitFNum), LQueryRoundTrip.Star(levels, WaitSNum), Bounded(levels, 0, ANY);
    LeadsStep(s, ptr + 2, a, b);
    LeadsOn(s, ptr, Fresh(levels), ptr + 2, a, ptr + 3, b);
    LeadsStep(s, ptr + 3, b, c);
    LeadsOn(s, ptr, Fresh(levels), ptr + 3, b, ptr + 4, c);
  }

  lemma RangeReads(s: string, ptr: nat, levels: seq<Level>, from: string, to: string, low: nat, high: nat)
    requires SpellsBound(from, low, 0) && SpellsBound(to, high, 0xffff) && Has(s, ptr, FromTo(from, to))
    ensures Leads(s, ptr, Fresh(levels), ptr + |FromTo(from, to)|, Bounded(levels, low, high))
  {
    if from == "" && to == "" {
      ReadOpen(s, ptr, levels);
    } else if from == "" {
      ReadUpToText(s, ptr, levels, high);
    } else if to == "" {
      ReadAtLeastText(s, ptr, levels, low);
    } else {
      ReadBetweenText(s, ptr, levels, low, high);
    }
  }

  lemma WildReads(s: string, ptr: nat, levels: seq<Level>, w: WildText, low: nat, high: nat) returns (p: P)
    requires SpellsWild(w, low, high) && Has(s, ptr, WildString(w))
    ensures var end := ptr + |WildString(w)|;
            Leads(s, ptr, Fresh(levels), end, p) && Closes(s, end, p, levels, Level([], false, low, high))
  {
    var end := ptr + |WildString(w)|;
    p := Bounded(levels, low, high);
    CloseBounded(s, end, levels, low, high);
    match w
    case Star =>
      ReadStar(s, ptr, levels);
      p := LQueryRoundTrip.Star(levels, WaitOpen);
    case Braces(n) => ReadExactly(s, ptr, levels, low);
    case Range(from, to) => RangeReads(s, ptr, levels, from, to, low, high);
  }

  // ----- Levels and queries are read -----

  lemma LevelReads(s: string, ptr: nat, t: LevelText, l: Level)
    requires SpellsLevel(t, l) && Has(s, ptr, LevelString(t, l))
    ensures ReadsLevel(s, ptr, ptr + |LevelString(t, l)|, l)
  {
    var end := ptr + |LevelString(t, l)|;
    forall levels ensures ReadsFresh(s, ptr, end, l, levels) {
      if t.Variants? {
        HasSplit(s, ptr, Bang(l), Join(t.items, "|", 0));
        JoinStands(s, ptr + |Bang(l)|, end, t.items, "|", 0);
        var p := VariantsRead(s, ptr, end, levels, l, t.items);
      } else {
        assert l == Level([], false, l.low, l.high);
        var p := WildReads(s, ptr, levels, t.w, l.low, l.high);
      }
    }
  }

  lemma SpelledPiece(s: string, ts: seq<LevelText>, ls: seq<Level>, items: seq<string>, i: nat)
    requires i < |ls| == |ts| == |items| && SpellsLevel(ts[i], ls[i]) && items[i] == LevelString(ts[i], ls[i])
    requires Standing(s, 0, |s|, items, ".", 0)
    ensures LevelPiece(s, ls, items, i)
  {
    ItemAt(s, 0, |s|, items, ".", i);
    LevelReads(s, Start(0, items, i), ts[i], ls[i]);
  }

  lemma PiecesParse(s: string, ls: seq<Level>, items: seq<string>)
    requires |items| == |ls| > 0 && forall k :: 0 <= k < |ls| ==> LevelPiece(s, ls, items, k)
    ensures Parse(s) == Done(ls)
  {
    var p := ReadLevels(s, ls, items, 0);
    assert ls[..0] == [];
    LeadsRuns(s, 0, Fresh([]), |s|, p);
  }

  /** lquery_in reads every spelling of levels as these levels, and refuses them when the bounds of a wildcard are
      in the wrong order. */
  lemma SpelledParses(ts: seq<LevelText>, ls: seq<Level>)
    requires SpellsLevels(ts, ls)
    ensures var r := Parse(Join(LevelStrings(ts, ls), ".", 0));
            if forall i :: 0 <= i < |ls| ==> ls[i].low <= ls[i].high then r == Read(LQuery(ls, FirstGood(ls), AnyNot(ls)))
            else r.Refused? && r.error.LowIsGreater?
  {
    var items := LevelStrings(ts, ls);
    var s := Join(items, ".", 0);
    assert Has(s, 0, s);
    JoinStands(s, 0, |s|, items, ".", 0);
    forall i | 0 <= i < |ls| ensures LevelPiece(s, ls, items, i) {
      assert SpellsLevel(ts[i], ls[i]);
      SpelledPiece(s, ts, ls, items, i);
    }
    PiecesParse(s, ls, items);
    SpelledDone(ts, ls);
  }

  lemma SpelledDone(ts: seq<LevelText>, ls: seq<Level>)
    requires SpellsLevels(ts, ls)
    ensures if forall i :: 0 <= i < |ls| ==> ls[i].low <= ls[i].high then Done(ls) == Read(LQuery(ls, FirstGood(ls), AnyNot(ls)))
            else Done(ls).Refused? && Done(ls).error.LowIsGreater?
  {
    if forall i :: 0 <= i < |ls| ==> ls[i].low <= ls[i].high {
      NoneCrossed(ls);
    } else {
      var i :| 0 <= i < |ls| && ls[i].low > ls[i].high;
      assert SpellsLevel(ts[i], ls[i]);
      SomeCrossed(ls, i);
    }
  }

  lemma {:induction false} SomeCrossed(ls: seq<Level>, i: nat)
    requires i < |ls| && Crossed(ls[i])
    ensures FirstCrossed(ls).Some?
  {
    if i > 0 {
      SomeCrossed(ls[1..], i - 1);
    }
  }

  // ----- The example of the manual -----

  // A level with one variant or two, without modifiers or with some.
  function One(v: Variant): (l: Level) {
    Level([v], false, 0, 0)
  }

  function Simple(name: string): (v: Variant) {
    Variant(name, false, false, false)
  }

  const EXAMPLE := [One(Simple("Top")), Level([], false, 0, 2), One(Variant("sport", true, true, false)),
                    Level([Simple("football"), Simple("tennis")], true, 0, 0),
                    Level([Variant("Russ", false, true, false), Simple("Spain")], false, 0, 0)]

  const EXAMPLE_TEXTS := [Variants(["Top"]), Wildcard(Range("0", "2")), Variants(["sport*@"]),
                          Variants(["football", "tennis"]), Variants(["Russ*", "Spain"])]

  lemma SpellsOne(t: string, v: Variant)
    requires SpellsVariant(t, v) && |t| <= 255
    ensures SpellsLevel(Variants([t]), One(v))
  {
    assert SpellsAt([t], One(v), 0);
  }

  lemma SpellsTwo(t: string, u: string, v: Variant, w: Variant, not: bool)
    requires SpellsVariant(t, v) && SpellsVariant(u, w) && |t| < 255 && |u| <= 255
    ensures SpellsLevel(Variants([t, u]), Level([v, w], not, 0, 0))
  {
    var l := Level([v, w], not, 0, 0);
    assert SpellsAt([t, u], l, 0) && SpellsAt([t, u], l, 1);
  }

  lemma SpellsSimple(name: string)
    requires name != "" && AllAlnum(name)
    ensures SpellsVariant(name, Simple(name))
  {
    assert name[|name|..] == "";
  }

  lemma ExampleSpells()
    ensures SpellsLevels(EXAMPLE_TEXTS, EXAMPLE)
  {
    SpellsSimple("Top");
    SpellsSimple("football");
    SpellsSimple("tennis");
    SpellsSimple("Spain");
    assert "sport*@"[5..] == "*@" && SpellsVariant("sport*@", Variant("sport", true, true, false));
    assert "Russ*"[4..] == "*" && SpellsVariant("Russ*", Variant("Russ", false, true, false));
    SpellsOne("Top", Simple("Top"));
    SpellsOne("sport*@", Variant("sport", true, true, false));
    SpellsTwo("football", "tennis", Simple("football"), Simple("tennis"), true);
    SpellsTwo("Russ*", "Spain", Variant("Russ", false, true, false), Simple("Spain"), false);
    assert Digits(0) == "0" && Digits(2) == "2";
  }

  lemma JoinTwo(t: string, u: string, sep: string)
    ensures Join([t, u], sep, 0) == t + sep + u
  {
    assert Join([t, u], sep, 1) == u;
  }

  lemma ExampleStrings()
    ensures LevelStrings(EXAMPLE_TEXTS, EXAMPLE) == ["Top", "*{0,2}", "sport*@", "!football|tennis", "Russ*|Spain"]
  {
    JoinTwo("football", "tennis", "|");
    JoinTwo("Russ*", "Spain", "|");
    assert WildString(Range("0", "2")) == "*{0,2}";
    assert LevelString(EXAMPLE_TEXTS[3], EXAMPLE[3]) == "!" + "football|tennis" == "!football|tennis";
    assert LevelString(EXAMPLE_TEXTS[4], EXAMPLE[4]) == "" + "Russ*|Spain" == "Russ*|Spain";
    assert LevelString(EXAMPLE_TEXTS[0], EXAMPLE[0]) == "" + "Top" == "Top";
    assert LevelString(EXAMPLE_TEXTS[2], EXAMPLE[2]) == "" + "sport*@" == "sport*@";
  }

  // The levels with dots between them.
  const EXAMPLE_TEXT := "Top" + "." + ("*{0,2}" + "." + ("sport*@" + "." + ("!football|tennis" + "." + "Russ*|Spain")))

  lemma ExampleText()
    ensures Join(LevelStrings(EXAMPLE_TEXTS, EXAMPLE), ".", 0) == EXAMPLE_TEXT
  {
    ExampleStrings();
    var items := LevelStrings(EXAMPLE_TEXTS, EXAMPLE);
    assert Join(items, ".", 4) == items[4];
    assert Join(items, ".", 3) == items[3] + "." + items[4];
    assert Join(items, ".", 2) == items[2] + "." + (items[3] + "." + items[4]);
    assert Join(items, ".", 1) == items[1] + "." + (items[2] + "." + (items[3] + "." + items[4]));
  }

  /** Top.*{0,2}.sport*@.!football|tennis.Russ*|Spain is read as its five levels. */
  lemma ManualExample()
    ensures Parse(EXAMPLE_TEXT) == Read(LQuery(EXAMPLE, 1, true))
  {
    ExampleSpells();
    ExampleText();
    SpelledParses(EXAMPLE_TEXTS, EXAMPLE);
    assert EXAMPLE[3].not && !Good(EXAMPLE[1]) && Good(EXAMPLE[0]);
    assert FirstGood(EXAMPLE[1..]) == 0 && FirstGood(EXAMPLE) == 1;
  }
}
