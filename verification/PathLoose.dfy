/** What ltq_regex decides for queries with one negated level among wildcards, such as !a.*, *.!a and *.!a.*, and
    exactly when that is that the path does not fit the query with its negation taken away. */
module PathLoose {
  import opened Basics
  import opened CString
  import opened LTree
  import opened PathQuery
  import opened PathMatch
  import opened PathMeaning
  import opened PathRuns
  import Exact = PathExact

  // The query without its negations.
  function Plain(ls: seq<Level>): (r: seq<Level>)
    ensures |r| == |ls| && forall i :: 0 <= i < |ls| ==> r[i] == ls[i].(not := false)
  {
    seq(|ls|, i requires 0 <= i < |ls| => ls[i].(not := false))
  }

  // Level f is negated, and all others are wildcards.
  predicate OneNot(ls: seq<Level>, f: nat) {
    f < |ls| && IsNot(ls[f]) && forall i :: 0 <= i < |ls| && i != f ==> IsWild(ls[i])
  }

  // ----- Its bounds -----

  lemma {:induction false} OneNotBefore(ls: seq<Level>, f: nat, z: nat)
    requires OneNot(ls, f) && z <= f
    ensures Taken(ls, 0, z) == 0 && FirstNot(ls, 0, z) == z
    decreases z
  {
    if z > 0 {
      OneNotBefore(ls, f, z - 1);
    }
  }

  lemma {:induction false} OneNotAfter(ls: seq<Level>, f: nat, z: nat)
    requires OneNot(ls, f) && f < z <= |ls|
    ensures FirstNot(ls, 0, z) == f && Taken(ls, 0, z) == Skip(ls, 0, z) + 1
    ensures Skip(ls, 0, z) == if f > 0 then ls[f - 1].low else 0
    decreases z
  {
    if z > f + 1 {
      OneNotAfter(ls, f, z - 1);
    } else {
      OneNotBefore(ls, f, f);
    }
  }

  lemma OneNotRun(ls: seq<Level>, f: nat)
    requires OneNot(ls, f)
    ensures RunEnd(ls, 0) == |ls|
  {
    assert forall i :: 0 <= i < |ls| ==> Loose(ls[i]);
  }

  // What is left after the negated level needs no label exactly when its last wildcard may take none.
  lemma {:induction false} LastLowIs(ls: seq<Level>, a: nat)
    requires a <= |ls| && forall i :: a <= i < |ls| ==> IsWild(ls[i])
    ensures LastLow(ls, a) == if a == |ls| then None else Some(ls[|ls| - 1].low)
    decreases |ls| - a
  {
    if a < |ls| {
      LastLowIs(ls, a + 1);
    }
  }

  // ----- What fits -----

  // Only wildcards: the last of them counts.
  lemma {:induction false} WildsFit(ls: seq<Level>, j: nat, s: Path, lo: nat, hi: nat)
    requires j <= |ls| && forall i :: j <= i < |ls| ==> IsWild(ls[i])
    ensures FitsLoosely(ls, j, |ls|, s, lo, hi) <==>
            if j == |ls| then lo <= |s| <= hi else ls[|ls| - 1].low <= |s| <= ls[|ls| - 1].high
    decreases |ls| - j
  {
    if j < |ls| {
      WildsFit(ls, j + 1, s, ls[j].low, ls[j].high);
    }
  }

  // With a label left the mark of a negation makes no difference.
  lemma {:induction false} PlainFits(ls: seq<Level>, f: nat, j: nat, s: Path, lo: nat, hi: nat)
    requires OneNot(ls, f) && j <= |ls| && (s != [] || j > f)
    ensures FitsLoosely(ls, j, |ls|, s, lo, hi) <==> FitsWithin(Plain(ls), j, s, lo, hi)
    decreases |ls| - j
  {
    var r := Plain(ls);
    if j < |ls| {
      if IsWild(ls[j]) {
        PlainFits(ls, f, j + 1, s, ls[j].low, ls[j].high);
      } else {
        forall n | lo <= n <= hi && n < |s|
          ensures FitsAt(r, j, s, n) <==> LevelMatches(ls[j], s[n]) && FitsLoosely(ls, j + 1, |ls|, s[n + 1..], 0, 0)
        {
          PlainFits(ls, f, j + 1, s[n + 1..], 0, 0);
          assert r[j].variants == ls[j].variants;
        }
      }
    }
  }

  // The wildcards before the one that is tested make no difference.
  lemma {:induction false} TestedFits(ls: seq<Level>, f: nat, j: nat, s: Path, lo: nat, hi: nat)
    requires OneNot(ls, f) && 0 < f && j < f
    ensures FitsLoosely(ls, j, |ls|, s, lo, hi) <==> FitsLoosely(ls, f - 1, |ls|, s, 0, 0)
    decreases f - j
  {
    if j < f - 1 {
      TestedFits(ls, f, j + 1, s, ls[j].low, ls[j].high);
    }
  }

  // A path that is not empty fits loosely exactly when it fits the query without its negation.
  lemma LooselyIsFits(ls: seq<Level>, f: nat, p: Path)
    requires OneNot(ls, f) && p != []
    ensures FitsLoosely(ls, if f > 0 then f - 1 else 0, |ls|, p, 0, 0) <==> Fits(Collapsed(Plain(ls)), p)
  {
    var r := Plain(ls);
    if f > 0 {
      TestedFits(ls, f, 0, p, 0, 0);
    }
    PlainFits(ls, f, 0, p, 0, 0);
    FitsWithinIsFits(r, 0, p, 0, 0);
    assert r[0..] == r && p[0..] == p;
  }

  // ----- What is decided -----

  // A single label, when the wildcards after the negated level may take none.
  lemma ShortFits(ls: seq<Level>, f: nat, p: Path)
    requires OneNot(ls, f) && |p| == 1 && InOrder(ls) && f + 1 < |ls| && ls[|ls| - 1].low == 0
    ensures var t := if f > 0 then f - 1 else 0;
            FitsLoosely(ls, t, f + 1, p, 0, 0) <==> FitsLoosely(ls, t, |ls|, p, 0, 0)
  {
    var lo, hi := if f > 0 then ls[f - 1].low else 0, if f > 0 then ls[f - 1].high else 0;
    assert p[1..] == [];
    WildsFit(ls, f + 1, [], 0, 0);
    LabelFits(ls, f, f + 1, p, lo, hi);
    LabelFits(ls, f, |ls|, p, lo, hi);
  }

  lemma LabelFits(ls: seq<Level>, f: nat, z: nat, p: Path, lo: nat, hi: nat)
    requires f < z <= |ls| && IsNot(ls[f]) && |p| == 1
    ensures FitsLoosely(ls, f, z, p, lo, hi) <==> lo == 0 && LevelMatches(ls[f], p[0]) && FitsLoosely(ls, f + 1, z, [], 0, 0)
  {
    assert p[1..] == [];
  }

  lemma ShortEnds(ls: seq<Level>, f: nat, p: Path)
    requires OneNot(ls, f) && InOrder(ls) && Skip(ls, 0, |ls|) == 0 && |p| == 1 && f + 1 < |ls|
    ensures EndSuits(ls, 0, p) <==>
            && Start(ls, 0, |ls|) <= |p| <= High(ls, 0, |ls|)
            && !FitsLoosely(ls, if f > 0 then f - 1 else 0, |ls|, p, 0, 0)
  {
    OneNotBefore(ls, f, f);
    OneNotAfter(ls, f, f + 1);
    OneNotAfter(ls, f, |ls|);
    ReachedIs(ls, 0, f + 1, |ls|, 1);
    LastLowIs(ls, f + 1);
    LowIsStart(ls, 0, f + 1);
    HighIsAbove(ls, 0, f + 1);
    HighIsAbove(ls, 0, |ls|);
    assert TestedAtEnd(ls, 0, 1) == 1 && First(p, 1) == p;
    assert EndTest(ls, 0, f + 1, p) <==> !FitsLoosely(ls, if f > 0 then f - 1 else 0, f + 1, p, 0, 0);
    if ls[|ls| - 1].low == 0 {
      ShortFits(ls, f, p);
    }
  }

  lemma LongEnds(ls: seq<Level>, f: nat, p: Path)
    requires OneNot(ls, f) && InOrder(ls) && Skip(ls, 0, |ls|) == 0 && p != [] && (|p| > 1 || f + 1 == |ls|)
    ensures EndSuits(ls, 0, p) <==>
            && Start(ls, 0, |ls|) <= |p| <= High(ls, 0, |ls|)
            && !FitsLoosely(ls, if f > 0 then f - 1 else 0, |ls|, p, 0, 0)
  {
    OneNotBefore(ls, f, f);
    OneNotAfter(ls, f, |ls|);
    if f + 1 < |ls| {
      OneNotAfter(ls, f, |ls| - 1);
    }
    ReachedIs(ls, 0, |ls|, |ls|, |p|);
    LowIsStart(ls, 0, |ls|);
  }

  lemma OneNotLoosely(q: LQuery, f: nat, p: Path)
    requires OneNot(q.levels, f) && InOrder(q.levels) && q.hasnot && Skip(q.levels, 0, |q.levels|) == 0 && p != []
    ensures Matches(q, p) <==>
            var ls := q.levels;
            && Start(ls, 0, |ls|) <= |p| <= High(ls, 0, |ls|)
            && !FitsLoosely(ls, if f > 0 then f - 1 else 0, |ls|, p, 0, 0)
  {
    var ls := q.levels;
    MatchIsSuits(q, p);
    OneNotRun(ls, f);
    assert p[0..|p|] == p;
    if |p| == 1 && f + 1 < |ls| {
      ShortEnds(ls, f, p);
    } else {
      LongEnds(ls, f, p);
    }
  }

  /** A query with one negated level among wildcards, whose wildcard right before that level may take no label: a
      path that is not empty is matched exactly when its length is within the bounds and it does not fit the query
      with the negation taken away. */
  lemma OneNotIs(q: LQuery, f: nat, p: Path)
    requires OneNot(q.levels, f) && InOrder(q.levels) && q.hasnot && Skip(q.levels, 0, |q.levels|) == 0 && p != []
    ensures Matches(q, p) <==>
            var ls := q.levels;
            Start(ls, 0, |ls|) <= |p| <= High(ls, 0, |ls|) && !Fits(Collapsed(Plain(ls)), p)
  {
    OneNotLoosely(q, f, p);
    LooselyIsFits(q.levels, f, p);
  }

  /** The empty path is matched exactly when the last wildcard, if there is one, may take no label. */
  lemma EmptyIs(q: LQuery, f: nat)
    requires OneNot(q.levels, f) && InOrder(q.levels) && q.hasnot
    ensures Matches(q, []) <==> NeedsNone(q.levels, 0)
  {
    MatchIsSuits(q, []);
    OneNotRun(q.levels, f);
    ReachedIs(q.levels, 0, 0, |q.levels|, 0);
  }

  // ----- The usual queries -----

  // The wildcard *
  const ANY := Level([], false, 0, 0xffff)

  /** !l.* matches the paths whose first label l does not match, and the empty path. */
  lemma NotFirst(l: Level, p: Path)
    requires IsNot(l) && |p| <= 0xffff
    ensures Matches(LQuery([l, ANY], 0, true), p) <==> p == [] || !LevelMatches(l, p[0])
  {
    var q := LQuery([l, ANY], 0, true);
    var ls := q.levels;
    OneNotAfter(ls, 0, 2);
    if p == [] {
      EmptyIs(q, 0);
      LastLowIs(ls, 1);
    } else {
      OneNotLoosely(q, 0, p);
      WildsFit(ls, 1, p[1..], 0, 0);
      assert FitsLoosely(ls, 0, 2, p, 0, 0) <==> LevelMatches(l, p[0]);
    }
  }

  /** *.!l matches the paths whose last label l does not match, and the empty path. */
  lemma NotLast(l: Level, p: Path)
    requires IsNot(l) && |p| <= 0xffff
    ensures Matches(LQuery([ANY, l], 0, true), p) <==> p == [] || !LevelMatches(l, p[|p| - 1])
  {
    var q := LQuery([ANY, l], 0, true);
    var ls := q.levels;
    OneNotAfter(ls, 1, 2);
    if p == [] {
      EmptyIs(q, 1);
      assert LastLow(ls, 2) == None && LastLow(ls, 1) == None;
    } else {
      OneNotLoosely(q, 1, p);
      assert FitsLoosely(ls, 0, 2, p, 0, 0) <==> FitsLoosely(ls, 1, 2, p, 0, 0xffff);
      assert p[|p|..] == [];
      assert FitsLoosely(ls, 1, 2, p, 0, 0xffff) <==> LevelMatches(l, p[|p| - 1]);
    }
  }

  lemma AnywhereFits(ls: seq<Level>, j: nat, z: nat, p: Path)
    requires j + 2 == z <= |ls| && !IsWild(ls[j]) && ls[j + 1] == ANY && 0 < |p| <= 0xffff
    ensures FitsLoosely(ls, j, z, p, 0, 0xffff) <==> exists n :: 0 <= n < |p| && LevelMatches(ls[j], p[n])
  {
    forall n | 0 <= n < |p|
      ensures LevelMatches(ls[j], p[n]) && FitsLoosely(ls, j + 1, z, p[n + 1..], 0, 0) <==> LevelMatches(ls[j], p[n])
    {
      assert FitsLoosely(ls, j + 1, z, p[n + 1..], 0, 0) <==> FitsLoosely(ls, z, z, p[n + 1..], 0, 0xffff);
    }
  }

  /** *.!l.* matches the paths that have no label that l matches. */
  lemma NotAnywhere(l: Level, p: Path)
    requires IsNot(l) && |p| <= 0xffff
    ensures Matches(LQuery([ANY, l, ANY], 0, true), p) <==> forall n :: 0 <= n < |p| ==> !LevelMatches(l, p[n])
  {
    var q := LQuery([ANY, l, ANY], 0, true);
    var ls := q.levels;
    OneNotAfter(ls, 1, 3);
    if p == [] {
      EmptyIs(q, 1);
      LastLowIs(ls, 2);
      assert LastLow(ls, 1) == Some(0);
    } else {
      OneNotLoosely(q, 1, p);
      assert FitsLoosely(ls, 0, 3, p, 0, 0) <==> FitsLoosely(ls, 1, 3, p, 0, 0xffff);
      AnywhereFits(ls, 1, 3, p);
    }
  }

  // ----- And when it is not -----

  // As few labels as the query takes: x for its wildcards, and the name of the negated level.
  function Fewest(ls: seq<Level>, f: nat, x: string): (p: Path)
    requires OneNot(ls, f)
  {
    Exact.Fill(x, Skip(ls, 0, |ls|)) + [ls[f].variants[0].name] + Exact.Fill(x, if f + 1 < |ls| then ls[|ls| - 1].low else 0)
  }

  lemma FewestLength(ls: seq<Level>, f: nat, x: string)
    requires OneNot(ls, f) && InOrder(ls)
    ensures |Fewest(ls, f, x)| == Start(ls, 0, |ls|) <= High(ls, 0, |ls|)
  {
    OneNotAfter(ls, f, |ls|);
    HighIsAbove(ls, 0, |ls|);
  }

  lemma FewestFits(ls: seq<Level>, f: nat, x: string)
    requires OneNot(ls, f) && InOrder(ls)
    ensures Fits(Collapsed(Plain(ls)), Fewest(ls, f, x))
  {
    var p, k := Fewest(ls, f, x), Skip(ls, 0, |ls|);
    OneNotAfter(ls, f, |ls|);
    Exact.LevelTakesItsName(ls[f]);
    assert p[k] == ls[f].variants[0].name;
    WildsFit(ls, f + 1, p[k + 1..], 0, 0);
    assert FitsLoosely(ls, f + 1, |ls|, p[k + 1..], 0, 0);
    LooselyIsFits(ls, f, p);
  }

  // Without the labels that are skipped too few are left to fit.
  lemma TooShortToFit(ls: seq<Level>, f: nat, z: nat, s: Path, lo: nat, hi: nat)
    requires OneNot(ls, f) && f < z <= |ls| && s != [] && (z == |ls| || z == f + 1)
    requires |s| <= lo + if z == |ls| > f + 1 then ls[|ls| - 1].low else 0
    ensures !FitsLoosely(ls, f, z, s, lo, hi)
  {
    forall n | lo <= n <= hi && n < |s|
      ensures !(LevelMatches(ls[f], s[n]) && FitsLoosely(ls, f + 1, z, s[n + 1..], 0, 0))
    {
      WildsFit(ls, f + 1, s[n + 1..], 0, 0);
    }
  }

  /** When the wildcard right before the negated level must take labels, the path of the fewest labels fits the
      query without the negation, and is matched all the same: the first labels are tested instead of the last. */
  lemma FewestIsMatched(q: LQuery, f: nat, x: string)
    requires OneNot(q.levels, f) && InOrder(q.levels) && q.hasnot && Skip(q.levels, 0, |q.levels|) > 0
    ensures Matches(q, Fewest(q.levels, f, x))
  {
    var ls, p := q.levels, Fewest(q.levels, f, x);
    MatchIsSuits(q, p);
    OneNotRun(ls, f);
    assert p[0..|p|] == p;
    FewestEnds(ls, f, x);
  }

  lemma FewestEnds(ls: seq<Level>, f: nat, x: string)
    requires OneNot(ls, f) && InOrder(ls) && Skip(ls, 0, |ls|) > 0
    ensures EndSuits(ls, 0, Fewest(ls, f, x))
  {
    var p, n := Fewest(ls, f, x), |Fewest(ls, f, x)|;
    FewestLength(ls, f, x);
    OneNotBefore(ls, f, f);
    OneNotAfter(ls, f, f + 1);
    OneNotAfter(ls, f, |ls|);
    LastLowIs(ls, f + 1);
    if f + 1 < |ls| && ls[|ls| - 1].low == 0 {
      ReachedIs(ls, 0, f + 1, |ls|, n);
      LowIsStart(ls, 0, f + 1);
      HighIsAbove(ls, 0, f + 1);
      TooShortToFit(ls, f, f + 1, First(p, n - Skip(ls, 0, f + 1)), ls[f - 1].low, ls[f - 1].high);
    } else {
      if f + 1 < |ls| {
        OneNotAfter(ls, f, |ls| - 1);
      }
      ReachedIs(ls, 0, |ls|, |ls|, n);
      LowIsStart(ls, 0, |ls|);
      TooShortToFit(ls, f, |ls|, First(p, n - Skip(ls, 0, |ls|)), ls[f - 1].low, ls[f - 1].high);
    }
  }

  // What a query with one negation should mean, for paths that are not empty.
  ghost predicate MeansNotFitting(q: LQuery) {
    forall p :: CleanPath(p) && p != [] ==>
      (Matches(q, p) <==>
         Start(q.levels, 0, |q.levels|) <= |p| <= High(q.levels, 0, |q.levels|) && !Fits(Collapsed(Plain(q.levels)), p))
  }

  /** Among all queries with one negated level among wildcards, exactly those match the paths within their bounds
      that do not fit them without the negation whose wildcard right before that level, if there is one, may take
      no label. */
  lemma NotFittingIff(q: LQuery, f: nat)
    requires OneNot(q.levels, f) && InOrder(q.levels) && q.hasnot
    requires CleanName(q.levels[f].variants[0].name) && Start(q.levels, 0, |q.levels|) <= Exact.MAX_LEVELS
    ensures MeansNotFitting(q) <==> f == 0 || q.levels[f - 1].low == 0
  {
    var ls := q.levels;
    OneNotAfter(ls, f, |ls|);
    if Skip(ls, 0, |ls|) == 0 {
      forall p | CleanPath(p) && p != []
        ensures Matches(q, p) <==> Start(ls, 0, |ls|) <= |p| <= High(ls, 0, |ls|) && !Fits(Collapsed(Plain(ls)), p)
      {
        OneNotIs(q, f, p);
      }
    } else {
      var p := Fewest(ls, f, "x");
      FewestLength(ls, f, "x");
      FewestFits(ls, f, "x");
      FewestIsMatched(q, f, "x");
      assert CleanName("x");
      assert CleanPath(p) && p != [];
    }
  }

  // ----- Between two labels -----

  // x.*.!l.*.y
  function Between(x: Level, l: Level, y: Level): (q: LQuery) {
    LQuery([x, ANY, l, ANY, y], 0, true)
  }

  lemma BetweenRun(x: Level, l: Level, y: Level)
    requires !Loose(x) && IsNot(l) && !Loose(y)
    ensures var ls := Between(x, l, y).levels;
            && InOrder(ls) && RunEnd(ls, 0) == 0 && RunEnd(ls, 1) == 4 && RunEnd(ls, 5) == 5
            && Start(ls, 1, 4) == 1 && High(ls, 1, 4) == 0x1_0000 && FirstNot(ls, 1, 4) == 2 && Skip(ls, 1, 4) == 0
  {
    var ls := Between(x, l, y).levels;
    assert RunEnd(ls, 4) == 4 && RunEnd(ls, 3) == 4 && RunEnd(ls, 2) == 4;
    assert Taken(ls, 1, 1) == 0 && Taken(ls, 1, 2) == 0 && Taken(ls, 1, 3) == 1 && Taken(ls, 1, 4) == 1;
    assert FirstNot(ls, 1, 1) == 1 && FirstNot(ls, 1, 2) == 2 && FirstNot(ls, 1, 3) == 2;
  }

  // The labels between them suit the run when none of those tested matches l.
  lemma BetweenSuits(x: Level, l: Level, y: Level, gap: Path)
    requires !Loose(x) && IsNot(l) && !Loose(y) && |gap| <= 0xffff
    ensures GapSuits(Between(x, l, y).levels, 1, 4, gap) <==>
            |gap| > 0 && forall n :: 0 <= n < |gap| - Count(y, gap[1..]) ==> !LevelMatches(l, gap[n])
  {
    var ls := Between(x, l, y).levels;
    BetweenRun(x, l, y);
    if |gap| > 0 {
      var m := |gap| - Count(y, gap[1..]);
      var s := First(gap, m);
      assert FitsLoosely(ls, 1, 4, s, 0, 0) <==> FitsLoosely(ls, 2, 4, s, 0, 0xffff);
      AnywhereFits(ls, 2, 4, s);
      assert forall n :: 0 <= n < m ==> s[n] == gap[n];
    }
  }

  // The last level is placed on the last label.
  lemma EndOnly(ls: seq<Level>, p: Path, i: nat)
    requires i <= |p|
    ensures Suits(ls, |ls|, p, i) <==> i == |p|
  {
  }

  lemma LastLevelAt(ls: seq<Level>, a: nat, p: Path, i: nat, n: nat)
    requires a < |ls| && i <= n < |p|
    ensures SuitsAt(ls, a, |ls| - 1, p, i, n) <==> n == |p| - 1 && GapSuits(ls, a, |ls| - 1, p[i..n])
  {
    EndOnly(ls, p, n + 1);
  }

  lemma BetweenFirst(x: Level, l: Level, y: Level, p: Path)
    requires !Loose(x) && IsNot(l) && !Loose(y)
    ensures var ls := Between(x, l, y).levels;
            Suits(ls, 0, p, 0) <==> p != [] && LevelMatches(x, p[0]) && Suits(ls, 1, p, 1)
  {
    var ls := Between(x, l, y).levels;
    BetweenRun(x, l, y);
    assert Start(ls, 0, 0) == 0 && High(ls, 0, 0) == 0 && !HasNot(ls, 0, 0);
    if p != [] {
      assert p[0..0] == [];
      assert SuitsAt(ls, 0, 0, p, 0, 0) <==> Suits(ls, 1, p, 1);
    }
    forall n | 0 <= n < |p| && SuitsAt(ls, 0, 0, p, 0, n) ensures n == 0 {
      assert |p[0..n]| == n;
    }
  }

  lemma BetweenLast(x: Level, l: Level, y: Level, p: Path)
    requires !Loose(x) && IsNot(l) && !Loose(y) && 1 <= |p|
    ensures var ls := Between(x, l, y).levels;
            Suits(ls, 1, p, 1) <==> |p| > 1 && LevelMatches(y, p[|p| - 1]) && GapSuits(ls, 1, 4, p[1..|p| - 1])
  {
    var ls := Between(x, l, y).levels;
    BetweenRun(x, l, y);
    forall n | 1 <= n < |p| ensures SuitsAt(ls, 1, 4, p, 1, n) <==> n == |p| - 1 && GapSuits(ls, 1, 4, p[1..n]) {
      LastLevelAt(ls, 1, p, 1, n);
    }
  }

  /** x.*.!l.*.y matches a path exactly when x matches its first label, y its last, some label is between them, and
      none of those matches l, leaving out at the end as many as y matches after the first of them. */
  lemma BetweenIs(x: Level, l: Level, y: Level, p: Path)
    requires !Loose(x) && IsNot(l) && !Loose(y) && |p| <= 0xffff
    ensures Matches(Between(x, l, y), p) <==>
            && |p| > 2 && LevelMatches(x, p[0]) && LevelMatches(y, p[|p| - 1])
            && forall n :: 1 <= n < |p| - 1 - Count(y, p[2..|p| - 1]) ==> !LevelMatches(l, p[n])
  {
    var q := Between(x, l, y);
    BetweenRun(x, l, y);
    MatchIsSuits(q, p);
    BetweenFirst(x, l, y, p);
    if p != [] {
      BetweenLast(x, l, y, p);
    }
    if |p| > 1 {
      var gap := p[1..|p| - 1];
      BetweenSuits(x, l, y, gap);
      if |p| > 2 {
        assert gap[1..] == p[2..|p| - 1];
        var m := |gap| - Count(y, gap[1..]);
        assert forall n :: 0 <= n < |gap| ==> gap[n] == p[n + 1];
        assert forall n :: 1 <= n < |gap| + 1 ==> p[n] == gap[n - 1];
      }
    }
  }

  /** So a.*.!b.*.c is matched by a.x.c.b.c, which has b between its first and its last label: the label c in the
      middle is passed over, and b is left out of the test for it. */
  lemma PassedOver()
    ensures var name := (s, not) => Level([Variant(s, false, false, false)], not, 0, 0);
            Matches(Between(name("a", false), name("b", true), name("c", false)), ["a", "x", "c", "b", "c"])
  {
    var a, b, c := Named("a", false), Named("b", true), Named("c", false);
    var p := ["a", "x", "c", "b", "c"];
    NamedMatches("a", false, "a");
    NamedMatches("c", false, "c");
    NamedMatches("c", false, "b");
    NamedMatches("b", true, "x");
    NamedMatches("b", true, "c");
    assert p[2..4] == ["c", "b"] && ["c", "b"][1..] == ["b"] && ["b"][1..] == [];
    assert Count(c, ["b"]) == 0 && Count(c, ["c", "b"]) == 1;
    BetweenIs(a, b, c, p);
  }

  function Named(s: string, not: bool): (l: Level) {
    Level([Variant(s, false, false, false)], not, 0, 0)
  }

  lemma NamedMatches(s: string, not: bool, name: string)
    ensures LevelMatches(Named(s, not), name) <==> name == s
  {
    var l := Named(s, not);
    assert VariantMatches(l.variants[0], name) <==> name == s by {
      assert |name| == |s| ==> name[..|s|] == name;
    }
  }
}
