/** Queries with negated levels and without wildcards: what ltq_regex decides for them, and exactly when that
    is what the documentation says.  Negated levels next to each other are judged together. */
module PathNegation {
  import opened Basics
  import opened CString
  import opened LTree
  import opened PathQuery
  import opened PathMatch
  import opened PathMeaning
  import opened PathExact

  predicate WildFree(ls: seq<Level>) {
    forall i :: 0 <= i < |ls| ==> !IsWild(ls[i])
  }

  // Level i matches label i, for i from a to b - 1.
  ghost predicate AllMatch(ls: seq<Level>, p: Path, a: nat, b: nat)
    requires b <= |ls| && b <= |p|
  {
    forall i :: a <= i < b ==> LevelMatches(ls[i], p[i])
  }

  predicate AllNot(ls: seq<Level>, a: nat, b: nat)
    requires b <= |ls|
  {
    forall i :: a <= i < b ==> ls[i].not
  }

  // The levels a to b - 1 are negated, and among the first n they have no negated neighbours.
  predicate IsRun(ls: seq<Level>, n: nat, a: nat, b: nat)
    requires n <= |ls|
  {
    a < b <= n && AllNot(ls, a, b) && (a == 0 || !ls[a - 1].not) && (b == n || !ls[b].not)
  }

  ghost predicate RunsMiss(ls: seq<Level>, p: Path)
    requires |p| <= |ls|
  {
    forall a: nat, b: nat :: IsRun(ls, |p|, a, b) ==> !AllMatch(ls, p, a, b)
  }

  /** The levels that have a label take it, if they are not negated; of the labels that a run of negated
      levels has, at least one is not matched; and levels that have no label are negated. */
  ghost predicate FitsRuns(ls: seq<Level>, p: Path) {
    && |p| <= |ls| && AllNot(ls, |p|, |ls|)
    && (forall i :: 0 <= i < |p| && !ls[i].not ==> LevelMatches(ls[i], p[i]))
    && RunsMiss(ls, p)
  }

  // ----- Runs of negated levels -----

  // Where the run of negated levels before level j starts.
  function RunStart(ls: seq<Level>, j: nat): (s: nat)
    requires j <= |ls|
    ensures s <= j && AllNot(ls, s, j) && (s == 0 || !ls[s - 1].not)
  {
    if j == 0 || !ls[j - 1].not then j else RunStart(ls, j - 1)
  }

  // The run that checkCond collects before level j.
  predicate Collected(ls: seq<Level>, j: nat, neg: Neg)
    requires j <= |ls|
  {
    var s := RunStart(ls, j);
    if s == j then neg.NoNeg? else neg.Neg? && neg.q == neg.t == s && neg.nq == neg.nt == j - s
  }

  // After no wildcard level j takes the label at its own place or none.
  lemma OnePlace(ls: seq<Level>, p: Path, nots: bool, j: nat, neg: Neg)
    requires WildFree(ls) && j < |ls| && j < |p|
    ensures Try(ls, p, nots, 0, j, j, j, neg) <==> LevelMatches(ls[j], p[j]) && Placed(ls, p, nots, 0, j + 1, j, neg)
  {
    assert !Try(ls, p, nots, 0, j + 1, j, j, Pass(neg, 1));
    assert p[0 + j] == p[j];
  }

  // Without negation a walk over as many levels as labels matches them one by one.
  lemma {:induction false} WalkIsAllMatch(ls: seq<Level>, p: Path, c: nat, low: nat)
    requires WildFree(ls) && |ls| == |p| && low <= c <= |p|
    ensures Cond(ls, p, false, 0, c, c, low, c, NoNeg) <==> AllMatch(ls, p, c, |p|)
    decreases |p| - c
  {
    if c < |p| {
      OnePlace(ls, p, false, c, NoNeg);
      WalkIsAllMatch(ls, p, c + 1, c + 1);
      assert Cond(ls, p, false, 0, c, c, low, c, NoNeg) <==> Try(ls, p, false, 0, c, c, c, NoNeg);
    }
  }

  lemma SliceMatches(ls: seq<Level>, p: Path, a: nat, b: nat)
    requires a <= b <= |ls| && b <= |p|
    ensures AllMatch(ls[a..b], p[a..b], 0, b - a) <==> AllMatch(ls, p, a, b)
  {
    var ls', p' := ls[a..b], p[a..b];
    if AllMatch(ls', p', 0, b - a) {
      forall i | a <= i < b ensures LevelMatches(ls[i], p[i]) {
        assert LevelMatches(ls'[i - a], p'[i - a]);
      }
    }
  }

  // The levels match the labels when negation does not count.
  ghost predicate Walks(ls: seq<Level>, p: Path) {
    Cond(ls, p, false, 0, 0, 0, 0, 0, NoNeg)
  }

  lemma WalksIsAllMatch(ls: seq<Level>, p: Path)
    requires WildFree(ls) && |ls| == |p|
    ensures Walks(ls, p) <==> AllMatch(ls, p, 0, |p|)
  {
    WalkIsAllMatch(ls, p, 0, 0);
  }

  lemma SpanWalks(ls: seq<Level>, p: Path, neg: Neg, ls': seq<Level>, p': Path)
    requires neg.Neg? && neg.q + neg.nq <= |ls| && neg.nt >= 0 && neg.t + neg.nt <= |p|
    requires ls' == ls[neg.q..neg.q + neg.nq] && p' == p[neg.t..neg.t + neg.nt]
    ensures NegMatches(ls, p, neg) <==> Walks(ls', p')
  {
  }

  lemma NegIsAllMatch(ls: seq<Level>, p: Path, j: nat, neg: Neg)
    requires WildFree(ls) && j <= |ls| && j <= |p| && Collected(ls, j, neg) && neg.Neg?
    ensures NegMatches(ls, p, neg) <==> AllMatch(ls, p, RunStart(ls, j), j)
  {
    var s := RunStart(ls, j);
    SpanWalks(ls, p, neg, ls[s..j], p[s..j]);
    WalksIsAllMatch(ls[s..j], p[s..j]);
    SliceMatches(ls, p, s, j);
  }

  // The run before level j, if there is one, has a label that is not matched.
  ghost predicate RunMisses(ls: seq<Level>, p: Path, j: nat)
    requires j <= |ls| && j <= |p|
  {
    RunStart(ls, j) < j ==> !AllMatch(ls, p, RunStart(ls, j), j)
  }

  // From level j on: what is left to be checked.
  ghost predicate FitsFrom(ls: seq<Level>, p: Path, j: nat)
    requires j <= |ls| && j <= |p|
    decreases |p| - j
  {
    if j == |p| then AllNot(ls, j, |ls|) && RunMisses(ls, p, j)
    else
      && j < |ls|
      && (!ls[j].not ==> LevelMatches(ls[j], p[j]) && RunMisses(ls, p, j))
      && FitsFrom(ls, p, j + 1)
  }

  lemma {:induction false} LeftoverIsAllNot(ls: seq<Level>, c: nat, j: nat, low: nat, high: nat)
    requires WildFree(ls) && j <= |ls|
    ensures Leftover(ls, c, j, low, high) == if AllNot(ls, j, |ls|) then Some((low, high)) else None
    decreases |ls| - j
  {
    if j < |ls| && ls[j].not {
      LeftoverIsAllNot(ls, c, j + 1, low, high);
    }
  }

  // The run before level j is checked when a level takes its label.
  lemma PlacedChecksRun(ls: seq<Level>, p: Path, nots: bool, j: nat, neg: Neg)
    requires WildFree(ls) && (nots || NotFree(ls)) && j < |ls| && j < |p| && Collected(ls, j, neg)
    ensures Placed(ls, p, nots, 0, j + 1, j, neg) <==>
            RunMisses(ls, p, j) && Cond(ls, p, nots, 0, j + 1, j + 1, j + 1, j + 1, NoNeg)
  {
    if neg.Neg? {
      NegIsAllMatch(ls, p, j, neg);
    }
  }

  // And when the labels or the levels end.
  lemma FinishChecksRun(ls: seq<Level>, p: Path, nots: bool, j: nat, low: nat, neg: Neg)
    requires WildFree(ls) && (nots || NotFree(ls)) && j <= |ls| && low <= j <= |p| && Collected(ls, j, neg)
    ensures Finish(ls, p, nots, 0, j, j, low, j, neg) <==> j == |p| && AllNot(ls, j, |ls|) && RunMisses(ls, p, j)
  {
    LeftoverIsAllNot(ls, j, j, low, j);
    if neg.Neg? {
      NegIsAllMatch(ls, p, j, neg);
    }
  }

  // One step of the walk, at a negated level and at another.
  lemma NextNot(ls: seq<Level>, p: Path, nots: bool, j: nat, low: nat, neg: Neg)
    requires WildFree(ls) && nots && low <= j < |ls| && j < |p| && ls[j].not && Collected(ls, j, neg)
    ensures var neg' := AddNot(ls, j, neg, j, j, |p|);
            && Collected(ls, j + 1, neg')
            && (Cond(ls, p, nots, 0, j, j, low, j, neg) <==> Cond(ls, p, nots, 0, j + 1, j + 1, low, j + 1, neg'))
  {
    assert Pass(neg, 0) == neg;
  }

  lemma NextLevel(ls: seq<Level>, p: Path, nots: bool, j: nat, low: nat, neg: Neg)
    requires WildFree(ls) && (nots || NotFree(ls)) && low <= j < |ls| && j < |p| && !ls[j].not && Collected(ls, j, neg)
    ensures Cond(ls, p, nots, 0, j, j, low, j, neg) <==>
            && LevelMatches(ls[j], p[j]) && RunMisses(ls, p, j)
            && Cond(ls, p, nots, 0, j + 1, j + 1, j + 1, j + 1, NoNeg)
  {
    assert Pass(neg, 0) == neg;
    OnePlace(ls, p, nots, j, neg);
    PlacedChecksRun(ls, p, nots, j, neg);
  }

  lemma {:induction false} CondIsFitsFrom(ls: seq<Level>, p: Path, nots: bool, j: nat, low: nat, neg: Neg)
    requires WildFree(ls) && (nots || NotFree(ls)) && j <= |ls| && low <= j <= |p| && Collected(ls, j, neg)
    ensures Cond(ls, p, nots, 0, j, j, low, j, neg) <==> FitsFrom(ls, p, j)
    decreases |p| - j
  {
    if j == |p| || j == |ls| {
      FinishChecksRun(ls, p, nots, j, low, neg);
    } else if ls[j].not {
      NextNot(ls, p, nots, j, low, neg);
      CondIsFitsFrom(ls, p, nots, j + 1, low, AddNot(ls, j, neg, j, j, |p|));
    } else {
      NextLevel(ls, p, nots, j, low, neg);
      CondIsFitsFrom(ls, p, nots, j + 1, j + 1, NoNeg);
    }
  }

  // ----- All runs -----

  // A run of negated levels ends before level b.
  predicate EndsRun(ls: seq<Level>, n: nat, b: nat)
    requires n <= |ls|
  {
    b <= n && (b == n || !ls[b].not)
  }

  lemma {:induction false} FitsFromIsAll(ls: seq<Level>, p: Path, j: nat)
    requires j <= |ls| && j <= |p|
    ensures FitsFrom(ls, p, j) <==>
            && |p| <= |ls| && AllNot(ls, |p|, |ls|)
            && (forall i :: j <= i < |p| && !ls[i].not ==> LevelMatches(ls[i], p[i]))
            && (forall b :: j <= b && EndsRun(ls, |p|, b) ==> RunMisses(ls, p, b))
    decreases |p| - j
  {
    if j < |p| && j < |ls| {
      FitsFromIsAll(ls, p, j + 1);
      if |p| <= |ls| {
        assert EndsRun(ls, |p|, j) <==> !ls[j].not;
      }
    }
  }

  lemma {:induction false} RunStartIs(ls: seq<Level>, a: nat, b: nat)
    requires a <= b <= |ls| && AllNot(ls, a, b) && (a == 0 || !ls[a - 1].not)
    ensures RunStart(ls, b) == a
  {
    if a < b {
      RunStartIs(ls, a, b - 1);
    }
  }

  lemma RunsEnd(ls: seq<Level>, p: Path)
    requires |p| <= |ls|
    ensures (forall b :: 0 <= b && EndsRun(ls, |p|, b) ==> RunMisses(ls, p, b)) <==> RunsMiss(ls, p)
  {
    if forall b :: 0 <= b && EndsRun(ls, |p|, b) ==> RunMisses(ls, p, b) {
      forall a: nat, b: nat | IsRun(ls, |p|, a, b) ensures !AllMatch(ls, p, a, b) {
        RunStartIs(ls, a, b);
        assert EndsRun(ls, |p|, b) && RunMisses(ls, p, b);
      }
    }
    if RunsMiss(ls, p) {
      forall b | 0 <= b && EndsRun(ls, |p|, b) ensures RunMisses(ls, p, b) {
        assert RunStart(ls, b) < b ==> IsRun(ls, |p|, RunStart(ls, b), b);
      }
    }
  }

  /** For a query without wildcards ltq_regex decides whether the path fits its levels and its runs of
      negated levels. */
  lemma MatchIsFitsRuns(q: LQuery, p: Path)
    requires WildFree(q.levels) && (q.hasnot || NotFree(q.levels))
    ensures Matches(q, p) <==> FitsRuns(q.levels, p)
  {
    CondIsFitsFrom(q.levels, p, q.hasnot, 0, 0, NoNeg);
    FitsFromIsAll(q.levels, p, 0);
    if |p| <= |q.levels| {
      RunsEnd(q.levels, p);
    }
  }

  // ----- What the documentation says -----

  /** Every level stands for one label: one that matches its variants, or none of them if it is negated. */
  ghost predicate FitsEach(ls: seq<Level>, p: Path) {
    |p| == |ls| && forall i :: 0 <= i < |p| ==> (LevelMatches(ls[i], p[i]) <==> !ls[i].not)
  }

  /** The condition on a query: no negated levels next to each other, and none at the end. */
  predicate NotsApart(ls: seq<Level>) {
    forall i :: 0 <= i < |ls| && ls[i].not ==> i + 1 < |ls| && !ls[i + 1].not
  }

  lemma LastIsNotNegated(ls: seq<Level>, n: nat)
    requires NotsApart(ls) && n < |ls|
    ensures !AllNot(ls, n, |ls|)
  {
    assert !ls[|ls| - 1].not;
  }

  lemma ApartIsEach(ls: seq<Level>, p: Path)
    requires NotsApart(ls)
    ensures FitsRuns(ls, p) <==> FitsEach(ls, p)
  {
    if |p| < |ls| {
      LastIsNotNegated(ls, |p|);
    } else if FitsRuns(ls, p) {
      forall i | 0 <= i < |p| && ls[i].not ensures !LevelMatches(ls[i], p[i]) {
        assert IsRun(ls, |p|, i, i + 1);
      }
    }
    if FitsEach(ls, p) {
      forall a: nat, b: nat | IsRun(ls, |p|, a, b) ensures !AllMatch(ls, p, a, b) {
        assert ls[a].not;
      }
    }
  }

  // The names of the levels, and x for the negated ones.
  function Sample(ls: seq<Level>, x: string): (p: Path)
    requires WildFree(ls)
    ensures |p| == |ls| && forall i :: 0 <= i < |ls| ==> p[i] == if ls[i].not then x else ls[i].variants[0].name
  {
    seq(|ls|, i requires 0 <= i < |ls| => if ls[i].not then x else ls[i].variants[0].name)
  }

  // As far as it goes, a path with these names fits, if each run has an x.
  lemma SampleFits(ls: seq<Level>, x: string, n: nat)
    requires WildFree(ls) && NoLevel(ls, x) && n <= |ls| && AllNot(ls, n, |ls|)
    ensures FitsRuns(ls, Sample(ls, x)[..n])
  {
    var p := Sample(ls, x)[..n];
    forall i | 0 <= i < n && !ls[i].not ensures LevelMatches(ls[i], p[i]) {
      LevelTakesItsName(ls[i]);
    }
    forall a: nat, b: nat | IsRun(ls, n, a, b) ensures !AllMatch(ls, p, a, b) {
      assert p[a] == x && !LevelMatches(ls[a], p[a]);
    }
  }

  // The second of two negated neighbours may match when the first does not.
  lemma NeighbourFits(ls: seq<Level>, x: string, i: nat)
    requires WildFree(ls) && NoLevel(ls, x) && i + 1 < |ls| && ls[i].not && ls[i + 1].not
    ensures var p := Sample(ls, x)[i + 1 := ls[i + 1].variants[0].name]; FitsRuns(ls, p) && !FitsEach(ls, p)
  {
    var p := Sample(ls, x)[i + 1 := ls[i + 1].variants[0].name];
    LevelTakesItsName(ls[i + 1]);
    forall k | 0 <= k < |p| && !ls[k].not ensures LevelMatches(ls[k], p[k]) {
      LevelTakesItsName(ls[k]);
    }
    forall a: nat, b: nat | IsRun(ls, |p|, a, b) ensures !AllMatch(ls, p, a, b) {
      assert a != i + 1;
      assert p[a] == x && !LevelMatches(ls[a], p[a]);
    }
  }

  lemma SomePathIsMisjudged(q: LQuery, x: string) returns (p: Path)
    requires WildFree(q.levels) && q.hasnot && NoLevel(q.levels, x) && !NotsApart(q.levels)
    requires |q.levels| <= MAX_LEVELS && CleanVariants(q.levels) && CleanName(x)
    ensures CleanPath(p) && Matches(q, p) && !FitsEach(q.levels, p)
  {
    var ls := q.levels;
    var i :| 0 <= i < |ls| && ls[i].not && !(i + 1 < |ls| && !ls[i + 1].not);
    if i + 1 == |ls| {
      p := Sample(ls, x)[..i];
      SampleFits(ls, x, i);
    } else {
      p := Sample(ls, x)[i + 1 := ls[i + 1].variants[0].name];
      NeighbourFits(ls, x, i);
    }
    MatchIsFitsRuns(q, p);
  }

  /** Every level of a query without wildcards is judged by itself, as documented, if and only if negated
      levels are apart from each other and from the end. */
  lemma NegationIsExactIff(q: LQuery, x: string)
    requires WildFree(q.levels) && q.hasnot && NoLevel(q.levels, x)
    requires |q.levels| <= MAX_LEVELS && CleanVariants(q.levels) && CleanName(x)
    ensures (forall p :: CleanPath(p) ==> (Matches(q, p) <==> FitsEach(q.levels, p))) <==> NotsApart(q.levels)
  {
    if NotsApart(q.levels) {
      forall p | CleanPath(p) ensures Matches(q, p) <==> FitsEach(q.levels, p) {
        MatchIsFitsRuns(q, p);
        ApartIsEach(q.levels, p);
      }
    } else {
      var p := SomePathIsMisjudged(q, x);
    }
  }

  /** !a.!b is matched by a.c, whose first label it should not match, and by the path of no labels. */
  lemma NegatedNeighbours()
    ensures var name := s => Level([Variant(s, false, false, false)], true, 0, 0);
            var q := LQuery([name("a"), name("b")], 0, true);
            && Matches(q, ["a", "c"]) && !FitsEach(q.levels, ["a", "c"])
            && Matches(q, []) && !FitsEach(q.levels, [])
  {
    var la, lb := Level([Variant("a", false, false, false)], true, 0, 0), Level([Variant("b", false, false, false)], true, 0, 0);
    var q := LQuery([la, lb], 0, true);
    var p := ["a", "c"];
    assert VariantMatches(la.variants[0], "a") && LevelMatches(la, "a");
    assert "b"[0] != "c"[0];
    assert !LevelMatches(lb, "c");
    MatchIsFitsRuns(q, p);
    MatchIsFitsRuns(q, []);
    forall a: nat, b: nat | IsRun(q.levels, 2, a, b) ensures !AllMatch(q.levels, p, a, b) {
      assert b == 2;
      assert !LevelMatches(q.levels[1], p[1]);
    }
  }
}
