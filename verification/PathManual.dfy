/** The meaning the manual gives to a query with negated levels and wildcards: every level without * stands for one
    label, which matches it or, with !, does not, and a wildcard for a number of labels within its bounds.  The
    operator decides this for all queries whose negated levels stand apart. */
module PathManual {
  import opened Basics
  import opened CString
  import opened LTree
  import opened PathQuery
  import opened PathMatch
  import opened PathMeaning
  import opened PathRuns
  import opened PathWords
  import LQueryGrammar

  /** The labels from i on are what the levels from a on stand for. */
  ghost predicate Means(ls: seq<Level>, a: nat, p: Path, i: nat)
    requires a <= |ls| && i <= |p|
    decreases |ls| - a, 0
  {
    if a == |ls| then i == |p|
    else
      var b := a + 1;
      if IsWild(ls[a]) then exists n: nat :: i + ls[a].low <= n <= i + ls[a].high && MeansFrom(ls, b, p, n)
      else i < |p| && (LevelMatches(ls[a], p[i]) <==> !ls[a].not) && Means(ls, b, p, i + 1)
  }

  ghost predicate MeansFrom(ls: seq<Level>, a: nat, p: Path, n: nat)
    requires a <= |ls|
    decreases |ls| - a, 1
  {
    n <= |p| && Means(ls, a, p, n)
  }

  // A negated level with nothing but, perhaps, one wildcard after it, before the next level that is neither; at the
  // end of the query there is such a wildcard and it must take a label.
  predicate NotAlone(ls: seq<Level>, a: nat, z: nat)
    requires a <= z <= |ls|
  {
    && a < z <= a + 2 && IsNot(ls[a]) && (z == a + 2 ==> IsWild(ls[a + 1]))
    && (z == |ls| ==> z == a + 2 && ls[a + 1].low > 0)
  }

  predicate PlainRun(ls: seq<Level>, a: nat, z: nat)
    requires a <= z <= |ls|
  {
    z == a || (z == a + 1 && IsWild(ls[a])) || NotAlone(ls, a, z)
  }

  /** No wildcard has another one or a negated level after it, no negated level another one, and none is last, nor
      before a last wildcard that may take no label. */
  predicate Apart(ls: seq<Level>) {
    forall a :: 0 <= a <= |ls| && (a == 0 || !Loose(ls[a - 1])) ==> PlainRun(ls, a, RunEnd(ls, a))
  }

  // ----- One run -----

  // What such a run stands for.
  ghost predicate RunMeans(ls: seq<Level>, a: nat, z: nat, gap: Path)
    requires a <= z <= |ls| && PlainRun(ls, a, z)
  {
    if z == a then gap == []
    else if IsWild(ls[a]) then ls[a].low <= |gap| <= ls[a].high
    else
      && gap != [] && !LevelMatches(ls[a], gap[0])
      && if z == a + 1 then |gap| == 1 else ls[a + 1].low <= |gap| - 1 <= ls[a + 1].high
  }

  lemma PlainBounds(ls: seq<Level>, a: nat, z: nat)
    requires a <= z <= |ls| && PlainRun(ls, a, z)
    ensures z == a ==> Start(ls, a, z) == 0 && High(ls, a, z) == 0 && !HasNot(ls, a, z)
    ensures a < z && IsWild(ls[a]) ==>
              Taken(ls, a, z) == 0 && Start(ls, a, z) == ls[a].low && High(ls, a, z) == ls[a].high && !HasNot(ls, a, z)
    ensures a < z && !IsWild(ls[a]) ==> FirstNot(ls, a, z) == a && Taken(ls, a, a + 1) == 1 && Taken(ls, a, z) == 1
    ensures a < z && !IsWild(ls[a]) && z == a + 1 ==> Start(ls, a, z) == 1 && High(ls, a, z) == 1
    ensures a < z && !IsWild(ls[a]) && z == a + 2 ==>
              Start(ls, a, z) == 1 + ls[a + 1].low && High(ls, a, z) == 1 + ls[a + 1].high
  {
    assert FirstNot(ls, a, a) == a && Taken(ls, a, a) == 0 && High(ls, a, a) == 0;
    if a < z {
      assert Taken(ls, a, a + 1) == if IsWild(ls[a]) then 0 else 1;
      assert FirstNot(ls, a, a + 1) == if IsWild(ls[a]) then a + 1 else a;
    }
  }

  // A test that leaves at least as many labels as the run needs is about the first label.
  lemma PlainTest(ls: seq<Level>, a: nat, z: nat, s: Path)
    requires a < z <= |ls| && PlainRun(ls, a, z) && !IsWild(ls[a])
    requires Start(ls, a, z) <= |s| <= High(ls, a, z)
    ensures s != [] && (FitsRun(ls, a, z, s) <==> LevelMatches(ls[a], s[0]))
  {
    PlainBounds(ls, a, z);
    assert FitsLoosely(ls, z, z, s[1..], 0, 0) <==> |s| == 1;
    if z == a + 2 {
      assert FitsLoosely(ls, a + 1, z, s[1..], 0, 0) <==> FitsLoosely(ls, z, z, s[1..], ls[a + 1].low, ls[a + 1].high);
    }
  }

  lemma GapMeans(ls: seq<Level>, a: nat, z: nat, gap: Path)
    requires a <= z < |ls| && PlainRun(ls, a, z)
    ensures GapSuits(ls, a, z, gap) <==> RunMeans(ls, a, z, gap)
  {
    PlainBounds(ls, a, z);
    if Start(ls, a, z) <= |gap| <= High(ls, a, z) {
      var passed := Count(ls[z], gap[Start(ls, a, z)..]);
      if a < z && !IsWild(ls[a]) {
        PlainTest(ls, a, z, First(gap, |gap| - passed));
      }
    }
  }

  lemma EndMeans(ls: seq<Level>, a: nat, rest: Path)
    requires a <= |ls| && PlainRun(ls, a, |ls|) && InOrder(ls)
    ensures EndSuits(ls, a, rest) <==> RunMeans(ls, a, |ls|, rest)
  {
    var z := |ls|;
    PlainBounds(ls, a, z);
    LowIsStart(ls, a, z);
    assert LastLow(ls, z) == None;
    if a < z {
      assert LastLow(ls, z - 1) == Some(ls[z - 1].low);
      assert LastLow(ls, a) == Some(ls[z - 1].low);
      assert Reached(ls, a, a, |rest|) == a;
      if !IsWild(ls[a]) && |rest| > 1 {
        PlainEnd(ls, a, rest);
      }
    }
  }

  lemma PlainEnd(ls: seq<Level>, a: nat, rest: Path)
    requires a < |ls| && PlainRun(ls, a, |ls|) && InOrder(ls) && !IsWild(ls[a]) && |rest| > 1
    ensures Start(ls, a, |ls|) <= |rest| <= High(ls, a, |ls|) ==>
              (EndTest(ls, a, |ls|, rest) <==> !LevelMatches(ls[a], rest[0]))
  {
    PlainBounds(ls, a, |ls|);
    if Start(ls, a, |ls|) <= |rest| <= High(ls, a, |ls|) {
      PlainTest(ls, a, |ls|, rest);
    }
  }

  // ----- The whole query -----

  // The run takes the labels up to some n, and the levels from z on those from n on.
  ghost predicate TakesUpTo(ls: seq<Level>, a: nat, z: nat, p: Path, i: nat, n: nat)
    requires a <= z <= |ls| && PlainRun(ls, a, z) && i <= n <= |p|
  {
    RunMeans(ls, a, z, p[i..n]) && Means(ls, z, p, n)
  }

  lemma WildTakes(ls: seq<Level>, a: nat, p: Path, i: nat) returns (n: nat)
    requires a < |ls| && i <= |p| && IsWild(ls[a]) && Means(ls, a, p, i)
    ensures i + ls[a].low <= n <= i + ls[a].high && n <= |p| && Means(ls, a + 1, p, n)
  {
    var b := a + 1;
    n :| i + ls[a].low <= n <= i + ls[a].high && MeansFrom(ls, b, p, n);
  }

  lemma WildGives(ls: seq<Level>, a: nat, p: Path, i: nat, n: nat)
    requires a < |ls| && i <= n <= |p| && IsWild(ls[a])
    requires ls[a].low <= n - i <= ls[a].high && Means(ls, a + 1, p, n)
    ensures Means(ls, a, p, i)
  {
    assert MeansFrom(ls, a + 1, p, n);
  }

  lemma {:induction false} RunTakes(ls: seq<Level>, a: nat, z: nat, p: Path, i: nat) returns (n: nat)
    requires a <= z <= |ls| && PlainRun(ls, a, z) && i <= |p| && Means(ls, a, p, i)
    ensures i <= n <= |p| && TakesUpTo(ls, a, z, p, i, n)
  {
    if z == a {
      n := i;
    } else if IsWild(ls[a]) {
      n := WildTakes(ls, a, p, i);
    } else if z == a + 1 {
      n := i + 1;
    } else {
      n := WildTakes(ls, a + 1, p, i + 1);
    }
  }

  lemma {:induction false} RunGives(ls: seq<Level>, a: nat, z: nat, p: Path, i: nat, n: nat)
    requires a <= z <= |ls| && PlainRun(ls, a, z) && i <= n <= |p| && TakesUpTo(ls, a, z, p, i, n)
    ensures Means(ls, a, p, i)
  {
    if a < z {
      if IsWild(ls[a]) {
        WildGives(ls, a, p, i, n);
      } else if z == a + 2 {
        WildGives(ls, a + 1, p, i + 1, n);
      }
    }
  }

  lemma {:induction false} SuitsMeans(ls: seq<Level>, a: nat, p: Path, i: nat)
    requires a <= |ls| && i <= |p| && Apart(ls) && InOrder(ls) && (a == 0 || !Loose(ls[a - 1]))
    ensures Suits(ls, a, p, i) <==> Means(ls, a, p, i)
    decreases |ls| - a
  {
    var z := RunEnd(ls, a);
    if Means(ls, a, p, i) {
      var n := RunTakes(ls, a, z, p, i);
    }
    forall n | i <= n <= |p| && TakesUpTo(ls, a, z, p, i, n) ensures Means(ls, a, p, i) {
      RunGives(ls, a, z, p, i, n);
    }
    if z == |ls| {
      EndMeans(ls, a, p[i..|p|]);
      assert TakesUpTo(ls, a, z, p, i, |p|) <==> RunMeans(ls, a, z, p[i..|p|]);
    } else {
      forall n | i <= n < |p|
        ensures LevelMatches(ls[z], p[n]) && SuitsAt(ls, a, z, p, i, n) <==> TakesUpTo(ls, a, z, p, i, n)
      {
        GapMeans(ls, a, z, p[i..n]);
        SuitsMeans(ls, z + 1, p, n + 1);
      }
    }
  }

  /** A query whose negated levels and wildcards stand apart matches exactly the paths it stands for. */
  lemma ApartIsMeant(q: LQuery, p: Path)
    requires Apart(q.levels) && InOrder(q.levels) && (q.hasnot || NotFree(q.levels))
    ensures Matches(q, p) <==> Means(q.levels, 0, p, 0)
  {
    MatchIsSuits(q, p);
    SuitsMeans(q.levels, 0, p, 0);
  }

  // ----- The example of the manual -----

  // The label of each level of the example, after n labels for the wildcard.
  predicate ExampleLabels(p: Path, n: nat) {
    && |p| == n + 4 && p[0] == "Top"
    && LowerAll("sport") <= LowerAll(p[n + 1])
    && p[n + 2] != "football" && p[n + 2] != "tennis"
    && ("Russ" <= p[n + 3] || p[n + 3] == "Spain")
  }

  lemma ExampleLevels(name: string)
    ensures var ls := LQueryGrammar.EXAMPLE;
            && (LevelMatches(ls[0], name) <==> name == "Top")
            && (LevelMatches(ls[2], name) <==> LowerAll("sport") <= LowerAll(name))
            && (LevelMatches(ls[3], name) <==> name == "football" || name == "tennis")
            && (LevelMatches(ls[4], name) <==> "Russ" <= name || name == "Spain")
  {
    var ls := LQueryGrammar.EXAMPLE;
    VariantMeans(ls[0].variants[0], name);
    VariantMeans(ls[2].variants[0], name);
    VariantMeans(ls[3].variants[0], name);
    VariantMeans(ls[3].variants[1], name);
    VariantMeans(ls[4].variants[0], name);
    VariantMeans(ls[4].variants[1], name);
  }

  lemma ExampleLabel(p: Path, n: nat)
    ensures Labels(LQueryGrammar.EXAMPLE, p, n) <==> ExampleLabels(p, n)
  {
    if |p| == n + 4 {
      ExampleLevels(p[0]);
      ExampleLevels(p[n + 1]);
      ExampleLevels(p[n + 2]);
      ExampleLevels(p[n + 3]);
    }
  }

  lemma ExampleIsApart()
    ensures Apart(LQueryGrammar.EXAMPLE) && InOrder(LQueryGrammar.EXAMPLE)
  {
    var ls := LQueryGrammar.EXAMPLE;
    assert RunEnd(ls, 5) == 5 && RunEnd(ls, 4) == 4 && RunEnd(ls, 3) == 4;
    assert RunEnd(ls, 2) == 2 && RunEnd(ls, 1) == 2 && RunEnd(ls, 0) == 0;
  }

  // A query like the example: a wildcard after its first level, and a negated level before its last.
  predicate LikeExample(ls: seq<Level>) {
    |ls| == 5 && !Loose(ls[0]) && IsWild(ls[1]) && !Loose(ls[2]) && IsNot(ls[3]) && !Loose(ls[4])
  }

  ghost predicate Labels(ls: seq<Level>, p: Path, n: nat)
    requires |ls| == 5
  {
    && |p| == n + 4 && LevelMatches(ls[0], p[0]) && LevelMatches(ls[2], p[n + 1])
    && !LevelMatches(ls[3], p[n + 2]) && LevelMatches(ls[4], p[n + 3])
  }

  lemma LastLevels(ls: seq<Level>, p: Path, i: nat)
    requires LikeExample(ls) && i <= |p|
    ensures Means(ls, 3, p, i) <==> |p| == i + 2 && !LevelMatches(ls[3], p[i]) && LevelMatches(ls[4], p[i + 1])
  {
    assert i + 2 <= |p| ==> (Means(ls, 5, p, i + 2) <==> |p| == i + 2);
    assert i + 1 <= |p| ==> (Means(ls, 4, p, i + 1) <==> |p| == i + 2 && LevelMatches(ls[4], p[i + 1]));
  }

  lemma LabelsAre(ls: seq<Level>, p: Path)
    requires LikeExample(ls)
    ensures Means(ls, 0, p, 0) <==> exists n: nat :: ls[1].low <= n <= ls[1].high && Labels(ls, p, n)
  {
    if Means(ls, 0, p, 0) {
      var n := WildTakes(ls, 1, p, 1);
      LastLevels(ls, p, n + 1);
      assert Labels(ls, p, n - 1);
    }
    if n: nat :| ls[1].low <= n <= ls[1].high && Labels(ls, p, n) {
      LastLevels(ls, p, n + 2);
      WildGives(ls, 1, p, 1, n + 1);
    }
  }

  /** Top.*{0,2}.sport*@.!football|tennis.Russ*|Spain matches the paths that begin with Top, then have up to two
      labels, a label that begins with sport in any case, one that is neither football nor tennis, and end with one
      that begins with Russ or is Spain. */
  lemma ManualExampleMeans(p: Path)
    ensures Matches(LQuery(LQueryGrammar.EXAMPLE, 1, true), p) <==> exists n: nat :: n <= 2 && ExampleLabels(p, n)
  {
    var ls := LQueryGrammar.EXAMPLE;
    ExampleIsApart();
    ApartIsMeant(LQuery(ls, 1, true), p);
    LabelsAre(ls, p);
    forall n: nat ensures Labels(ls, p, n) <==> ExampleLabels(p, n) {
      ExampleLabel(p, n);
    }
  }
}
