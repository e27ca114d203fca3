/** What ltq_regex decides for every query, with negated levels and wildcards alike: it places the levels that
    are neither on labels of the path, and each run of negated levels and wildcards between two of them, or at
    the end, must suit the labels it is given.  A run suits them when their number is within its bounds and,
    if it has negated levels, when they do not fit the run with its negations taken away. */
module PathRuns {
  import opened Basics
  import opened LTree
  import opened PathQuery
  import opened PathMatch
  import opened PathMeaning

  // ----- Runs: the levels a to z - 1 of a query -----

  predicate IsNot(l: Level) {
    !IsWild(l) && l.not
  }

  // A level that belongs to a run.
  predicate Loose(l: Level) {
    IsWild(l) || l.not
  }

  predicate AllLoose(ls: seq<Level>, a: nat, z: nat)
    requires z <= |ls|
  {
    forall k :: a <= k < z ==> Loose(ls[k])
  }

  predicate EndsWild(ls: seq<Level>, a: nat, z: nat)
    requires z <= |ls|
  {
    a < z && IsWild(ls[z - 1])
  }

  // Where the run that starts at level a ends.
  function RunEnd(ls: seq<Level>, a: nat): (z: nat)
    requires a <= |ls|
    ensures a <= z <= |ls| && AllLoose(ls, a, z) && (z < |ls| ==> !Loose(ls[z]))
    decreases |ls| - a
  {
    if a == |ls| || !Loose(ls[a]) then a else RunEnd(ls, a + 1)
  }

  // How many labels a run takes up to its last negated level: one for each, and as few as can be for a wildcard
  // right before one.
  function Taken(ls: seq<Level>, a: nat, z: nat): (n: nat)
    requires z <= |ls|
    decreases z
  {
    if z <= a then 0
    else if IsWild(ls[z - 1]) then Taken(ls, a, z - 1)
    else Taken(ls, a, z - 1) + (if EndsWild(ls, a, z - 1) then ls[z - 2].low else 0) + 1
  }

  // How many labels a run takes at least and at most.  Of its wildcards the last sets the upper bound.
  function Start(ls: seq<Level>, a: nat, z: nat): (n: nat)
    requires z <= |ls|
  {
    Taken(ls, a, z) + if EndsWild(ls, a, z) then ls[z - 1].low else 0
  }

  function High(ls: seq<Level>, a: nat, z: nat): (n: nat)
    requires z <= |ls|
    decreases z
  {
    if z <= a then 0
    else if IsWild(ls[z - 1]) then Taken(ls, a, z) + ls[z - 1].high
    else if High(ls, a, z - 1) < Taken(ls, a, z) then Taken(ls, a, z)
    else High(ls, a, z - 1)
  }

  // The lower bound that the last wildcard has set.
  function Low(ls: seq<Level>, a: nat, z: nat): (n: nat)
    requires z <= |ls|
    decreases z
  {
    if z <= a then 0 else if IsWild(ls[z - 1]) then Start(ls, a, z) else Low(ls, a, z - 1)
  }

  // The first negated level of a run, or its end when there is none.
  function FirstNot(ls: seq<Level>, a: nat, z: nat): (k: nat)
    requires a <= z <= |ls|
    ensures a <= k <= z
    decreases z
  {
    if z == a then z
    else
      var k := FirstNot(ls, a, z - 1);
      if k == z - 1 && !IsNot(ls[z - 1]) then z else k
  }

  predicate HasNot(ls: seq<Level>, a: nat, z: nat)
    requires a <= z <= |ls|
  {
    FirstNot(ls, a, z) < z
  }

  // Where the test of a run starts: a wildcard right before the first negated level is tested with it.
  function FirstTested(ls: seq<Level>, a: nat, z: nat): (k: nat)
    requires a <= z <= |ls|
    ensures a <= k <= z
  {
    if FirstNot(ls, a, z) == a then a else FirstNot(ls, a, z) - 1
  }

  // The labels that wildcard must take, which are not counted.
  function Skip(ls: seq<Level>, a: nat, z: nat): (n: nat)
    requires a <= z <= |ls|
  {
    if a < FirstNot(ls, a, z) < z then ls[FirstNot(ls, a, z) - 1].low else 0
  }

  /** The labels s fit the levels j to z - 1 with their negations taken away, when the first of them that is no
      wildcard takes its label at a place from lo to hi, or when nothing follows and between lo and hi labels are
      left.  A wildcard sets these anew, so that of neighbouring wildcards only the last counts.  A level that had
      a negation needs no label when none are left. */
  ghost predicate FitsLoosely(ls: seq<Level>, j: nat, z: nat, s: Path, lo: nat, hi: nat)
    requires j <= z <= |ls|
    decreases z - j
  {
    if j == z then lo <= |s| <= hi
    else if IsWild(ls[j]) then FitsLoosely(ls, j + 1, z, s, ls[j].low, ls[j].high)
    else if s == [] && ls[j].not then FitsLoosely(ls, j + 1, z, s, lo, hi)
    else exists n :: lo <= n <= hi && n < |s| && LevelMatches(ls[j], s[n]) && FitsLoosely(ls, j + 1, z, s[n + 1..], 0, 0)
  }

  // The labels that are tested fit the run.
  ghost predicate FitsRun(ls: seq<Level>, a: nat, z: nat, s: Path)
    requires a <= z <= |ls|
  {
    FitsLoosely(ls, FirstTested(ls, a, z), z, s, 0, 0)
  }

  // How many labels match a level.
  ghost function Count(l: Level, s: Path): (n: nat)
    ensures n <= |s|
  {
    if s == [] then 0 else (if LevelMatches(l, s[0]) then 1 else 0) + Count(l, s[1..])
  }

  // The first n of the labels.
  function First(s: Path, n: int): (t: Path) {
    if n < 0 then [] else if n < |s| then s[..n] else s
  }

  // The labels of gap that are tested do not fit the run, when passed labels were passed over.
  ghost predicate GapTest(ls: seq<Level>, a: nat, z: nat, gap: Path, passed: nat)
    requires a <= z <= |ls|
  {
    HasNot(ls, a, z) ==> !FitsRun(ls, a, z, First(gap, |gap| - Skip(ls, a, z) - passed))
  }

  /** The labels gap suit the run before level z.  Only after a wildcard may that level pass over labels that it
      matches, and of the labels that are tested as many are then left out at the end. */
  ghost predicate GapSuits(ls: seq<Level>, a: nat, z: nat, gap: Path)
    requires a <= z < |ls|
  {
    && Start(ls, a, z) <= |gap| <= High(ls, a, z)
    && var passed := Count(ls[z], gap[Start(ls, a, z)..]);
       (passed > 0 ==> EndsWild(ls, a, z)) && GapTest(ls, a, z, gap, passed)
  }

  // How far the last run is looked at when n labels are left.
  function Reached(ls: seq<Level>, a: nat, z: nat, n: nat): (e: nat)
    requires a <= z <= |ls|
    ensures a <= e <= z
    decreases z
  {
    if z == a then a else if Taken(ls, a, z - 1) < n then z else Reached(ls, a, z - 1, n)
  }

  // The lower bound of the last wildcard from level a on, if there is one.
  function LastLow(ls: seq<Level>, a: nat): (low: Option<nat>)
    requires a <= |ls|
    decreases |ls| - a
  {
    if a == |ls| then None
    else if LastLow(ls, a + 1).Some? then LastLow(ls, a + 1)
    else if IsWild(ls[a]) then Some(ls[a].low)
    else None
  }

  // The levels from a on need no label when none are left: the last wildcard may take none.
  predicate NeedsNone(ls: seq<Level>, a: nat)
    requires a <= |ls|
  {
    LastLow(ls, a).Some? ==> LastLow(ls, a).value == 0
  }

  // How many of n labels are tested at the end.
  function TestedAtEnd(ls: seq<Level>, a: nat, n: nat): (m: int)
    requires a <= |ls|
  {
    var e := Reached(ls, a, |ls|, n);
    if e == |ls| && a < e && !IsWild(ls[e - 1]) && IsNot(ls[a]) then Taken(ls, a, e) else n - Skip(ls, a, e)
  }

  // The labels that are tested do not fit the levels of the last run that were reached.
  ghost predicate EndTest(ls: seq<Level>, a: nat, e: nat, rest: Path)
    requires a <= e <= |ls|
  {
    HasNot(ls, a, e) ==> !FitsRun(ls, a, e, First(rest, TestedAtEnd(ls, a, |rest|)))
  }

  /** All labels that are left suit the run from level a to the end of the query. */
  ghost predicate EndSuits(ls: seq<Level>, a: nat, rest: Path)
    requires a <= |ls|
  {
    var e := Reached(ls, a, |ls|, |rest|);
    && Taken(ls, a, e) <= |rest| && Low(ls, a, e) <= |rest| <= High(ls, a, e)
    && NeedsNone(ls, e) && EndTest(ls, a, e, rest)
  }

  /** The levels from a on are matched by the labels from i on. */
  ghost predicate Suits(ls: seq<Level>, a: nat, p: Path, i: nat)
    requires a <= |ls| && i <= |p|
    decreases |ls| - a, 1
  {
    var z := RunEnd(ls, a);
    if z == |ls| then SuitsAt(ls, a, z, p, i, |p|)
    else exists n :: i <= n < |p| && LevelMatches(ls[z], p[n]) && SuitsAt(ls, a, z, p, i, n)
  }

  // The run suits the labels from i to n - 1, and what follows it the labels after n.
  ghost predicate SuitsAt(ls: seq<Level>, a: nat, z: nat, p: Path, i: nat, n: nat)
    requires a <= z <= |ls| && i <= n <= |p| && (z < |ls| ==> n < |p|)
    decreases |ls| - z, 0
  {
    if z == |ls| then EndSuits(ls, a, p[i..n]) else GapSuits(ls, a, z, p[i..n]) && Suits(ls, z + 1, p, n + 1)
  }

  // ----- One level more -----

  lemma {:induction false} LowIsStart(ls: seq<Level>, a: nat, z: nat)
    requires z <= |ls|
    ensures if EndsWild(ls, a, z) then Low(ls, a, z) == Start(ls, a, z) else Low(ls, a, z) <= Taken(ls, a, z) == Start(ls, a, z)
    decreases z
  {
    if a < z {
      LowIsStart(ls, a, z - 1);
    }
  }

  // The bounds of every wildcard are in order, as lquery_in demands.
  predicate InOrder(ls: seq<Level>) {
    forall i :: 0 <= i < |ls| && IsWild(ls[i]) ==> ls[i].low <= ls[i].high
  }

  lemma {:induction false} HighIsAbove(ls: seq<Level>, a: nat, z: nat)
    requires z <= |ls| && InOrder(ls)
    ensures High(ls, a, z) >= Start(ls, a, z)
    decreases z
  {
    if a < z {
      HighIsAbove(ls, a, z - 1);
    }
  }

  lemma {:induction false} TakenGrows(ls: seq<Level>, a: nat, y: nat, z: nat)
    requires y <= z <= |ls|
    ensures Taken(ls, a, y) <= Taken(ls, a, z) <= Start(ls, a, z)
    decreases z
  {
    if y < z {
      TakenGrows(ls, a, y, z - 1);
    }
  }

  lemma {:induction false} NoNotTakesNone(ls: seq<Level>, a: nat, z: nat)
    requires a <= z <= |ls| && AllLoose(ls, a, z) && !HasNot(ls, a, z)
    ensures Taken(ls, a, z) == 0 && (a < z ==> IsWild(ls[z - 1]))
    decreases z
  {
    if a < z {
      NoNotTakesNone(ls, a, z - 1);
      assert Loose(ls[z - 1]);
    }
  }

  lemma {:induction false} FirstNotIs(ls: seq<Level>, a: nat, z: nat)
    requires a <= z <= |ls|
    ensures forall k :: a <= k < FirstNot(ls, a, z) ==> !IsNot(ls[k])
    ensures HasNot(ls, a, z) ==> IsNot(ls[FirstNot(ls, a, z)])
    decreases z
  {
    if a < z {
      FirstNotIs(ls, a, z - 1);
    }
  }

  // ----- The state of the walk -----

  // What checkCond remembers of the negated levels of a run whose labels start at i.
  function NegOf(ls: seq<Level>, a: nat, z: nat, i: nat, b: nat): (neg: Neg)
    requires a <= z <= |ls| && b <= i
  {
    if !HasNot(ls, a, z) then NoNeg
    else
      Neg(FirstTested(ls, a, z), z - FirstTested(ls, a, z), i, Taken(ls, a, z) - Skip(ls, a, z), i - b + Skip(ls, a, z))
  }

  // The same after the last level of the query, with n labels from i on.
  function EndNeg(ls: seq<Level>, a: nat, i: nat, b: nat, n: nat): (neg: Neg)
    requires a < |ls| && b <= i
  {
    var neg := NegOf(ls, a, |ls|, i, b);
    if neg.Neg? && (IsWild(ls[|ls| - 1]) || !IsNot(ls[a])) then neg.(nt := n - Skip(ls, a, |ls|)) else neg
  }

  function WalkNeg(ls: seq<Level>, a: nat, z: nat, p: Path, i: nat, b: nat): (neg: Neg)
    requires a <= z <= |ls| && b <= i <= |p|
  {
    if a < z == |ls| then EndNeg(ls, a, i, b, |p| - i) else NegOf(ls, a, z, i, b)
  }

  // The levels a to z - 1 are a run, or the start of one.
  predicate Walking(ls: seq<Level>, a: nat, z: nat) {
    a <= z <= |ls| && AllLoose(ls, a, z) && (a > 0 ==> !Loose(ls[a - 1]))
  }

  lemma WildNeg(ls: seq<Level>, a: nat, z: nat, p: Path, i: nat, b: nat)
    requires Walking(ls, a, z) && z < |ls| && IsWild(ls[z]) && b <= i <= |p|
    ensures AddWild(ls, z, NegOf(ls, a, z, i, b), |p| - b) == WalkNeg(ls, a, z + 1, p, i, b)
  {
  }

  lemma AddedNot(ls: seq<Level>, a: nat, z: nat, i: nat, b: nat, c: nat, at: nat)
    requires Walking(ls, a, z) && z < |ls| && IsNot(ls[z]) && b <= i
    requires c == i - b + Taken(ls, a, z) && at == i - b + Start(ls, a, z)
    ensures var neg := NegOf(ls, a, z, i, b);
            NegOf(ls, a, z + 1, i, b) ==
            if neg.Neg? then neg.(nt := neg.nt + (at - c) + 1, nq := neg.nq + 1)
            else if AfterWild(ls, z) then Neg(z - 1, 2, b + c, 1, at) else Neg(z, 1, b + c, 1, at)
  {
    if !HasNot(ls, a, z) {
      NoNotTakesNone(ls, a, z);
    }
  }

  lemma NotNeg(ls: seq<Level>, a: nat, z: nat, p: Path, i: nat, b: nat, c: nat, at: nat)
    requires Walking(ls, a, z) && z < |ls| && IsNot(ls[z]) && b <= i <= |p|
    requires c == i - b + Taken(ls, a, z) && at == i - b + Start(ls, a, z)
    ensures AddNot(ls, z, Pass(NegOf(ls, a, z, i, b), at - c), b + c, at, |p| - b) == WalkNeg(ls, a, z + 1, p, i, b)
  {
    AddedNot(ls, a, z, i, b, c, at);
    FirstNotIs(ls, a, z + 1);
    assert Loose(ls[FirstTested(ls, a, z + 1)]);
  }

  // ----- Negated runs are tested -----

  // The labels from t on that neg spans, when it spans extra more, fit its levels.
  ghost predicate NegFits(ls: seq<Level>, p: Path, neg: Neg, extra: int)
    requires neg.Neg?
  {
    && neg.nt + extra >= 0 && neg.q + neg.nq <= |ls| && neg.t + neg.nt + extra <= |p|
    && FitsLoosely(ls, neg.q, neg.q + neg.nq, p[neg.t..neg.t + neg.nt + extra], 0, 0)
  }

  lemma {:induction false} SliceFits(ls: seq<Level>, q: nat, j: nat, z: nat, s: Path, lo: nat, hi: nat)
    requires q <= j <= z <= |ls|
    ensures FitsWithin(ls[q..z], j - q, s, lo, hi) <==> FitsLoosely(ls, j, z, s, lo, hi)
    decreases z - j
  {
    var sub := ls[q..z];
    if j < z {
      assert sub[j - q] == ls[j];
      if IsWild(ls[j]) {
        SliceFits(ls, q, j + 1, z, s, ls[j].low, ls[j].high);
      } else if s == [] && ls[j].not {
        SliceFits(ls, q, j + 1, z, s, lo, hi);
      } else {
        forall n | lo <= n <= hi && n < |s|
          ensures FitsAt(sub, j - q, s, n) <==> LevelMatches(ls[j], s[n]) && FitsLoosely(ls, j + 1, z, s[n + 1..], 0, 0)
        {
          SliceFits(ls, q, j + 1, z, s[n + 1..], 0, 0);
        }
      }
    }
  }

  lemma WalkIsLoose(ls: seq<Level>, s: Path)
    ensures Cond(ls, s, false, 0, 0, 0, 0, 0, NoNeg) <==> FitsWithin(ls, 0, s, 0, 0)
  {
    CondIsFits(ls, s, false, 0, 0, 0, 0, 0);
    assert s[0..] == s;
  }

  lemma NegMatchesIs(ls: seq<Level>, p: Path, neg: Neg)
    requires neg.Neg?
    ensures NegMatches(ls, p, neg) <==> NegFits(ls, p, neg, 0)
  {
    if neg.nt >= 0 && neg.q + neg.nq <= |ls| && neg.t + neg.nt <= |p| {
      var z, s := neg.q + neg.nq, p[neg.t..neg.t + neg.nt];
      WalkIsLoose(ls[neg.q..z], s);
      SliceFits(ls, neg.q, neg.q, z, s, 0, 0);
    }
  }

  // ----- A level after a run is placed -----

  // Level z takes label n, when labels from m on were tried and neg waits.
  ghost predicate TakesAt(ls: seq<Level>, z: nat, p: Path, m: nat, n: nat, neg: Neg)
    requires z < |ls| && m <= n < |p|
  {
    && LevelMatches(ls[z], p[n])
    && (AfterWild(ls, z) || Count(ls[z], p[m..n]) == 0)
    && (neg.Neg? ==> !NegFits(ls, p, neg, n - m - Count(ls[z], p[m..n])))
  }

  // And what follows suits the labels after it.
  ghost predicate PlacesAt(ls: seq<Level>, z: nat, p: Path, m: nat, n: nat, neg: Neg)
    requires z < |ls| && m <= n < |p|
  {
    TakesAt(ls, z, p, m, n, neg) && Suits(ls, z + 1, p, n + 1)
  }

  ghost predicate Places(ls: seq<Level>, z: nat, p: Path, m: nat, hi: int, neg: Neg)
    requires z < |ls| && m <= |p|
  {
    exists n :: m <= n <= hi && n < |p| && PlacesAt(ls, z, p, m, n, neg)
  }

  lemma CountNext(l: Level, p: Path, m: nat, n: nat)
    requires m < n <= |p|
    ensures Count(l, p[m..n]) == (if LevelMatches(l, p[m]) then 1 else 0) + Count(l, p[m + 1..n])
  {
    assert p[m..n][0] == p[m] && p[m..n][1..] == p[m + 1..n];
  }

  lemma PassAt(ls: seq<Level>, z: nat, p: Path, m: nat, n: nat, neg: Neg)
    requires z < |ls| && m < n < |p| && !LevelMatches(ls[z], p[m])
    ensures TakesAt(ls, z, p, m, n, neg) <==> TakesAt(ls, z, p, m + 1, n, Pass(neg, 1))
  {
    CountNext(ls[z], p, m, n);
  }

  // A label that does not match is passed and counted.
  lemma PassLabel(ls: seq<Level>, z: nat, p: Path, m: nat, hi: int, neg: Neg)
    requires z < |ls| && m < |p| && !LevelMatches(ls[z], p[m])
    ensures Places(ls, z, p, m, hi, neg) <==> Places(ls, z, p, m + 1, hi, Pass(neg, 1))
  {
    if Places(ls, z, p, m, hi, neg) {
      var n :| m <= n <= hi && n < |p| && PlacesAt(ls, z, p, m, n, neg);
      PassAt(ls, z, p, m, n, neg);
      assert PlacesAt(ls, z, p, m + 1, n, Pass(neg, 1));
    }
    if Places(ls, z, p, m + 1, hi, Pass(neg, 1)) {
      var n :| m + 1 <= n <= hi && n < |p| && PlacesAt(ls, z, p, m + 1, n, Pass(neg, 1));
      PassAt(ls, z, p, m, n, neg);
      assert PlacesAt(ls, z, p, m, n, neg);
    }
  }

  lemma LaterAt(ls: seq<Level>, z: nat, p: Path, m: nat, n: nat, neg: Neg)
    requires z < |ls| && m < n < |p| && LevelMatches(ls[z], p[m])
    ensures TakesAt(ls, z, p, m, n, neg) <==> AfterWild(ls, z) && TakesAt(ls, z, p, m + 1, n, neg)
  {
    CountNext(ls[z], p, m, n);
  }

  // A label that matches is taken, or after a wildcard passed without being counted.
  lemma TakeOrPass(ls: seq<Level>, z: nat, p: Path, m: nat, hi: int, neg: Neg)
    requires z < |ls| && m < |p| && m <= hi && LevelMatches(ls[z], p[m])
    ensures Places(ls, z, p, m, hi, neg) <==>
            PlacesAt(ls, z, p, m, m, neg) || (AfterWild(ls, z) && Places(ls, z, p, m + 1, hi, neg))
  {
    if Places(ls, z, p, m, hi, neg) {
      var n :| m <= n <= hi && n < |p| && PlacesAt(ls, z, p, m, n, neg);
      if n > m {
        LaterAt(ls, z, p, m, n, neg);
        assert PlacesAt(ls, z, p, m + 1, n, neg);
      }
    }
    if AfterWild(ls, z) && Places(ls, z, p, m + 1, hi, neg) {
      var n :| m + 1 <= n <= hi && n < |p| && PlacesAt(ls, z, p, m + 1, n, neg);
      LaterAt(ls, z, p, m, n, neg);
      assert PlacesAt(ls, z, p, m, n, neg);
    }
  }

  lemma TakeLabel(ls: seq<Level>, z: nat, p: Path, m: nat, neg: Neg)
    requires z < |ls| && m < |p| && LevelMatches(ls[z], p[m])
    ensures TakesAt(ls, z, p, m, m, neg) <==> (neg.Neg? ==> !NegFits(ls, p, neg, 0))
  {
    assert p[m..m] == [];
  }

  // ----- The end of the walk -----

  lemma {:induction false} ReachedIs(ls: seq<Level>, a: nat, e: nat, z: nat, n: nat)
    requires a <= e <= z <= |ls| && (e > a ==> Taken(ls, a, e - 1) < n) && (e < z ==> Taken(ls, a, e) >= n)
    ensures Reached(ls, a, z, n) == e
    decreases z
  {
    if e < z {
      TakenGrows(ls, a, e, z - 1);
      ReachedIs(ls, a, e, z - 1, n);
    }
  }

  // What is left of the query needs no labels.
  lemma {:induction false} LeftoverIs(ls: seq<Level>, c: nat, j: nat, low: nat, high: nat)
    requires j <= |ls| && AllLoose(ls, j, |ls|)
    ensures var r := Leftover(ls, c, j, low, high);
            && r.Some?
            && (r.value.0 <= c <= r.value.1 <==>
                if LastLow(ls, j).Some? then LastLow(ls, j).value == 0 else low <= c <= high)
    decreases |ls| - j
  {
    if j < |ls| {
      assert Loose(ls[j]);
      if IsWild(ls[j]) {
        LeftoverIs(ls, c, j + 1, c + ls[j].low, c + ls[j].high);
      } else {
        LeftoverIs(ls, c, j + 1, low, high);
      }
    }
  }

  // The walk of the run from level a has come to level j, with the labels from i on.
  ghost predicate Walked(ls: seq<Level>, a: nat, j: nat, n: nat)
    requires a <= j <= |ls|
  {
    (a < j ==> Taken(ls, a, j - 1) < n) && Taken(ls, a, j) <= n
  }

  lemma FirstIs(p: Path, i: nat, m: nat)
    requires i + m <= |p|
    ensures First(p[i..], m) == p[i..i + m]
  {
  }

  lemma NegFitsIs(ls: seq<Level>, p: Path, neg: Neg, a: nat, e: nat, i: nat, m: nat)
    requires a <= e <= |ls| && neg.Neg? && neg.t == i && neg.nt == m && i + m <= |p|
    requires neg.q == FirstTested(ls, a, e) && neg.q + neg.nq == e
    ensures NegFits(ls, p, neg, 0) <==> FitsRun(ls, a, e, First(p[i..], m))
  {
    FirstIs(p, i, m);
  }

  lemma EndNegIs(ls: seq<Level>, a: nat, i: nat, b: nat, n: nat)
    requires a < |ls| && AllLoose(ls, a, |ls|) && b <= i && HasNot(ls, a, |ls|)
    requires Taken(ls, a, |ls|) <= n && Reached(ls, a, |ls|, n) == |ls|
    ensures var neg, m := EndNeg(ls, a, i, b, n), TestedAtEnd(ls, a, n);
            0 <= m <= n && neg.Neg? && neg.t == i && neg.nt == m && neg.q == FirstTested(ls, a, |ls|) && neg.q + neg.nq == |ls|
  {
    SkipIsTaken(ls, a, |ls|);
    FirstNotIs(ls, a, |ls|);
    assert IsNot(ls[a]) ==> FirstNot(ls, a, |ls|) == a;
    assert Loose(ls[|ls| - 1]);
  }

  // The test at the end of the walk.
  lemma EndNegFits(ls: seq<Level>, a: nat, p: Path, i: nat, b: nat)
    requires a < |ls| && AllLoose(ls, a, |ls|) && b <= i <= |p| && HasNot(ls, a, |ls|)
    requires Taken(ls, a, |ls|) <= |p| - i && Reached(ls, a, |ls|, |p| - i) == |ls|
    ensures EndNeg(ls, a, i, b, |p| - i).Neg?
    ensures NegFits(ls, p, EndNeg(ls, a, i, b, |p| - i), 0) <==>
            FitsRun(ls, a, |ls|, First(p[i..], TestedAtEnd(ls, a, |p| - i)))
  {
    EndNegIs(ls, a, i, b, |p| - i);
    NegFitsIs(ls, p, EndNeg(ls, a, i, b, |p| - i), a, |ls|, i, TestedAtEnd(ls, a, |p| - i));
  }

  // What is skipped is taken.
  lemma {:induction false} SkipIsTaken(ls: seq<Level>, a: nat, z: nat)
    requires a <= z <= |ls| && AllLoose(ls, a, z) && HasNot(ls, a, z)
    ensures Skip(ls, a, z) + 1 <= Taken(ls, a, z)
    decreases z
  {
    if HasNot(ls, a, z - 1) {
      SkipIsTaken(ls, a, z - 1);
    } else {
      NoNotTakesNone(ls, a, z - 1);
    }
  }

  lemma StopNegFits(ls: seq<Level>, a: nat, e: nat, p: Path, i: nat, b: nat)
    requires a <= e < |ls| && AllLoose(ls, a, e) && b <= i <= |p| && HasNot(ls, a, e)
    requires Taken(ls, a, e) == |p| - i && Reached(ls, a, |ls|, |p| - i) == e
    ensures NegFits(ls, p, NegOf(ls, a, e, i, b), 0) <==> FitsRun(ls, a, e, First(p[i..], TestedAtEnd(ls, a, |p| - i)))
  {
    SkipIsTaken(ls, a, e);
    NegFitsIs(ls, p, NegOf(ls, a, e, i, b), a, e, i, TestedAtEnd(ls, a, |p| - i));
  }

  // The walk has come to the end of the labels or of the query.
  ghost predicate Stopped(ls: seq<Level>, a: nat, e: nat, n: nat)
    requires a <= e <= |ls|
  {
    Walked(ls, a, e, n) && (e < |ls| ==> Taken(ls, a, e) == n)
  }

  lemma StopReached(ls: seq<Level>, a: nat, e: nat, n: nat)
    requires a <= e <= |ls| && Stopped(ls, a, e, n)
    ensures Reached(ls, a, |ls|, n) == e
  {
    ReachedIs(ls, a, e, |ls|, n);
  }

  lemma StopNeg(ls: seq<Level>, a: nat, e: nat, p: Path, i: nat, b: nat, neg: Neg)
    requires a <= e <= |ls| && AllLoose(ls, a, |ls|) && b <= i <= |p| && Stopped(ls, a, e, |p| - i)
    requires neg == WalkNeg(ls, a, e, p, i, b)
    ensures neg.Neg? <==> HasNot(ls, a, e)
    ensures neg.Neg? ==> (NegMatches(ls, p, neg) <==> FitsRun(ls, a, e, First(p[i..], TestedAtEnd(ls, a, |p| - i))))
  {
    StopReached(ls, a, e, |p| - i);
    if HasNot(ls, a, e) {
      NegMatchesIs(ls, p, neg);
      if e == |ls| {
        EndNegFits(ls, a, p, i, b);
      } else {
        StopNegFits(ls, a, e, p, i, b);
      }
    }
  }

  lemma EndTestIs(ls: seq<Level>, a: nat, e: nat, p: Path, i: nat, fits: bool)
    requires a <= e <= |ls| && i <= |p|
    requires HasNot(ls, a, e) ==> (fits <==> FitsRun(ls, a, e, First(p[i..], TestedAtEnd(ls, a, |p| - i))))
    ensures EndTest(ls, a, e, p[i..]) <==> (HasNot(ls, a, e) ==> !fits)
  {
    assert |p[i..]| == |p| - i;
  }

  lemma FinishTest(ls: seq<Level>, a: nat, e: nat, p: Path, nots: bool, i: nat, b: nat, neg: Neg)
    requires a <= e <= |ls| && AllLoose(ls, a, |ls|) && b <= i <= |p| && Stopped(ls, a, e, |p| - i) && (nots || NotFree(ls))
    requires neg == WalkNeg(ls, a, e, p, i, b)
    ensures (neg.Neg? ==> nots && !NegMatches(ls, p, neg)) <==> EndTest(ls, a, e, p[i..])
  {
    StopNeg(ls, a, e, p, i, b, neg);
    FreeHasNone(ls, a, e);
    EndTestIs(ls, a, e, p, i, neg.Neg? && NegMatches(ls, p, neg));
  }

  lemma FreeHasNone(ls: seq<Level>, a: nat, e: nat)
    requires a <= e <= |ls|
    ensures NotFree(ls) ==> !HasNot(ls, a, e)
  {
    FirstNotIs(ls, a, e);
  }

  lemma EndSuitsIs(ls: seq<Level>, a: nat, e: nat, rest: Path)
    requires a <= e <= |ls| && Stopped(ls, a, e, |rest|)
    ensures EndSuits(ls, a, rest) <==>
            && Taken(ls, a, e) <= |rest| && Low(ls, a, e) <= |rest| <= High(ls, a, e)
            && NeedsNone(ls, e) && EndTest(ls, a, e, rest)
  {
    StopReached(ls, a, e, |rest|);
  }

  // The checks after the loop, in a run that ends the query.
  lemma FinishSuits(ls: seq<Level>, a: nat, e: nat, p: Path, nots: bool, i: nat, b: nat, c: nat, low: nat, high: nat, neg: Neg)
    requires a <= e <= |ls| && AllLoose(ls, a, |ls|) && b <= i <= |p| && Stopped(ls, a, e, |p| - i) && (nots || NotFree(ls))
    requires c == i - b + Taken(ls, a, e) && low == i - b + Low(ls, a, e) && high == i - b + High(ls, a, e)
    requires neg == WalkNeg(ls, a, e, p, i, b)
    ensures Finish(ls, p, nots, b, c, e, low, high, neg) <==> SuitsAt(ls, a, |ls|, p, i, |p|)
  {
    assert p[i..|p|] == p[i..];
    EndSuitsIs(ls, a, e, p[i..]);
    FinishTest(ls, a, e, p, nots, i, b, neg);
    LeftoverAtStop(ls, e, c, low, high, |p| - b);
  }

  lemma LeftoverAtStop(ls: seq<Level>, e: nat, c: nat, low: nat, high: nat, tn: nat)
    requires e <= |ls| && AllLoose(ls, e, |ls|) && (e < |ls| ==> c == tn)
    ensures var r := Leftover(ls, c, e, low, high);
            && r.Some?
            && (low <= tn <= high ==> (r.value.0 <= tn <= r.value.1 <==> NeedsNone(ls, e)))
  {
    LeftoverIs(ls, c, e, low, high);
  }

  // ----- The walk decides what suits -----

  // A run that needs more labels than there are does not suit them.
  lemma TooFew(ls: seq<Level>, a: nat, y: nat, p: Path, i: nat)
    requires a <= |ls| && a <= y <= RunEnd(ls, a) < |ls| && i <= |p|
    requires Taken(ls, a, y) >= |p| - i || Start(ls, a, RunEnd(ls, a)) >= |p| - i
    ensures !Suits(ls, a, p, i)
  {
    TakenGrows(ls, a, y, RunEnd(ls, a));
  }

  lemma TooFewAtEnd(ls: seq<Level>, a: nat, j: nat, p: Path, i: nat)
    requires a <= |ls| && a <= j < RunEnd(ls, a) == |ls| && i <= |p| && Taken(ls, a, j) < |p| - i < Taken(ls, a, j + 1)
    ensures !Suits(ls, a, p, i)
  {
    ReachedIs(ls, a, j + 1, |ls|, |p| - i);
  }

  // What neg is when the level after the run is looked for.
  lemma PassedNeg(ls: seq<Level>, a: nat, z: nat, i: nat, b: nat)
    requires a <= z <= |ls| && AllLoose(ls, a, z) && b <= i && HasNot(ls, a, z)
    ensures var neg := Pass(NegOf(ls, a, z, i, b), Start(ls, a, z) - Taken(ls, a, z));
            && neg.Neg? && neg.t == i && neg.nt == Start(ls, a, z) - Skip(ls, a, z) > 0
            && neg.q == FirstTested(ls, a, z) && neg.q + neg.nq == z
  {
    SkipIsTaken(ls, a, z);
  }

  lemma PassedNegFits(ls: seq<Level>, a: nat, z: nat, p: Path, i: nat, m: nat, n: nat, neg: Neg, passed: nat)
    requires a <= z <= |ls| && neg.Neg? && neg.t == i && neg.q == FirstTested(ls, a, z) && neg.q + neg.nq == z
    requires neg.nt == m - i - Skip(ls, a, z) > 0 && i <= m <= n < |p| && passed <= n - m
    ensures NegFits(ls, p, neg, n - m - passed) <==> FitsRun(ls, a, z, First(p[i..n], n - i - Skip(ls, a, z) - passed))
  {
    var len := n - i - Skip(ls, a, z) - passed;
    assert First(p[i..n], len) == p[i..i + len];
  }

  lemma GapSuitsIs(ls: seq<Level>, a: nat, z: nat, gap: Path, start: nat, scanned: Path, passed: nat, test: bool)
    requires a <= z < |ls| && start == Start(ls, a, z) <= |gap| <= High(ls, a, z)
    requires scanned == gap[start..] && passed == Count(ls[z], scanned) && test == GapTest(ls, a, z, gap, passed)
    ensures GapSuits(ls, a, z, gap) <==> (passed > 0 ==> EndsWild(ls, a, z)) && test
  {
  }

  lemma TakesIs(ls: seq<Level>, z: nat, p: Path, m: nat, n: nat, neg: Neg, passed: nat, test: bool)
    requires z < |ls| && m <= n < |p| && passed == Count(ls[z], p[m..n])
    requires test == (neg.Neg? ==> !NegFits(ls, p, neg, n - m - passed))
    ensures TakesAt(ls, z, p, m, n, neg) <==> LevelMatches(ls[z], p[n]) && (passed > 0 ==> AfterWild(ls, z)) && test
  {
  }

  lemma TestIs(ls: seq<Level>, a: nat, z: nat, p: Path, i: nat, b: nat, m: nat, n: nat, neg: Neg, passed: nat)
    requires Walking(ls, a, z) && b <= i && m == i + Start(ls, a, z) && m <= n < |p| && passed <= n - m
    requires neg == Pass(NegOf(ls, a, z, i, b), Start(ls, a, z) - Taken(ls, a, z))
    ensures (neg.Neg? ==> !NegFits(ls, p, neg, n - m - passed)) <==> GapTest(ls, a, z, p[i..n], passed)
  {
    if HasNot(ls, a, z) {
      PassedNeg(ls, a, z, i, b);
      PassedNegFits(ls, a, z, p, i, m, n, neg, passed);
    }
  }

  // Taking a label for the level after a run is what suits the run.
  lemma TakesAtIs(ls: seq<Level>, a: nat, z: nat, p: Path, i: nat, b: nat, m: nat, n: nat, neg: Neg)
    requires Walking(ls, a, z) && z < |ls| && b <= i && m == i + Start(ls, a, z) && m <= n < |p| && n - i <= High(ls, a, z)
    requires neg == Pass(NegOf(ls, a, z, i, b), Start(ls, a, z) - Taken(ls, a, z))
    ensures TakesAt(ls, z, p, m, n, neg) <==> LevelMatches(ls[z], p[n]) && GapSuits(ls, a, z, p[i..n])
  {
    var passed := Count(ls[z], p[m..n]);
    var test := neg.Neg? ==> !NegFits(ls, p, neg, n - m - passed);
    TakesIs(ls, z, p, m, n, neg, passed, test);
    TestIs(ls, a, z, p, i, b, m, n, neg, passed);
    GapStart(p, i, m, n);
    GapSuitsIs(ls, a, z, p[i..n], m - i, p[m..n], passed, test);
  }

  lemma PlacesAtIs(ls: seq<Level>, a: nat, z: nat, p: Path, i: nat, b: nat, m: nat, n: nat, neg: Neg)
    requires Walking(ls, a, z) && z < |ls| && b <= i && m == i + Start(ls, a, z) && m <= n < |p| && n - i <= High(ls, a, z)
    requires neg == Pass(NegOf(ls, a, z, i, b), Start(ls, a, z) - Taken(ls, a, z))
    ensures PlacesAt(ls, z, p, m, n, neg) <==> LevelMatches(ls[z], p[n]) && SuitsAt(ls, a, z, p, i, n)
  {
    TakesAtIs(ls, a, z, p, i, b, m, n, neg);
  }

  lemma GapStart(p: Path, i: nat, m: nat, n: nat)
    requires i <= m <= n <= |p|
    ensures |p[i..n]| == n - i && p[i..n][m - i..] == p[m..n]
  {
  }

  lemma PlacesIs(ls: seq<Level>, a: nat, z: nat, p: Path, i: nat, b: nat, m: nat, hi: int, neg: Neg, ok: bool)
    requires Walking(ls, a, z) && z == RunEnd(ls, a) < |ls| && b <= i <= |p|
    requires m == i + Start(ls, a, z) <= |p| && hi == i + High(ls, a, z)
    requires neg == Pass(NegOf(ls, a, z, i, b), Start(ls, a, z) - Taken(ls, a, z)) && ok == Places(ls, z, p, m, hi, neg)
    ensures Suits(ls, a, p, i) <==> ok
  {
    if Places(ls, z, p, m, hi, neg) {
      var n :| m <= n <= hi && n < |p| && PlacesAt(ls, z, p, m, n, neg);
      PlacesAtIs(ls, a, z, p, i, b, m, n, neg);
    }
    if Suits(ls, a, p, i) {
      var n :| i <= n < |p| && LevelMatches(ls[z], p[n]) && SuitsAt(ls, a, z, p, i, n);
      SuitsWithin(ls, a, z, p, i, n);
      PlacesAtIs(ls, a, z, p, i, b, m, n, neg);
    }
  }

  lemma SuitsWithin(ls: seq<Level>, a: nat, z: nat, p: Path, i: nat, n: nat)
    requires a <= z < |ls| && i <= n < |p| && SuitsAt(ls, a, z, p, i, n)
    ensures Start(ls, a, z) <= n - i <= High(ls, a, z)
  {
    assert |p[i..n]| == n - i;
  }

  lemma {:induction false} TrySuits(ls: seq<Level>, p: Path, nots: bool, b: nat, c: nat, z: nat, high: nat, neg: Neg)
    requires z < |ls| && !Loose(ls[z]) && b + c <= |p| && (nots || NotFree(ls)) && InOrder(ls) && (neg.Neg? ==> nots)
    ensures Try(ls, p, nots, b, c, z, high, neg) <==> Places(ls, z, p, b + c, b + high, neg)
    decreases |p| - (b + c), |ls| - z, 0
  {
    var m, hi := b + c, b + high;
    if c <= high && m < |p| {
      if !LevelMatches(ls[z], p[m]) {
        TrySuits(ls, p, nots, b, c + 1, z, high, Pass(neg, 1));
        PassLabel(ls, z, p, m, hi, neg);
      } else {
        TakeOrPass(ls, z, p, m, hi, neg);
        TakeLabel(ls, z, p, m, neg);
        PlacedSuits(ls, p, nots, b, c, z, neg);
        if AfterWild(ls, z) && m + 1 < |p| && c + 1 <= high {
          TrySuits(ls, p, nots, b + c + 1, 0, z, high - (c + 1), neg);
          RetryIsTry(ls, p, nots, b + c + 1, z, high - (c + 1), neg);
        }
      }
    }
  }

  lemma RetryIsTry(ls: seq<Level>, p: Path, nots: bool, b: nat, z: nat, high: nat, neg: Neg)
    requires z < |ls| && !Loose(ls[z]) && b < |p|
    ensures Cond(ls, p, nots, b, 0, z, 0, high, neg) <==> Try(ls, p, nots, b, 0, z, high, neg)
  {
    assert Pass(neg, 0) == neg;
  }

  lemma PlacedIs(ls: seq<Level>, p: Path, nots: bool, b: nat, c: nat, z: nat, neg: Neg, test: bool, next: bool)
    requires z < |ls| && b + c <= |p| && (neg.Neg? ==> nots) && test == (neg.Neg? ==> !NegFits(ls, p, neg, 0))
    requires next == Cond(ls, p, nots, b, c, z + 1, c, c, NoNeg)
    ensures Placed(ls, p, nots, b, c, z, neg) <==> test && next
  {
    if neg.Neg? {
      NegMatchesIs(ls, p, neg);
    }
  }

  // c, low, high and neg are what checkCond has at level j of the run.
  predicate StandsAt(ls: seq<Level>, a: nat, j: nat, p: Path, i: nat, b: nat, c: nat, low: nat, high: nat, neg: Neg)
    requires a <= j <= |ls| && b <= i <= |p|
  {
    && c == i - b + Taken(ls, a, j) && low == i - b + Low(ls, a, j) && high == i - b + High(ls, a, j)
    && neg == WalkNeg(ls, a, j, p, i, b) && b + c <= |p|
  }

  lemma {:induction false} PlacedSuits(ls: seq<Level>, p: Path, nots: bool, b: nat, c: nat, z: nat, neg: Neg)
    requires z < |ls| && !Loose(ls[z]) && b + c < |p| && (nots || NotFree(ls)) && InOrder(ls) && (neg.Neg? ==> nots)
    ensures Placed(ls, p, nots, b, c + 1, z, neg) <==>
            (neg.Neg? ==> !NegFits(ls, p, neg, 0)) && Suits(ls, z + 1, p, b + c + 1)
    decreases |p| - (b + c + 1), |ls| - z, 4
  {
    var test, next := neg.Neg? ==> !NegFits(ls, p, neg, 0), Cond(ls, p, nots, b, c + 1, z + 1, c + 1, c + 1, NoNeg);
    PlacedIs(ls, p, nots, b, c + 1, z, neg, test, next);
    WalkSuits(ls, p, nots, b, b + c + 1, z + 1, z + 1, c + 1, c + 1, c + 1, NoNeg);
  }

  lemma CondStops(ls: seq<Level>, p: Path, nots: bool, b: nat, c: nat, j: nat, low: nat, high: nat, neg: Neg)
    requires b + c <= |p| && j <= |ls| && (b + c == |p| || j == |ls|)
    ensures Cond(ls, p, nots, b, c, j, low, high, neg) <==> Finish(ls, p, nots, b, c, j, low, high, neg)
  {
  }

  lemma StopAtEnd(ls: seq<Level>, p: Path, nots: bool, b: nat, i: nat, a: nat, j: nat, c: nat, low: nat, high: nat, neg: Neg)
    requires Walking(ls, a, j) && RunEnd(ls, a) == |ls| && b <= i <= |p| && Stopped(ls, a, j, |p| - i) && (nots || NotFree(ls))
    requires StandsAt(ls, a, j, p, i, b, c, low, high, neg)
    ensures Cond(ls, p, nots, b, c, j, low, high, neg) <==> SuitsAt(ls, a, |ls|, p, i, |p|)
  {
    CondStops(ls, p, nots, b, c, j, low, high, neg);
    FinishSuits(ls, a, j, p, nots, i, b, c, low, high, neg);
  }

  lemma NeedyFails(ls: seq<Level>, p: Path, nots: bool, b: nat, c: nat, j: nat, low: nat, high: nat, neg: Neg, z: nat)
    requires b + c == |p| && j <= z < |ls| && !Loose(ls[z])
    ensures !Cond(ls, p, nots, b, c, j, low, high, neg)
  {
    CondStops(ls, p, nots, b, c, j, low, high, neg);
    LeftoverNeedsNone(ls, c, j, low, high, z);
  }

  lemma StopSuits(ls: seq<Level>, p: Path, nots: bool, b: nat, i: nat, a: nat, j: nat, c: nat, low: nat, high: nat, neg: Neg)
    requires Walking(ls, a, j) && j <= RunEnd(ls, a) && b <= i <= |p| && Walked(ls, a, j, |p| - i)
    requires (nots || NotFree(ls)) && (Taken(ls, a, j) == |p| - i || j == |ls|) && StandsAt(ls, a, j, p, i, b, c, low, high, neg)
    ensures Cond(ls, p, nots, b, c, j, low, high, neg) <==> Suits(ls, a, p, i)
  {
    if RunEnd(ls, a) == |ls| {
      StopAtEnd(ls, p, nots, b, i, a, j, c, low, high, neg);
    } else {
      NeedyFails(ls, p, nots, b, c, j, low, high, neg, RunEnd(ls, a));
      TooFew(ls, a, j, p, i);
    }
  }

  // The next state after a wildcard, and after a negated level.
  lemma WildStep(ls: seq<Level>, p: Path, nots: bool, b: nat, i: nat, a: nat, j: nat, c: nat, low: nat, high: nat, neg: Neg)
    returns (low': nat, high': nat, neg': Neg)
    requires Walking(ls, a, j) && j < |ls| && IsWild(ls[j]) && b <= i <= |p| && b + c < |p|
    requires StandsAt(ls, a, j, p, i, b, c, low, high, neg)
    ensures StandsAt(ls, a, j + 1, p, i, b, c, low', high', neg')
    ensures Cond(ls, p, nots, b, c, j, low, high, neg) <==> Cond(ls, p, nots, b, c, j + 1, low', high', neg')
  {
    WildNeg(ls, a, j, p, i, b);
    low', high', neg' := c + ls[j].low, c + ls[j].high, AddWild(ls, j, neg, |p| - b);
  }

  lemma NotBounds(ls: seq<Level>, a: nat, j: nat)
    requires a <= j < |ls| && IsNot(ls[j]) && InOrder(ls)
    ensures Taken(ls, a, j + 1) == Start(ls, a, j) + 1 && Low(ls, a, j + 1) == Low(ls, a, j)
    ensures High(ls, a, j + 1) == if High(ls, a, j) < Start(ls, a, j) + 1 then High(ls, a, j) + 1 else High(ls, a, j)
    ensures Start(ls, a, j) == if Taken(ls, a, j) < Low(ls, a, j) then Low(ls, a, j) else Taken(ls, a, j)
  {
    LowIsStart(ls, a, j);
    HighIsAbove(ls, a, j);
  }

  // checkCond at a negated level, when a label is left for it.
  lemma CondNot(ls: seq<Level>, p: Path, b: nat, c: nat, j: nat, low: nat, high: nat, neg: Neg, at: nat)
    requires b + c < |p| && j < |ls| && IsNot(ls[j]) && at == (if c < low then low else c) && b + at < |p|
    ensures Cond(ls, p, true, b, c, j, low, high, neg) <==>
            Cond(ls, p, true, b, at + 1, j + 1, low, if high < at + 1 then high + 1 else high,
                 AddNot(ls, j, Pass(neg, at - c), b + c, at, |p| - b))
  {
  }

  lemma NotStands(ls: seq<Level>, p: Path, b: nat, i: nat, a: nat, j: nat, c: nat, low: nat, high: nat, neg: Neg, at: nat)
    requires Walking(ls, a, j) && j < |ls| && IsNot(ls[j]) && b <= i <= |p| && InOrder(ls)
    requires StandsAt(ls, a, j, p, i, b, c, low, high, neg) && at == i - b + Start(ls, a, j) && b + at < |p|
    ensures at == (if c < low then low else c)
    ensures StandsAt(ls, a, j + 1, p, i, b, at + 1, low, if high < at + 1 then high + 1 else high,
                     AddNot(ls, j, Pass(neg, at - c), b + c, at, |p| - b))
  {
    NotBounds(ls, a, j);
    NotNeg(ls, a, j, p, i, b, c, at);
  }

  lemma NotStep(ls: seq<Level>, p: Path, b: nat, i: nat, a: nat, j: nat, c: nat, low: nat, high: nat, neg: Neg)
    returns (c': nat, high': nat, neg': Neg)
    requires Walking(ls, a, j) && j < |ls| && IsNot(ls[j]) && b <= i <= |p| && InOrder(ls)
    requires StandsAt(ls, a, j, p, i, b, c, low, high, neg) && i + Start(ls, a, j) < |p| && b + c < |p|
    ensures StandsAt(ls, a, j + 1, p, i, b, c', low, high', neg')
    ensures Cond(ls, p, true, b, c, j, low, high, neg) <==> Cond(ls, p, true, b, c', j + 1, low, high', neg')
  {
    var at := i - b + Start(ls, a, j);
    NotStands(ls, p, b, i, a, j, c, low, high, neg, at);
    CondNot(ls, p, b, c, j, low, high, neg, at);
    c', high', neg' := at + 1, if high < at + 1 then high + 1 else high, AddNot(ls, j, Pass(neg, at - c), b + c, at, |p| - b);
  }

  // A level that is no wildcard, when too few labels are left.
  lemma NoLabelLeft(ls: seq<Level>, a: nat, j: nat, p: Path, i: nat)
    requires a <= |ls| && a <= j <= RunEnd(ls, a) && j < |ls| && !IsWild(ls[j]) && i <= |p|
    requires Taken(ls, a, j) < |p| - i <= Start(ls, a, j)
    ensures !Suits(ls, a, p, i)
  {
    if j == RunEnd(ls, a) {
      TooFew(ls, a, j, p, i);
    } else if RunEnd(ls, a) == |ls| {
      TooFewAtEnd(ls, a, j, p, i);
    } else {
      TooFew(ls, a, j + 1, p, i);
    }
  }

  lemma CondRunsOut(ls: seq<Level>, p: Path, nots: bool, b: nat, c: nat, j: nat, low: nat, high: nat, neg: Neg)
    requires b + c < |p| && j < |ls| && !IsWild(ls[j]) && c < low && b + low >= |p|
    ensures !Cond(ls, p, nots, b, c, j, low, high, neg)
  {
  }

  lemma CondTries(ls: seq<Level>, p: Path, nots: bool, b: nat, c: nat, j: nat, low: nat, high: nat, neg: Neg, at: nat)
    requires b + c < |p| && j < |ls| && !Loose(ls[j]) && at == (if c < low then low else c) && b + at < |p|
    ensures Cond(ls, p, nots, b, c, j, low, high, neg) <==> Try(ls, p, nots, b, at, j, high, Pass(neg, at - c))
  {
  }

  lemma {:induction false} LevelPlaces(ls: seq<Level>, p: Path, nots: bool, b: nat, i: nat, a: nat, j: nat,
                                       c: nat, low: nat, high: nat, neg: Neg, at: nat, neg': Neg, ok: bool)
    requires a <= j < |ls| && !Loose(ls[j]) && b <= i <= |p| && (nots || NotFree(ls)) && InOrder(ls)
    requires StandsAt(ls, a, j, p, i, b, c, low, high, neg) && at == i - b + Start(ls, a, j) && c <= at < |p| - b
    requires neg' == Pass(neg, at - c) && ok == Places(ls, j, p, b + at, b + high, neg')
    ensures Cond(ls, p, nots, b, c, j, low, high, neg) <==> ok
    decreases |p| - i, |ls| - j, 1
  {
    LowIsStart(ls, a, j);
    CondTries(ls, p, nots, b, c, j, low, high, neg, at);
    NoNegFree(ls, a, j, i, b);
    TrySuits(ls, p, nots, b, at, j, high, neg');
  }

  lemma {:induction false} LevelSuits(ls: seq<Level>, p: Path, nots: bool, b: nat, i: nat, a: nat, j: nat,
                                      c: nat, low: nat, high: nat, neg: Neg, at: nat)
    requires Walking(ls, a, j) && j == RunEnd(ls, a) < |ls| && b <= i <= |p| && (nots || NotFree(ls)) && InOrder(ls)
    requires StandsAt(ls, a, j, p, i, b, c, low, high, neg) && at == i - b + Start(ls, a, j) && c <= at < |p| - b
    ensures Cond(ls, p, nots, b, c, j, low, high, neg) <==> Suits(ls, a, p, i)
    decreases |p| - i, |ls| - j, 2
  {
    var neg' := Pass(neg, at - c);
    var ok := Places(ls, j, p, b + at, b + high, neg');
    LevelPlaces(ls, p, nots, b, i, a, j, c, low, high, neg, at, neg', ok);
    PlacesIs(ls, a, j, p, i, b, b + at, b + high, neg', ok);
  }

  /** From level j of a run that starts at level a and label i, checkCond decides whether the labels from i on
      suit the levels from a on. */
  lemma {:induction false} WalkSuits(ls: seq<Level>, p: Path, nots: bool, b: nat, i: nat, a: nat, j: nat,
                                     c: nat, low: nat, high: nat, neg: Neg)
    requires Walking(ls, a, j) && j <= RunEnd(ls, a) && b <= i <= |p| && Walked(ls, a, j, |p| - i)
    requires (nots || NotFree(ls)) && InOrder(ls) && StandsAt(ls, a, j, p, i, b, c, low, high, neg)
    ensures Cond(ls, p, nots, b, c, j, low, high, neg) <==> Suits(ls, a, p, i)
    decreases |p| - i, |ls| - j, 3
  {
    TakenGrows(ls, a, j, j);
    var at := i - b + Start(ls, a, j);
    if b + c == |p| || j == |ls| {
      StopSuits(ls, p, nots, b, i, a, j, c, low, high, neg);
    } else if IsWild(ls[j]) {
      var low', high', neg' := WildStep(ls, p, nots, b, i, a, j, c, low, high, neg);
      WalkSuits(ls, p, nots, b, i, a, j + 1, c, low', high', neg');
    } else if b + at >= |p| {
      LowIsStart(ls, a, j);
      CondRunsOut(ls, p, nots, b, c, j, low, high, neg);
      NoLabelLeft(ls, a, j, p, i);
    } else if ls[j].not {
      var c', high', neg' := NotStep(ls, p, b, i, a, j, c, low, high, neg);
      WalkSuits(ls, p, nots, b, i, a, j + 1, c', low, high', neg');
    } else {
      LevelSuits(ls, p, nots, b, i, a, j, c, low, high, neg, at);
    }
  }

  lemma NoNegFree(ls: seq<Level>, a: nat, j: nat, i: nat, b: nat)
    requires a <= j <= |ls| && b <= i
    ensures NotFree(ls) ==> NegOf(ls, a, j, i, b).NoNeg?
  {
    FirstNotIs(ls, a, j);
  }

  /** For every query ltq_regex decides whether the path suits its levels. */
  lemma MatchIsSuits(q: LQuery, p: Path)
    requires InOrder(q.levels) && (q.hasnot || NotFree(q.levels))
    ensures Matches(q, p) <==> Suits(q.levels, 0, p, 0)
  {
    WalkSuits(q.levels, p, q.hasnot, 0, 0, 0, 0, 0, 0, 0, NoNeg);
  }
}
