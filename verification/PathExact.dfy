/** Exactly when a query without negation matches the paths that fit it.  Of wildcards next to each other only
    the last counts, so the bounds of the others must not matter for any path that can be stored. */
module PathExact {
  import opened Basics
  import opened CString
  import opened LTree
  import opened PathQuery
  import opened PathMatch
  import opened PathMeaning

  // A wildcard right before another one: its bounds are not looked at.
  predicate Idle(ls: seq<Level>, i: nat) {
    i + 1 < |ls| && IsWild(ls[i]) && IsWild(ls[i + 1])
  }

  // The bounds of every wildcard are in order, as lquery_in demands.
  predicate Bounded(ls: seq<Level>) {
    forall i :: 0 <= i < |ls| && IsWild(ls[i]) ==> ls[i].low <= ls[i].high
  }

  // The fewest labels a level stands for.
  function Fewest(l: Level): nat {
    if IsWild(l) then l.low else 1
  }

  // The fewest labels of a path that is matched, and of one that fits.
  function Least(ls: seq<Level>): nat {
    if ls == [] then 0 else (if Idle(ls, 0) then 0 else Fewest(ls[0])) + Least(ls[1..])
  }

  function LeastFit(ls: seq<Level>): nat {
    if ls == [] then 0 else Fewest(ls[0]) + LeastFit(ls[1..])
  }

  // The last wildcard of a run, and what follows the run.
  function RunEnd(ls: seq<Level>): Level
    requires ls != []
  {
    if Idle(ls, 0) then RunEnd(ls[1..]) else ls[0]
  }

  function AfterRun(ls: seq<Level>): seq<Level>
    requires ls != []
  {
    if Idle(ls, 0) then AfterRun(ls[1..]) else ls[1..]
  }

  // Idle wildcards need no label.
  predicate IdleLowsZero(ls: seq<Level>) {
    forall i :: 0 <= i < |ls| && Idle(ls, i) ==> ls[i].low == 0
  }

  // Idle wildcard i takes no label, or its run may take slack labels more than it must.
  predicate HarmlessAt(ls: seq<Level>, i: nat, slack: nat)
    requires i < |ls|
  {
    ls[i].low == 0 && (ls[i].high == 0 || RunEnd(ls[i..]).high - RunEnd(ls[i..]).low >= slack)
  }

  predicate Harmless(ls: seq<Level>, slack: nat) {
    forall i :: 0 <= i < |ls| && Idle(ls, i) ==> HarmlessAt(ls, i, slack)
  }

  /** The condition on a query: no path of at most max labels is matched at all, or the bounds of idle
      wildcards make no difference to paths of at most max labels. */
  predicate BoundsDoNotMatter(ls: seq<Level>, max: nat) {
    Least(ls) <= max ==> Harmless(ls, max - Least(ls))
  }

  // ----- Suffixes -----

  lemma Suffix(ls: seq<Level>, slack: nat)
    requires ls != []
    ensures Bounded(ls) ==> Bounded(ls[1..])
    ensures IdleLowsZero(ls) ==> IdleLowsZero(ls[1..])
    ensures Harmless(ls, slack) ==> Harmless(ls[1..], slack)
  {
    var rest := ls[1..];
    forall i | 0 <= i < |rest| ensures Idle(rest, i) == Idle(ls, i + 1) && rest[i..] == ls[i + 1..] {
    }
    if Harmless(ls, slack) {
      forall i | 0 <= i < |rest| && Idle(rest, i) ensures HarmlessAt(rest, i, slack) {
        assert HarmlessAt(ls, i + 1, slack);
      }
    }
  }

  lemma CollapsedStep(ls: seq<Level>)
    requires ls != []
    ensures if Idle(ls, 0) then Collapsed(ls) == Collapsed(ls[1..])
            else Collapsed(ls) == [ls[0]] + Collapsed(ls[1..]) && Collapsed(ls)[1..] == Collapsed(ls[1..])
  {
  }

  // ----- How long fitting paths are -----

  lemma {:induction false} MatchedIsLong(ls: seq<Level>, p: Path)
    requires Fits(Collapsed(ls), p)
    ensures |p| >= Least(ls)
    decreases |ls|
  {
    if ls != [] {
      CollapsedStep(ls);
      if Idle(ls, 0) {
        MatchedIsLong(ls[1..], p);
      } else if IsWild(ls[0]) {
        var n :| ls[0].low <= n <= ls[0].high && n <= |p| && Fits(Collapsed(ls)[1..], p[n..]);
        MatchedIsLong(ls[1..], p[n..]);
      } else {
        MatchedIsLong(ls[1..], p[1..]);
      }
    }
  }

  lemma {:induction false} FittingIsLong(ls: seq<Level>, p: Path)
    requires Fits(ls, p)
    ensures |p| >= LeastFit(ls)
    decreases |ls|
  {
    if ls != [] {
      if IsWild(ls[0]) {
        var n :| ls[0].low <= n <= ls[0].high && n <= |p| && Fits(ls[1..], p[n..]);
        FittingIsLong(ls[1..], p[n..]);
      } else {
        FittingIsLong(ls[1..], p[1..]);
      }
    }
  }

  lemma {:induction false} IdleLowsCount(ls: seq<Level>)
    ensures LeastFit(ls) >= Least(ls)
    ensures !IdleLowsZero(ls) ==> LeastFit(ls) > Least(ls)
  {
    if ls != [] {
      IdleLowsCount(ls[1..]);
      assert forall i :: 0 <= i < |ls| - 1 ==> Idle(ls[1..], i) == Idle(ls, i + 1);
      if !IdleLowsZero(ls) && !(Idle(ls, 0) && ls[0].low > 0) {
        var i :| 0 <= i < |ls| && Idle(ls, i) && ls[i].low != 0;
        assert Idle(ls[1..], i - 1) && ls[1..][i - 1] == ls[i];
      }
    }
  }

  // ----- The condition is enough -----

  // When idle wildcards need no label, a matched path fits.
  lemma {:induction false} MatchedFits(ls: seq<Level>, p: Path)
    requires IdleLowsZero(ls) && Fits(Collapsed(ls), p)
    ensures Fits(ls, p)
    decreases |ls|
  {
    if ls != [] {
      CollapsedStep(ls);
      Suffix(ls, 0);
      if Idle(ls, 0) {
        MatchedFits(ls[1..], p);
        assert p[0..] == p;
      } else if IsWild(ls[0]) {
        var n :| ls[0].low <= n <= ls[0].high && n <= |p| && Fits(Collapsed(ls)[1..], p[n..]);
        MatchedFits(ls[1..], p[n..]);
      } else {
        MatchedFits(ls[1..], p[1..]);
      }
    }
  }

  // The labels an idle wildcard takes can be taken by the last of its run.
  lemma TakenByLast(ls: seq<Level>, p: Path, n: nat, slack: nat)
    requires ls != [] && IsWild(ls[0]) && n <= |p| && Fits(Collapsed(ls), p[n..]) && |p| <= Least(ls) + slack
    requires RunEnd(ls).high - RunEnd(ls).low >= slack
    ensures Fits(Collapsed(ls), p)
    decreases |ls|
  {
    CollapsedStep(ls);
    if Idle(ls, 0) {
      TakenByLast(ls[1..], p, n, slack);
    } else {
      var k :| ls[0].low <= k <= ls[0].high && k <= |p[n..]| && Fits(Collapsed(ls)[1..], p[n..][k..]);
      MatchedIsLong(ls[1..], p[n..][k..]);
      assert p[n..][k..] == p[n + k..];
    }
  }

  lemma {:induction false} FittingIsMatched(ls: seq<Level>, p: Path, slack: nat)
    requires Harmless(ls, slack) && Fits(ls, p) && |p| <= Least(ls) + slack
    ensures Fits(Collapsed(ls), p)
    decreases |ls|
  {
    if ls != [] {
      CollapsedStep(ls);
      Suffix(ls, slack);
      if IsWild(ls[0]) {
        var n :| ls[0].low <= n <= ls[0].high && n <= |p| && Fits(ls[1..], p[n..]);
        FittingIsMatched(ls[1..], p[n..], slack);
        if Idle(ls, 0) {
          assert HarmlessAt(ls, 0, slack) && ls[0..] == ls;
          if ls[0].high == 0 {
            assert p[0..] == p;
          } else {
            TakenByLast(ls[1..], p, n, slack);
          }
        }
      } else {
        FittingIsMatched(ls[1..], p[1..], slack);
      }
    }
  }

  // ----- The condition is needed -----

  // A label that is none of the levels.
  ghost predicate NoLevel(ls: seq<Level>, x: string) {
    forall i :: 0 <= i < |ls| ==> !LevelMatches(ls[i], x)
  }

  function Fill(x: string, n: nat): Path {
    seq(n, _ => x)
  }

  // The labels that one level stands for when it takes as few as it can.
  function Few(l: Level, x: string): Path {
    if IsWild(l) then Fill(x, l.low) else [l.variants[0].name]
  }

  // A path that every level takes as little of as it can.
  function Shortest(ls: seq<Level>, x: string): Path {
    if ls == [] then [] else (if Idle(ls, 0) then [] else Few(ls[0], x)) + Shortest(ls[1..], x)
  }

  // The same, except that the run with the idle wildcard i gets one label more than its last can take.
  function Longer(ls: seq<Level>, i: nat, x: string): Path
    requires i < |ls|
    decreases |ls|
  {
    if i == 0 then Fill(x, RunEnd(ls).high + 1) + Shortest(AfterRun(ls), x)
    else (if Idle(ls, 0) then [] else Few(ls[0], x)) + Longer(ls[1..], i - 1, x)
  }

  lemma LevelTakesItsName(l: Level)
    requires l.variants != []
    ensures LevelMatches(l, l.variants[0].name)
  {
    var v := l.variants[0];
    if v.sublexeme {
      forall i | 0 <= i < |Words(v.name, 0)| ensures WordMatches(v, Words(v.name, 0)[i], Words(v.name, 0)) {
        assert NameMatches(v, Words(v.name, 0)[i], Words(v.name, 0)[i]);
      }
    }
    assert VariantMatches(v, v.name);
  }

  lemma FewFits(l: Level, rest: seq<Level>, x: string, t: Path)
    requires IsWild(l) ==> l.low <= l.high
    requires Fits(rest, t)
    ensures Fits([l] + rest, Few(l, x) + t)
  {
    var p := Few(l, x) + t;
    assert ([l] + rest)[1..] == rest && p[Fewest(l)..] == t;
    if !IsWild(l) {
      LevelTakesItsName(l);
    }
  }

  lemma {:induction false} ShortestIsMatched(ls: seq<Level>, x: string)
    requires Bounded(ls)
    ensures Fits(Collapsed(ls), Shortest(ls, x)) && |Shortest(ls, x)| == Least(ls)
  {
    if ls != [] {
      CollapsedStep(ls);
      Suffix(ls, 0);
      ShortestIsMatched(ls[1..], x);
      var p := Shortest(ls, x);
      if Idle(ls, 0) {
        assert p == Shortest(ls[1..], x);
      } else {
        FewFits(ls[0], Collapsed(ls[1..]), x, Shortest(ls[1..], x));
      }
    }
  }

  // ----- The longer path fits -----

  // A run fits when its last wildcard takes all it can and the others take nothing.
  lemma {:induction false} RunFits(ls: seq<Level>, x: string)
    requires ls != [] && IsWild(ls[0]) && Bounded(ls) && IdleLowsZero(ls)
    ensures Fits(ls, Fill(x, RunEnd(ls).high) + Shortest(AfterRun(ls), x))
  {
    var p := Fill(x, RunEnd(ls).high) + Shortest(AfterRun(ls), x);
    Suffix(ls, 0);
    if Idle(ls, 0) {
      RunFits(ls[1..], x);
      assert p[0..] == p;
    } else {
      ShortestIsMatched(ls[1..], x);
      MatchedFits(ls[1..], Shortest(ls[1..], x));
      assert p[ls[0].high..] == Shortest(ls[1..], x);
    }
  }

  // A wildcard that may take a label takes one.
  lemma TakesOne(w: Level, rest: seq<Level>, x: string, n: nat, t: Path)
    requires IsWild(w) && w.low == 0 < w.high && Fits(rest, Fill(x, n) + t)
    ensures Fits([w] + rest, Fill(x, n + 1) + t)
  {
    var p := Fill(x, n + 1) + t;
    assert p[1..] == Fill(x, n) + t && ([w] + rest)[1..] == rest;
  }

  lemma OverfullRunFits(ls: seq<Level>, x: string)
    requires ls != [] && Idle(ls, 0) && ls[0].high > 0 && Bounded(ls) && IdleLowsZero(ls)
    ensures Fits(ls, Longer(ls, 0, x))
  {
    Suffix(ls, 0);
    var rest := ls[1..];
    RunFits(rest, x);
    TakesOne(ls[0], rest, x, RunEnd(rest).high, Shortest(AfterRun(rest), x));
    assert [ls[0]] + rest == ls;
  }

  lemma {:induction false} LongerFits(ls: seq<Level>, i: nat, x: string)
    requires i < |ls| && Idle(ls, i) && ls[i].high > 0 && Bounded(ls) && IdleLowsZero(ls)
    ensures Fits(ls, Longer(ls, i, x))
    decreases |ls|
  {
    if i == 0 {
      OverfullRunFits(ls, x);
    } else {
      var rest, t := ls[1..], Longer(ls[1..], i - 1, x);
      Suffix(ls, 0);
      LongerFits(rest, i - 1, x);
      assert [ls[0]] + rest == ls;
      if Idle(ls, 0) {
        assert Longer(ls, i, x) == t == t[0..];
      } else {
        FewFits(ls[0], rest, x, t);
      }
    }
  }

  // ----- The longer path is not matched -----

  // How many labels are not x, and how many levels are no wildcards.
  function Others(p: Path, x: string): nat {
    if p == [] then 0 else (if p[0] == x then 0 else 1) + Others(p[1..], x)
  }

  function Named(ls: seq<Level>): nat {
    if ls == [] then 0 else (if IsWild(ls[0]) then 0 else 1) + Named(ls[1..])
  }

  lemma {:induction false} OthersAdd(p: Path, r: Path, x: string)
    ensures Others(p + r, x) == Others(p, x) + Others(r, x)
  {
    if p == [] {
      assert p + r == r;
    } else {
      assert (p + r)[1..] == p[1..] + r;
      OthersAdd(p[1..], r, x);
    }
  }

  lemma {:induction false} FillHasNoOthers(x: string, n: nat)
    ensures Others(Fill(x, n), x) == 0
  {
    if n > 0 {
      assert Fill(x, n)[1..] == Fill(x, n - 1);
      FillHasNoOthers(x, n - 1);
    }
  }

  lemma {:induction false} CollapsedNamed(ls: seq<Level>)
    ensures Named(Collapsed(ls)) == Named(ls)
  {
    if ls != [] {
      CollapsedStep(ls);
      CollapsedNamed(ls[1..]);
    }
  }

  // Every named level takes a label that is not x.
  lemma {:induction false} NamedTakeOthers(ls: seq<Level>, p: Path, x: string)
    requires NoLevel(ls, x) && Fits(ls, p)
    ensures Others(p, x) >= Named(ls)
    decreases |ls|
  {
    if ls != [] {
      assert NoLevel(ls[1..], x);
      if IsWild(ls[0]) {
        var n :| ls[0].low <= n <= ls[0].high && n <= |p| && Fits(ls[1..], p[n..]);
        NamedTakeOthers(ls[1..], p[n..], x);
        assert p == p[..n] + p[n..];
        OthersAdd(p[..n], p[n..], x);
      } else {
        NamedTakeOthers(ls[1..], p[1..], x);
      }
    }
  }

  // What follows a run starts with a label that is not x.
  predicate StartsApart(p: Path, x: string) {
    p == [] || p[0] != x
  }

  lemma FewerOthers(t: Path, n: nat, x: string)
    requires StartsApart(t, x) && 0 < n <= |t|
    ensures Others(t[n..], x) < Others(t, x)
  {
    assert t[1..] == t[1..n] + t[n..];
    OthersAdd(t[1..n], t[n..], x);
  }

  // A wildcard before a named level, or at the end, takes exactly the labels x in front.
  lemma WildTakesFill(w: Level, rest: seq<Level>, x: string, k: nat, t: Path)
    requires IsWild(w) && NoLevel(rest, x) && (rest == [] || !IsWild(rest[0]))
    requires StartsApart(t, x) && Others(t, x) == Named(rest) && Fits([w] + rest, Fill(x, k) + t)
    ensures w.low <= k <= w.high && Fits(rest, t)
  {
    var p := Fill(x, k) + t;
    assert ([w] + rest)[1..] == rest;
    var n :| w.low <= n <= w.high && n <= |p| && Fits(rest, p[n..]);
    NamedTakeOthers(rest, p[n..], x);
    if n > k {
      assert p[n..] == t[n - k..];
      FewerOthers(t, n - k, x);
    }
    assert p[k..] == t;
  }

  lemma {:induction false} ShortestOthers(ls: seq<Level>, x: string)
    requires NoLevel(ls, x)
    ensures Others(Shortest(ls, x), x) == Named(ls)
    ensures ls == [] || !IsWild(ls[0]) ==> StartsApart(Shortest(ls, x), x)
  {
    if ls != [] {
      assert NoLevel(ls[1..], x);
      ShortestOthers(ls[1..], x);
      FewOthers(ls, x, Shortest(ls[1..], x));
    }
  }

  // The part of the first level adds one label that is not x, if the level is named.
  lemma FewOthers(ls: seq<Level>, x: string, t: Path)
    requires ls != [] && NoLevel(ls, x)
    ensures var p := (if Idle(ls, 0) then [] else Few(ls[0], x)) + t;
            && Others(p, x) == (if IsWild(ls[0]) then 0 else 1) + Others(t, x)
            && (!IsWild(ls[0]) ==> StartsApart(p, x))
  {
    if Idle(ls, 0) {
      assert [] + t == t;
    } else {
      OthersAdd(Few(ls[0], x), t, x);
      if IsWild(ls[0]) {
        FillHasNoOthers(x, ls[0].low);
      } else {
        LevelTakesItsName(ls[0]);
        assert Others([ls[0].variants[0].name], x) == 1;
      }
    }
  }

  lemma {:induction false} AfterRunNamed(ls: seq<Level>, x: string)
    requires ls != [] && IsWild(ls[0]) && NoLevel(ls, x)
    ensures Named(AfterRun(ls)) == Named(ls) && NoLevel(AfterRun(ls), x)
    ensures AfterRun(ls) == [] || !IsWild(AfterRun(ls)[0])
    ensures IsWild(RunEnd(ls)) && Collapsed(ls) == [RunEnd(ls)] + Collapsed(AfterRun(ls))
  {
    assert NoLevel(ls[1..], x);
    CollapsedStep(ls);
    if Idle(ls, 0) {
      AfterRunNamed(ls[1..], x);
    }
  }

  lemma {:induction false} LongerOthers(ls: seq<Level>, i: nat, x: string)
    requires i < |ls| && Idle(ls, i) && NoLevel(ls, x)
    ensures Others(Longer(ls, i, x), x) == Named(ls)
    ensures !IsWild(ls[0]) ==> StartsApart(Longer(ls, i, x), x)
    decreases |ls|
  {
    if i == 0 {
      AfterRunNamed(ls, x);
      ShortestOthers(AfterRun(ls), x);
      FillHasNoOthers(x, RunEnd(ls).high + 1);
      OthersAdd(Fill(x, RunEnd(ls).high + 1), Shortest(AfterRun(ls), x), x);
    } else {
      assert NoLevel(ls[1..], x) && Idle(ls[1..], i - 1);
      LongerOthers(ls[1..], i - 1, x);
      FewOthers(ls, x, Longer(ls[1..], i - 1, x));
    }
  }

  lemma {:induction false} CollapsedApart(ls: seq<Level>, x: string)
    requires NoLevel(ls, x)
    ensures NoLevel(Collapsed(ls), x)
    ensures ls != [] && !IsWild(ls[0]) ==> Collapsed(ls) != [] && !IsWild(Collapsed(ls)[0])
  {
    if ls != [] {
      assert NoLevel(ls[1..], x);
      CollapsedStep(ls);
      CollapsedApart(ls[1..], x);
    }
  }

  lemma {:induction false} LongerIsNotMatched(ls: seq<Level>, i: nat, x: string)
    requires i < |ls| && Idle(ls, i) && NoLevel(ls, x)
    ensures !Fits(Collapsed(ls), Longer(ls, i, x))
    decreases |ls|
  {
    var p := Longer(ls, i, x);
    CollapsedStep(ls);
    if i == 0 {
      OverfullRun(ls, x);
    } else {
      var rest, t := ls[1..], Longer(ls[1..], i - 1, x);
      assert NoLevel(rest, x) && Idle(rest, i - 1);
      LongerIsNotMatched(rest, i - 1, x);
      if Idle(ls, 0) {
        assert p == t;
      } else if IsWild(ls[0]) {
        if Fits(Collapsed(ls), p) {
          LongerOthers(rest, i - 1, x);
          CollapsedNamed(rest);
          CollapsedApart(rest, x);
          WildTakesFill(ls[0], Collapsed(rest), x, ls[0].low, t);
        }
      } else {
        assert p[1..] == t;
      }
    }
  }

  lemma OverfullRun(ls: seq<Level>, x: string)
    requires ls != [] && IsWild(ls[0]) && NoLevel(ls, x)
    ensures !Fits(Collapsed(ls), Longer(ls, 0, x))
  {
    var w, rest := RunEnd(ls), AfterRun(ls);
    AfterRunNamed(ls, x);
    ShortestOthers(rest, x);
    CollapsedNamed(rest);
    CollapsedApart(rest, x);
    if Fits(Collapsed(ls), Longer(ls, 0, x)) {
      WildTakesFill(w, Collapsed(rest), x, w.high + 1, Shortest(rest, x));
    }
  }

  // ----- The witnesses can be stored -----

  predicate CleanVariants(ls: seq<Level>) {
    forall i, v :: 0 <= i < |ls| && 0 <= v < |ls[i].variants| ==> CleanName(ls[i].variants[v].name)
  }

  predicate CleanNames(p: Path) {
    forall i :: 0 <= i < |p| ==> CleanName(p[i])
  }

  lemma {:induction false} ShortestIsClean(ls: seq<Level>, x: string)
    requires CleanVariants(ls) && CleanName(x)
    ensures CleanNames(Shortest(ls, x))
  {
    if ls != [] {
      assert forall i :: 0 <= i < |ls| - 1 ==> ls[1..][i] == ls[i + 1];
      ShortestIsClean(ls[1..], x);
    }
  }

  lemma {:induction false} LongerIsClean(ls: seq<Level>, i: nat, x: string)
    requires i < |ls| && Idle(ls, i) && CleanVariants(ls) && CleanName(x)
    ensures CleanNames(Longer(ls, i, x))
    ensures |Longer(ls, i, x)| == Least(ls) + RunEnd(ls[i..]).high + 1 - RunEnd(ls[i..]).low
    decreases |ls|
  {
    if i == 0 {
      assert ls[0..] == ls;
      RunLength(ls, x);
    } else {
      assert forall i :: 0 <= i < |ls| - 1 ==> ls[1..][i] == ls[i + 1];
      assert Idle(ls[1..], i - 1) && ls[1..][i - 1..] == ls[i..];
      LongerIsClean(ls[1..], i - 1, x);
    }
  }

  lemma {:induction false} RunLength(ls: seq<Level>, x: string)
    requires ls != [] && IsWild(ls[0]) && CleanVariants(ls) && CleanName(x)
    ensures |Shortest(AfterRun(ls), x)| == Least(ls) - RunEnd(ls).low && CleanNames(Shortest(AfterRun(ls), x))
  {
    assert forall i :: 0 <= i < |ls| - 1 ==> ls[1..][i] == ls[i + 1];
    if Idle(ls, 0) {
      RunLength(ls[1..], x);
    } else {
      ShortestIsClean(ls[1..], x);
      ShortestLength(ls[1..], x);
    }
  }

  lemma {:induction false} ShortestLength(ls: seq<Level>, x: string)
    ensures |Shortest(ls, x)| == Least(ls)
  {
    if ls != [] {
      ShortestLength(ls[1..], x);
    }
  }

  // ----- The result -----

  const MAX_LEVELS := 0xffff

  lemma ShortestDiffers(ls: seq<Level>, x: string)
    requires Bounded(ls) && CleanVariants(ls) && CleanName(x) && !IdleLowsZero(ls) && Least(ls) <= MAX_LEVELS
    ensures var p := Shortest(ls, x); CleanPath(p) && Fits(Collapsed(ls), p) && !Fits(ls, p)
  {
    var p := Shortest(ls, x);
    ShortestIsMatched(ls, x);
    ShortestIsClean(ls, x);
    IdleLowsCount(ls);
    if Fits(ls, p) {
      FittingIsLong(ls, p);
    }
  }

  lemma LongerDiffers(ls: seq<Level>, i: nat, x: string)
    requires Bounded(ls) && CleanVariants(ls) && CleanName(x) && NoLevel(ls, x) && IdleLowsZero(ls)
    requires i < |ls| && Idle(ls, i) && Least(ls) <= MAX_LEVELS && !HarmlessAt(ls, i, MAX_LEVELS - Least(ls))
    ensures var p := Longer(ls, i, x); CleanPath(p) && !Fits(Collapsed(ls), p) && Fits(ls, p)
  {
    LongerFits(ls, i, x);
    LongerIsNotMatched(ls, i, x);
    LongerIsClean(ls, i, x);
  }

  lemma SomePathDiffers(q: LQuery, x: string) returns (p: Path)
    requires NotFree(q.levels) && Bounded(q.levels) && NoLevel(q.levels, x)
    requires CleanVariants(q.levels) && CleanName(x) && !BoundsDoNotMatter(q.levels, MAX_LEVELS)
    ensures CleanPath(p) && Matches(q, p) != Fits(q.levels, p)
  {
    var ls := q.levels;
    if !IdleLowsZero(ls) {
      p := Shortest(ls, x);
      ShortestDiffers(ls, x);
    } else {
      var i :| 0 <= i < |ls| && Idle(ls, i) && !HarmlessAt(ls, i, MAX_LEVELS - Least(ls));
      p := Longer(ls, i, x);
      LongerDiffers(ls, i, x);
    }
    MatchIsFits(q, p);
  }

  /** ltq_regex decides, for every path that can be stored, whether it fits a query without negation if and
      only if the bounds of its idle wildcards do not matter.  Neighbours in *.* do not: the last takes any
      number of labels.  They do in *{1}.*{1} and in *{0,1}.*{0,1}. */
  lemma MatchIsExactIff(q: LQuery, x: string)
    requires NotFree(q.levels) && Bounded(q.levels) && NoLevel(q.levels, x)
    requires CleanVariants(q.levels) && CleanName(x)
    ensures (forall p :: CleanPath(p) ==> (Matches(q, p) <==> Fits(q.levels, p))) <==>
            BoundsDoNotMatter(q.levels, MAX_LEVELS)
  {
    if BoundsDoNotMatter(q.levels, MAX_LEVELS) {
      forall p | CleanPath(p) ensures Matches(q, p) <==> Fits(q.levels, p) {
        BoundsDoNotDecide(q, p, MAX_LEVELS);
      }
    } else {
      var p := SomePathDiffers(q, x);
    }
  }

  lemma BoundsDoNotDecide(q: LQuery, p: Path, max: nat)
    requires NotFree(q.levels) && BoundsDoNotMatter(q.levels, max) && |p| <= max
    ensures Matches(q, p) <==> Fits(q.levels, p)
  {
    var ls := q.levels;
    MatchIsFits(q, p);
    IdleLowsCount(ls);
    if Fits(ls, p) {
      FittingIsLong(ls, p);
      FittingIsMatched(ls, p, max - Least(ls));
    }
    if Fits(Collapsed(ls), p) {
      MatchedIsLong(ls, p);
      HarmlessLows(ls, max - Least(ls));
      MatchedFits(ls, p);
    }
  }

  lemma HarmlessLows(ls: seq<Level>, slack: nat)
    requires Harmless(ls, slack)
    ensures IdleLowsZero(ls)
  {
    forall i | 0 <= i < |ls| && Idle(ls, i) ensures ls[i].low == 0 {
      assert HarmlessAt(ls, i, slack);
    }
  }
}
