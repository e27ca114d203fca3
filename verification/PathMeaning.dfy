/** What checkCond decides: for queries without negation, exactly whether the path fits, except that of
    wildcards next to each other only the last one counts; and for all queries, only paths that have the
    fixed start and the variants of the query, which is what the index relies on. */
module PathMeaning {
  import opened Basics
  import opened LTree
  import opened PathQuery
  import opened PathMatch

  // ----- What every matching path has -----

  // Some label of p matches level k.
  ghost predicate HasLabel(ls: seq<Level>, p: Path, k: nat)
    requires k < |ls|
  {
    exists i :: 0 <= i < |p| && LevelMatches(ls[k], p[i])
  }

  // Level k must find a label.
  predicate Needs(ls: seq<Level>, k: nat)
    requires k < |ls|
  {
    !IsWild(ls[k]) && !ls[k].not
  }

  lemma {:induction false} LeftoverNeedsNone(ls: seq<Level>, c: nat, j: nat, low: nat, high: nat, k: nat)
    requires j <= k < |ls| && Needs(ls, k)
    ensures Leftover(ls, c, j, low, high).None?
    decreases |ls| - j
  {
    if IsWild(ls[j]) {
      LeftoverNeedsNone(ls, c, j + 1, c + ls[j].low, c + ls[j].high, k);
    } else if ls[j].not {
      LeftoverNeedsNone(ls, c, j + 1, low, high, k);
    }
  }

  lemma {:induction false} CondFindsLabels(ls: seq<Level>, p: Path, nots: bool, b: nat, c: nat, j: nat,
                                           low: nat, high: nat, neg: Neg, k: nat)
    requires b + c <= |p| && j <= k < |ls| && Needs(ls, k) && Cond(ls, p, nots, b, c, j, low, high, neg)
    ensures HasLabel(ls, p, k)
    decreases |p| - b, |ls| - j, 1, 0
  {
    var tn := |p| - b;
    if c == tn {
      LeftoverNeedsNone(ls, c, j, low, high, k);
    } else if IsWild(ls[j]) {
      CondFindsLabels(ls, p, nots, b, c, j + 1, c + ls[j].low, c + ls[j].high, AddWild(ls, j, neg, tn), k);
    } else {
      var at := if c < low then low else c;
      var neg' := Pass(neg, at - c);
      if nots && ls[j].not {
        CondFindsLabels(ls, p, nots, b, at + 1, j + 1, low, if high < at + 1 then high + 1 else high,
                        AddNot(ls, j, neg', b + c, at, tn), k);
      } else {
        TryFindsLabels(ls, p, nots, b, at, j, high, neg', k);
      }
    }
  }

  lemma {:induction false} TryFindsLabels(ls: seq<Level>, p: Path, nots: bool, b: nat, c: nat, j: nat,
                                          high: nat, neg: Neg, k: nat)
    requires b + c <= |p| && j <= k < |ls| && Needs(ls, k) && Try(ls, p, nots, b, c, j, high, neg)
    ensures HasLabel(ls, p, k)
    decreases |p| - b, |ls| - j, 0, |p| - b - c
  {
    if !LevelMatches(ls[j], p[b + c]) {
      TryFindsLabels(ls, p, nots, b, c + 1, j, high, Pass(neg, 1), k);
    } else if k > j && Placed(ls, p, nots, b, c + 1, j, neg) {
      CondFindsLabels(ls, p, nots, b, c + 1, j + 1, c + 1, c + 1, NoNeg, k);
    } else if k > j {
      CondFindsLabels(ls, p, nots, b + c + 1, 0, j, 0, high - (c + 1), neg, k);
    }
  }

  lemma LabelIsVariant(ls: seq<Level>, p: Path, k: nat)
    requires k < |ls| && CanLookSign(ls[k]) && HasLabel(ls, p, k)
    ensures HasVariant(ls[k], p)
  {
    var i :| 0 <= i < |p| && LevelMatches(ls[k], p[i]);
    var v :| 0 <= v < |ls[k].variants| && VariantMatches(ls[k].variants[v], p[i]);
    assert p[i][..|p[i]|] == p[i];
    assert LowerAll(ls[k].variants[v].name) == LowerAll(p[i]);
  }

  // The good levels from j on match the labels at their own places.
  lemma {:induction false} GoodLevelsMatch(ls: seq<Level>, p: Path, nots: bool, j: nat, i: nat)
    requires j <= i < FirstGood(ls) && j <= |p| && Cond(ls, p, nots, 0, j, j, j, j, NoNeg)
    ensures i < |p| && LevelMatches(ls[i], p[i])
    decreases i - j
  {
    FirstGoodAt(ls, j);
    if j > 0 {
      FirstGoodAt(ls, j - 1);
    }
    if j == |p| {
      LeftoverNeedsNone(ls, j, j, j, j, j);
    } else {
      assert Try(ls, p, nots, 0, j, j, j, NoNeg);
      assert !Try(ls, p, nots, 0, j + 1, j, j, Pass(NoNeg, 1));
      assert Placed(ls, p, nots, 0, j + 1, j, NoNeg);
      if i > j {
        GoodLevelsMatch(ls, p, nots, j + 1, i);
      }
    }
  }

  lemma GoodLabel(l: Level, name: string)
    requires Good(l) && LevelMatches(l, name)
    ensures name == l.variants[0].name
  {
    assert VariantMatches(l.variants[0], name);
    assert !l.variants[0].incase && name[..|name|] == name;
  }

  /** Whatever negations a query has, a path it matches has its fixed start and, for every level the
      signature is asked about, one of its variants. */
  lemma MatchHasParts(q: LQuery, p: Path)
    requires ValidQuery(q) && Matches(q, p)
    ensures HasPrefix(q, p) && HasVariants(q, p)
  {
    var ls := q.levels;
    if q.firstgood > 0 {
      GoodLevelsMatch(ls, p, q.hasnot, 0, q.firstgood - 1);
    }
    forall i | 0 <= i < q.firstgood ensures p[i] == FixedName(q, i) {
      GoodLevelsMatch(ls, p, q.hasnot, 0, i);
      FirstGoodAt(ls, i);
      GoodLabel(ls[i], p[i]);
    }
    forall k | 0 <= k < |ls| && ls[k].variants != [] && CanLookSign(ls[k]) ensures HasVariant(ls[k], p) {
      CondFindsLabels(ls, p, q.hasnot, 0, 0, 0, 0, 0, NoNeg, k);
      LabelIsVariant(ls, p, k);
    }
  }

  // ----- Queries without negation -----

  predicate NotFree(ls: seq<Level>) {
    forall i :: 0 <= i < |ls| ==> !ls[i].not
  }

  // The path s fits the levels from j on when the first of them takes its label at a place from lo to hi,
  // or when nothing follows and between lo and hi labels are left.  A wildcard sets these anew.  A level that
  // is marked as negated needs no label when none are left.
  ghost predicate FitsWithin(ls: seq<Level>, j: nat, s: Path, lo: nat, hi: nat)
    requires j <= |ls|
    decreases |ls| - j
  {
    if j == |ls| then lo <= |s| <= hi
    else if s == [] && ls[j].not && !IsWild(ls[j]) then FitsWithin(ls, j + 1, s, lo, hi)
    else if IsWild(ls[j]) then FitsWithin(ls, j + 1, s, ls[j].low, ls[j].high)
    else exists n :: lo <= n <= hi && FitsAt(ls, j, s, n)
  }

  // Level j takes label n, and the rest fits what follows.
  ghost predicate FitsAt(ls: seq<Level>, j: nat, s: Path, n: nat)
    requires j < |ls|
    decreases |ls| - j, 0
  {
    n < |s| && LevelMatches(ls[j], s[n]) && FitsWithin(ls, j + 1, s[n + 1..], 0, 0)
  }

  // The same place counted from another label.
  lemma Shift(ls: seq<Level>, j: nat, p: Path, b: nat, c: nat, n: nat)
    requires j < |ls| && b + c <= |p|
    ensures FitsAt(ls, j, p[b + c..], n) <==> FitsAt(ls, j, p[b..], c + n)
  {
    if b + c + n < |p| {
      assert p[b + c..][n] == p[b..][c + n];
      assert p[b + c..][n + 1..] == p[b..][c + n + 1..];
    }
  }

  // Some place from lo to hi.
  ghost predicate SomePlace(ls: seq<Level>, j: nat, s: Path, lo: nat, hi: int)
    requires j < |ls|
  {
    exists n :: lo <= n <= hi && FitsAt(ls, j, s, n)
  }

  lemma ShiftSome(ls: seq<Level>, j: nat, p: Path, b: nat, c: nat, lo: nat, hi: int)
    requires j < |ls| && b + c <= |p|
    ensures SomePlace(ls, j, p[b + c..], lo, hi) <==> SomePlace(ls, j, p[b..], c + lo, c + hi)
  {
    if SomePlace(ls, j, p[b + c..], lo, hi) {
      var n :| lo <= n <= hi && FitsAt(ls, j, p[b + c..], n);
      Shift(ls, j, p, b, c, n);
    }
    if SomePlace(ls, j, p[b..], c + lo, c + hi) {
      var n :| c + lo <= n <= c + hi && FitsAt(ls, j, p[b..], n);
      Shift(ls, j, p, b, c, n - c);
    }
  }

  lemma {:induction false} LeftoverIsFits(ls: seq<Level>, c: nat, j: nat, low: nat, high: nat)
    requires j <= |ls| && c <= low && c <= high
    ensures var r := Leftover(ls, c, j, low, high);
            FitsWithin(ls, j, [], low - c, high - c) <==> r.Some? && r.value.0 <= c <= r.value.1
    decreases |ls| - j
  {
    if j < |ls| && IsWild(ls[j]) {
      LeftoverIsFits(ls, c, j + 1, c + ls[j].low, c + ls[j].high);
    } else if j < |ls| && ls[j].not {
      LeftoverIsFits(ls, c, j + 1, low, high);
    }
  }

  // What holds whenever checkCond comes to level j.
  predicate Ready(ls: seq<Level>, p: Path, b: nat, c: nat, j: nat, low: nat, high: nat) {
    && b + c <= |p| && j <= |ls| && c <= low && c <= high
    && (b + c == |p| && j < |ls| ==> low == high == c)
    && (j < |ls| && !IsWild(ls[j]) && !AfterWild(ls, j) ==> low == high == c)
  }

  lemma {:induction false} CondIsFits(ls: seq<Level>, p: Path, nots: bool, b: nat, c: nat, j: nat, low: nat, high: nat)
    requires (nots ==> NotFree(ls)) && Ready(ls, p, b, c, j, low, high)
    ensures Cond(ls, p, nots, b, c, j, low, high, NoNeg) <==> FitsWithin(ls, j, p[b + c..], low - c, high - c)
    decreases |p| - b, |ls| - j, 1, 0
  {
    var tn := |p| - b;
    if c == tn {
      assert p[b + c..] == [];
      LeftoverIsFits(ls, c, j, low, high);
    } else if j < |ls| && IsWild(ls[j]) {
      CondIsFits(ls, p, nots, b, c, j + 1, c + ls[j].low, c + ls[j].high);
    } else if j < |ls| {
      var at := if c < low then low else c;
      assert FitsWithin(ls, j, p[b + c..], low - c, high - c) <==> SomePlace(ls, j, p[b + c..], low - c, high - c);
      ShiftSome(ls, j, p, b, c, low - c, high - c);
      if at < tn {
        TryIsFits(ls, p, nots, b, at, j, high);
      }
    }
  }

  lemma {:induction false} TryIsFits(ls: seq<Level>, p: Path, nots: bool, b: nat, c: nat, j: nat, high: nat)
    requires (nots ==> NotFree(ls)) && b + c <= |p| && j < |ls| && !IsWild(ls[j]) && (AfterWild(ls, j) || c >= high)
    ensures Try(ls, p, nots, b, c, j, high, NoNeg) <==> SomePlace(ls, j, p[b..], c, high)
    decreases |p| - b, |ls| - j, 0, |p| - b - c
  {
    var tn := |p| - b;
    if c <= high && c < tn {
      assert p[b..][c] == p[b + c];
      if !LevelMatches(ls[j], p[b + c]) {
        TryIsFits(ls, p, nots, b, c + 1, j, high);
        assert !FitsAt(ls, j, p[b..], c);
        FirstOrLater(ls, j, p[b..], c, high);
      } else {
        LaterIsFits(ls, p, nots, b, c, j, high);
        CondIsFits(ls, p, nots, b, c + 1, j + 1, c + 1, c + 1);
        assert p[b + (c + 1)..] == p[b..][c + 1..];
        assert Placed(ls, p, nots, b, c + 1, j, NoNeg) <==> FitsAt(ls, j, p[b..], c);
        FirstOrLater(ls, j, p[b..], c, high);
      }
    }
  }

  lemma FirstOrLater(ls: seq<Level>, j: nat, s: Path, c: nat, high: nat)
    requires j < |ls| && c <= high
    ensures SomePlace(ls, j, s, c, high) <==> FitsAt(ls, j, s, c) || SomePlace(ls, j, s, c + 1, high)
  {
  }

  // The call that tries later labels finds the later places.
  lemma {:induction false} LaterIsFits(ls: seq<Level>, p: Path, nots: bool, b: nat, c: nat, j: nat, high: nat)
    requires (nots ==> NotFree(ls)) && b + c < |p| && j < |ls| && !IsWild(ls[j])
    requires (AfterWild(ls, j) || c >= high) && c <= high
    ensures (AfterWild(ls, j) && c + 1 < |p| - b && c + 1 <= high && Cond(ls, p, nots, b + c + 1, 0, j, 0, high - (c + 1), NoNeg))
            <==> SomePlace(ls, j, p[b..], c + 1, high)
    decreases |p| - b, |ls| - j, 0, |p| - b - c - 1
  {
    if c + 1 < |p| - b && c + 1 <= high {
      var b' := b + (c + 1);
      CondIsFits(ls, p, nots, b', 0, j, 0, high - (c + 1));
      assert p[b' + 0..] == p[b'..];
      assert FitsWithin(ls, j, p[b'..], 0, high - (c + 1)) <==> SomePlace(ls, j, p[b'..], 0, high - (c + 1));
      ShiftSome(ls, j, p, b, c + 1, 0, high - (c + 1));
    }
  }

  // ----- Wildcards next to each other -----

  // Of wildcards next to each other only the last is left.
  function Collapsed(ls: seq<Level>): (r: seq<Level>) {
    if ls == [] then []
    else if |ls| > 1 && IsWild(ls[0]) && IsWild(ls[1]) then Collapsed(ls[1..])
    else [ls[0]] + Collapsed(ls[1..])
  }

  lemma {:induction false} FitsWithinIsFits(ls: seq<Level>, j: nat, s: Path, lo: nat, hi: nat)
    requires NotFree(ls) && j <= |ls|
    ensures FitsWithin(ls, j, s, lo, hi) <==>
            if j < |ls| && IsWild(ls[j]) then Fits(Collapsed(ls[j..]), s)
            else exists n :: lo <= n <= hi && n <= |s| && Fits(Collapsed(ls[j..]), s[n..])
    decreases |ls| - j
  {
    var rest := ls[j..];
    if j == |ls| {
      assert lo <= |s| <= hi ==> s[|s|..] == [];
    } else {
      assert rest[0] == ls[j] && rest[1..] == ls[j + 1..];
      if IsWild(ls[j]) {
        FitsWithinIsFits(ls, j + 1, s, ls[j].low, ls[j].high);
        assert |rest| > 1 ==> rest[1] == ls[j + 1];
        if !(|rest| > 1 && IsWild(rest[1])) {
          WildFits(rest, s);
        }
      } else {
        forall n | lo <= n <= hi && n <= |s| ensures FitsAt(ls, j, s, n) <==> Fits(Collapsed(rest), s[n..]) {
          PlaceIsFits(ls, j, s, n);
        }
      }
    }
  }

  lemma WildFits(rest: seq<Level>, s: Path)
    requires rest != [] && IsWild(rest[0]) && !(|rest| > 1 && IsWild(rest[1]))
    ensures Fits(Collapsed(rest), s) <==>
            exists n :: rest[0].low <= n <= rest[0].high && n <= |s| && Fits(Collapsed(rest[1..]), s[n..])
  {
    assert Collapsed(rest)[1..] == Collapsed(rest[1..]);
  }

  lemma {:induction false} PlaceIsFits(ls: seq<Level>, j: nat, s: Path, n: nat)
    requires NotFree(ls) && j < |ls| && !IsWild(ls[j]) && n <= |s|
    ensures FitsAt(ls, j, s, n) <==> Fits(Collapsed(ls[j..]), s[n..])
    decreases |ls| - j, 0
  {
    var rest := ls[j..];
    assert rest[0] == ls[j] && rest[1..] == ls[j + 1..];
    assert Collapsed(rest)[1..] == Collapsed(rest[1..]);
    if n < |s| {
      assert s[n..][0] == s[n] && s[n..][1..] == s[n + 1..];
      FitsWithinIsFits(ls, j + 1, s[n + 1..], 0, 0);
      assert s[n + 1..][0..] == s[n + 1..];
    }
  }

  /** For a query without negation ltq_regex decides whether the path fits the query, with all but the last
      of neighbouring wildcards left out. */
  lemma MatchIsFits(q: LQuery, p: Path)
    requires NotFree(q.levels)
    ensures Matches(q, p) <==> Fits(Collapsed(q.levels), p)
  {
    CondIsFits(q.levels, p, q.hasnot, 0, 0, 0, 0, 0);
    FitsWithinIsFits(q.levels, 0, p, 0, 0);
    assert p[0..] == p && q.levels[0..] == q.levels;
  }

  /** *{1}.*{1} matches paths of one level, which do not fit it, and none of two levels, which do. */
  lemma NeighboursAreNotExact(a: string, b: string)
    ensures var one := Level([], false, 1, 1);
            var q := LQuery([one, one], 0, false);
            && Matches(q, [a]) && !Fits(q.levels, [a])
            && !Matches(q, [a, b]) && Fits(q.levels, [a, b])
  {
    var one := Level([], false, 1, 1);
    var q := LQuery([one, one], 0, false);
    MatchIsFits(q, [a]);
    MatchIsFits(q, [a, b]);
    OneWildcard([a]);
    OneWildcard([a, b]);
    OneWildcard([b]);
    OneWildcard([]);
    assert [one, one][1..] == [one];
    assert Collapsed([one, one]) == Collapsed([one]) == [one] + Collapsed([]);
    assert [a, b][1..] == [b] && [a][1..] == [];
    assert Fits([one, one][1..], [a, b][1..]);
  }

  lemma OneWildcard(p: Path)
    ensures Fits([Level([], false, 1, 1)], p) <==> |p| == 1
  {
    var one := [Level([], false, 1, 1)];
    assert one[1..] == [];
    if |p| == 1 {
      assert p[1..] == [];
      assert Fits(one[1..], p[1..]);
    }
  }
}
