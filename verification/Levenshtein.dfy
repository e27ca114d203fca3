/** The edit distance of fuzzystrmatch: a two-row dynamic program, and what it
    minimises.  Strings are C strings, that is, bytes without NUL. */
module Levenshtein {
  import opened Basics

  // Longest argument accepted once both strings are non-empty.
  const MAX_LEVENSHTEIN_STRLEN := 255

  // Costs of inserting, deleting and substituting one character.
  datatype Costs = Costs(ins: int, del: int, sub: int)

  const UNIT := Costs(1, 1, 1)

  datatype Op = Copy | Replace | Insert | Delete

  datatype Result = Ok(distance: int) | TooLong

  // ----- Edit scripts: the reference -----

  function Init<T>(s: seq<T>): (r: seq<T>)
    requires |s| > 0
  {
    s[..|s| - 1]
  }

  function Last<T>(s: seq<T>): (r: T)
    requires |s| > 0
  {
    s[|s| - 1]
  }

  // Does running ops left to right over s produce exactly t?
  predicate Transforms(ops: seq<Op>, s: string, t: string)
    decreases |ops|
  {
    if ops == [] then s == [] && t == []
    else match Last(ops)
      case Copy => s != [] && t != [] && Last(s) == Last(t) && Transforms(Init(ops), Init(s), Init(t))
      case Replace => s != [] && t != [] && Last(s) != Last(t) && Transforms(Init(ops), Init(s), Init(t))
      case Insert => t != [] && Transforms(Init(ops), s, Init(t))
      case Delete => s != [] && Transforms(Init(ops), Init(s), t)
  }

  function Weight(op: Op, w: Costs): (c: int)
  {
    match op
    case Copy => 0
    case Replace => w.sub
    case Insert => w.ins
    case Delete => w.del
  }

  // What a script costs: every operation at its weight.
  function Cost(ops: seq<Op>, w: Costs): (c: int)
  {
    if ops == [] then 0 else Cost(Init(ops), w) + Weight(Last(ops), w)
  }

  // What the program charges for a script turning s into t.  An operation that ends while one of
  // the two prefixes is still empty lies on the border of the notional matrix, which is filled
  // with 0, 1, 2, ... whatever the costs are.
  function Charged(ops: seq<Op>, s: string, t: string, w: Costs): (c: int)
    requires Transforms(ops, s, t)
    decreases |ops|
  {
    if ops == [] then 0
    else
      var step := if s == [] || t == [] then 1 else Weight(Last(ops), w);
      step + match Last(ops)
             case Copy => Charged(Init(ops), Init(s), Init(t), w)
             case Replace => Charged(Init(ops), Init(s), Init(t), w)
             case Insert => Charged(Init(ops), s, Init(t), w)
             case Delete => Charged(Init(ops), Init(s), t, w)
  }

  // d is attained by some script and no script is charged less.
  ghost predicate IsLeastCharge(d: int, s: string, t: string, w: Costs) {
    && (exists ops :: Transforms(ops, s, t) && Charged(ops, s, t, w) == d)
    && (forall ops :: Transforms(ops, s, t) ==> d <= Charged(ops, s, t, w))
  }

  // d is the weighted edit distance: attained by some script, undercut by none.
  ghost predicate IsLeastCost(d: int, s: string, t: string, w: Costs) {
    && (exists ops :: Transforms(ops, s, t) && Cost(ops, w) == d)
    && (forall ops :: Transforms(ops, s, t) ==> d <= Cost(ops, w))
  }

  // ----- The recurrence the rows are filled with -----

  function Min(a: int, b: int): (m: int) {
    if a < b then a else b
  }

  function Dist(s: string, t: string, w: Costs): (d: int)
    decreases |s| + |t|
  {
    if s == [] then |t|
    else if t == [] then |s|
    else Min(Min(Dist(s, Init(t), w) + w.ins, Dist(Init(s), t, w) + w.del),
             Dist(Init(s), Init(t), w) + if Last(s) == Last(t) then 0 else w.sub)
  }

  // A script that attains the recurrence.
  function Best(s: string, t: string, w: Costs): (ops: seq<Op>)
    ensures Transforms(ops, s, t) && Charged(ops, s, t, w) == Dist(s, t, w)
    decreases |s| + |t|
  {
    var d := Dist(s, t, w);
    if s == [] && t == [] then []
    else if s == [] || (t != [] && d == Dist(s, Init(t), w) + w.ins) then
      var ops := Best(s, Init(t), w) + [Insert];
      assert Init(ops) == Best(s, Init(t), w);
      ops
    else if t == [] || d == Dist(Init(s), t, w) + w.del then
      var ops := Best(Init(s), t, w) + [Delete];
      assert Init(ops) == Best(Init(s), t, w);
      ops
    else
      var ops := Best(Init(s), Init(t), w) + [if Last(s) == Last(t) then Copy else Replace];
      assert Init(ops) == Best(Init(s), Init(t), w);
      ops
  }

  lemma {:induction false} NoScriptIsCheaper(ops: seq<Op>, s: string, t: string, w: Costs)
    requires Transforms(ops, s, t)
    ensures Dist(s, t, w) <= Charged(ops, s, t, w)
    decreases |ops|
  {
    if ops != [] {
      match Last(ops)
      case Copy => NoScriptIsCheaper(Init(ops), Init(s), Init(t), w);
      case Replace => NoScriptIsCheaper(Init(ops), Init(s), Init(t), w);
      case Insert => NoScriptIsCheaper(Init(ops), s, Init(t), w);
      case Delete => NoScriptIsCheaper(Init(ops), Init(s), t, w);
    }
  }

  lemma DistIsLeastCharge(s: string, t: string, w: Costs)
    ensures IsLeastCharge(Dist(s, t, w), s, t, w)
  {
    var ops := Best(s, t, w);
    assert Transforms(ops, s, t);
    forall ops | Transforms(ops, s, t) ensures Dist(s, t, w) <= Charged(ops, s, t, w) {
      NoScriptIsCheaper(ops, s, t, w);
    }
  }

  // ----- The program -----

  // The costs are int4 arguments.
  predicate IsCosts(w: Costs) {
    IsInt4(w.ins) && IsInt4(w.del) && IsInt4(w.sub)
  }

  // The same recurrence with the 32-bit sums of the program.
  function Computed(s: string, t: string, w: Costs): (d: int)
    decreases |s| + |t|
  {
    if s == [] then |t|
    else if t == [] then |s|
    else Cell(Computed(s, Init(t), w), Computed(Init(s), t, w), Computed(Init(s), Init(t), w), Last(s) == Last(t), w)
  }

  // A cell from the one above, the one to the left and the one between them.
  function Cell(above: int, left: int, diagonal: int, same: bool, w: Costs): (d: int) {
    Min(Min(Wrap(above + w.ins), Wrap(left + w.del)), Wrap(diagonal + if same then 0 else w.sub))
  }

  // Arguments that are not too long.
  predicate Accepted(s: string, t: string) {
    s == [] || t == [] || (|s| <= MAX_LEVENSHTEIN_STRLEN && |t| <= MAX_LEVENSHTEIN_STRLEN)
  }

  // The row of the notional matrix for target prefix t.
  function Row(s: string, t: string, w: Costs): (row: seq<int>)
    ensures |row| == |s| + 1
  {
    seq(|s| + 1, k requires 0 <= k <= |s| => Computed(s[..k], t, w))
  }

  lemma FirstRow(s: string, w: Costs, a: seq<int>)
    requires |a| == |s| + 1 && forall k :: 0 <= k <= |s| ==> a[k] == k
    ensures a == Row(s, [], w)
  {
  }

  lemma LastOfRow(s: string, t: string, w: Costs)
    ensures Row(s, t, w)[|s|] == Computed(s, t, w)
  {
    assert s[..|s|] == s;
  }

  // Each cell of row, the j-th of the matrix, comes from its neighbours, above being the row before it.
  predicate Follows(row: seq<int>, above: seq<int>, s: string, y: char, j: nat, w: Costs) {
    && |row| == |above| == |s| + 1 && row[0] == j
    && forall i :: 1 <= i <= |s| ==> row[i] == Cell(above[i], row[i - 1], above[i - 1], s[i - 1] == y, w)
  }

  lemma RowFollows(s: string, t: string, j: nat, w: Costs)
    requires 1 <= j <= |t|
    ensures Follows(Row(s, t[..j], w), Row(s, t[..j - 1], w), s, t[j - 1], j, w)
  {
    var row, above := Row(s, t[..j], w), Row(s, t[..j - 1], w);
    forall i | 1 <= i <= |s| ensures row[i] == Cell(above[i], row[i - 1], above[i - 1], s[i - 1] == t[j - 1], w) {
      CellFromNeighbours(s, t, i, j, w);
    }
  }

  /** levenshtein_internal: longer strings are refused; otherwise the two rows give the recurrence with
      32-bit sums, which is the least charge over all edit scripts unless a cost is in the millions. */
  method LevenshteinInternal(s: string, t: string, w: Costs) returns (r: Result)
    requires IsCosts(w)
    ensures r.TooLong? <==> !Accepted(s, t)
    ensures r.Ok? ==> r.distance == Computed(s, t, w)
    ensures r.Ok? && Moderate(w) ==> IsLeastCharge(r.distance, s, t, w)
  {
    if s == [] {
      r := Ok(|t|);
    } else if t == [] {
      r := Ok(|s|);
    } else if |s| > MAX_LEVENSHTEIN_STRLEN || |t| > MAX_LEVENSHTEIN_STRLEN {
      r := TooLong;
    } else {
      var d := LastCell(s, t, w);
      r := Ok(d);
    }
    DistIsLeastCharge(s, t, w);
    if r.Ok? && Moderate(w) {
      ModerateSumsFit(s, t, w);
    }
  }

  // The two rows, swapped after each character of t; the answer is the last cell of the last row.
  method LastCell(s: string, t: string, w: Costs) returns (d: int)
    requires s != [] && t != []
    ensures d == Computed(s, t, w)
  {
    var m, n := |s| + 1, |t| + 1;
    var prev, curr := new int[m], new int[m];
    var i := 0;
    while i < m
      invariant 0 <= i <= m
      invariant forall k :: 0 <= k < i ==> prev[k] == k
    {
      prev[i] := i;
      i := i + 1;
    }
    var j := 1;
    assert t[..0] == [];
    FirstRow(s, w, prev[..]);
    while j < n
      invariant 1 <= j <= n
      invariant prev != curr && prev.Length == curr.Length == m && fresh(prev) && fresh(curr)
      invariant prev[..] == Row(s, t[..j - 1], w)
    {
      RowFollows(s, t, j, w);
      NextRow(prev, curr, s, t[j - 1], j, w, Row(s, t[..j], w));
      prev, curr := curr, prev;
      j := j + 1;
    }
    assert t[..n - 1] == t;
    LastOfRow(s, t, w);
    assert prev[m - 1] == prev[..][m - 1];
    return prev[m - 1];
  }

  method NextRow(prev: array<int>, curr: array<int>, s: string, y: char, j: nat, w: Costs, ghost row: seq<int>)
    requires prev != curr && prev.Length == curr.Length == |s| + 1 && Follows(row, prev[..], s, y, j, w)
    modifies curr
    ensures curr[..] == row
  {
    curr[0] := j;
    var i := 1;
    while i < |s| + 1
      invariant 1 <= i <= |s| + 1
      invariant forall k :: 0 <= k < i ==> curr[k] == row[k]
    {
      var least := Cheapest(prev[i], curr[i - 1], prev[i - 1], s[i - 1] == y, w);
      assert row[i] == Cell(prev[..][i], row[i - 1], prev[..][i - 1], s[i - 1] == y, w);
      curr[i] := least;
      i := i + 1;
    }
  }

  // The three candidates for a cell, and the least of them.
  method Cheapest(above: int, left: int, diagonal: int, same: bool, w: Costs) returns (d: int)
    ensures d == Cell(above, left, diagonal, same, w)
  {
    var ins := Wrap(above + w.ins);
    var del := Wrap(left + w.del);
    var sub := Wrap(diagonal + if same then 0 else w.sub);
    d := Min(ins, del);
    d := Min(d, sub);
  }

  lemma CellFromNeighbours(s: string, t: string, i: nat, j: nat, w: Costs)
    requires 1 <= i <= |s| && 1 <= j <= |t|
    ensures Computed(s[..i], t[..j], w) ==
            Cell(Computed(s[..i], t[..j - 1], w), Computed(s[..i - 1], t[..j], w), Computed(s[..i - 1], t[..j - 1], w),
                 s[i - 1] == t[j - 1], w)
  {
    assert Init(s[..i]) == s[..i - 1] && Init(t[..j]) == t[..j - 1];
  }

  // ----- When no sum wraps -----

  predicate Moderate(w: Costs) {
    -4_000_000 <= w.ins <= 4_000_000 && -4_000_000 <= w.del <= 4_000_000 && -4_000_000 <= w.sub <= 4_000_000
  }

  lemma {:induction false} ModerateSumsFit(s: string, t: string, w: Costs)
    requires Moderate(w) && Accepted(s, t)
    ensures Computed(s, t, w) == Dist(s, t, w)
    ensures -4_000_000 * (|s| + |t|) <= Dist(s, t, w) <= 4_000_000 * (|s| + |t|)
    decreases |s| + |t|
  {
    if s != [] && t != [] {
      ModerateSumsFit(s, Init(t), w);
      ModerateSumsFit(Init(s), t, w);
      ModerateSumsFit(Init(s), Init(t), w);
      ModerateCell(Dist(s, Init(t), w), Dist(Init(s), t, w), Dist(Init(s), Init(t), w), Last(s) == Last(t), |s| + |t|, w);
    }
  }

  lemma ModerateCell(above: int, left: int, diagonal: int, same: bool, n: nat, w: Costs)
    requires Moderate(w) && 2 <= n <= 510
    requires -4_000_000 * (n - 1) <= above <= 4_000_000 * (n - 1) && -4_000_000 * (n - 1) <= left <= 4_000_000 * (n - 1)
    requires -4_000_000 * (n - 2) <= diagonal <= 4_000_000 * (n - 2)
    ensures Cell(above, left, diagonal, same, w) == Min(Min(above + w.ins, left + w.del), diagonal + if same then 0 else w.sub)
    ensures -4_000_000 * n <= Cell(above, left, diagonal, same, w) <= 4_000_000 * n
  {
  }

  // With insertions and deletions at 1, the substitution costs for which no sum of 255 by 255 cells wraps.
  const LEAST_SUB := -8_421_504
  const GREATEST_SUB := 2_147_483_139

  lemma {:induction false} UnitBorderSumsFit(s: string, t: string, w: Costs)
    requires w.ins == 1 && w.del == 1 && LEAST_SUB <= w.sub <= GREATEST_SUB && Accepted(s, t)
    ensures Computed(s, t, w) == Dist(s, t, w)
    ensures LEAST_SUB * Min(|s|, |t|) <= Dist(s, t, w) <= |s| + |t|
    decreases |s| + |t|
  {
    if s != [] && t != [] {
      UnitBorderSumsFit(s, Init(t), w);
      UnitBorderSumsFit(Init(s), t, w);
      UnitBorderSumsFit(Init(s), Init(t), w);
    }
  }

  // ----- When the charge is the weighted edit distance -----

  lemma {:induction false} UnitBordersChargeTheCost(ops: seq<Op>, s: string, t: string, w: Costs)
    requires w.ins == 1 && w.del == 1 && Transforms(ops, s, t)
    ensures Charged(ops, s, t, w) == Cost(ops, w)
    decreases |ops|
  {
    if ops != [] {
      match Last(ops)
      case Copy => UnitBordersChargeTheCost(Init(ops), Init(s), Init(t), w);
      case Replace => UnitBordersChargeTheCost(Init(ops), Init(s), Init(t), w);
      case Insert => UnitBordersChargeTheCost(Init(ops), s, Init(t), w);
      case Delete => UnitBordersChargeTheCost(Init(ops), Init(s), t, w);
    }
  }

  lemma UnitBordersMeanLeastCost(d: int, s: string, t: string, w: Costs)
    requires w.ins == 1 && w.del == 1
    requires IsLeastCharge(d, s, t, w)
    ensures IsLeastCost(d, s, t, w)
  {
    forall ops | Transforms(ops, s, t) ensures Charged(ops, s, t, w) == Cost(ops, w) {
      UnitBordersChargeTheCost(ops, s, t, w);
    }
  }

  // Only one script builds one character from nothing, and only one removes it.
  lemma SingleStepCost(ops: seq<Op>, w: Costs)
    ensures Transforms(ops, [], "a") ==> Cost(ops, w) == w.ins
    ensures Transforms(ops, "a", []) ==> Cost(ops, w) == w.del
  {
    if Transforms(ops, [], "a") {
      assert Transforms(Init(ops), [], Init("a")) && Init("a") == "";
      assert ops == [Insert];
    }
    if Transforms(ops, "a", []) {
      assert Transforms(Init(ops), Init("a"), []) && Init("a") == "";
      assert ops == [Delete];
    }
  }

  // n times the same character
  function Times(c: char, n: nat): (s: string)
    ensures |s| == n && (n > 0 ==> Last(s) == c && Init(s) == Times(c, n - 1))
  {
    if n == 0 then "" else Times(c, n - 1) + [c]
  }

  function Replaces(n: nat): (ops: seq<Op>)
    ensures |ops| == n && (n > 0 ==> Last(ops) == Replace && Init(ops) == Replaces(n - 1))
  {
    if n == 0 then [] else Replaces(n - 1) + [Replace]
  }

  // Substituting every character of a string.
  lemma {:induction false} ReplaceAll(n: nat, w: Costs)
    ensures Transforms(Replaces(n), Times('a', n), Times('b', n)) && Cost(Replaces(n), w) == n * w.sub
  {
    if n > 0 {
      ReplaceAll(n - 1, w);
      assert n * w.sub == (n - 1) * w.sub + w.sub;
    }
  }

  lemma {:induction false} CostsAreNotNegative(ops: seq<Op>, w: Costs)
    requires w.ins >= 0 && w.del >= 0 && w.sub >= 0
    ensures Cost(ops, w) >= 0
    decreases |ops|
  {
    if ops != [] {
      CostsAreNotNegative(Init(ops), w);
    }
  }

  // What the program computes for i times one character against j times another.
  function Unlike(i: nat, j: nat, w: Costs): int {
    Computed(Times('a', i), Times('b', j), w)
  }

  lemma UnlikeBorder(i: nat, j: nat, w: Costs)
    requires i == 0 || j == 0
    ensures Unlike(i, j, w) == i + j
  {
  }

  lemma UnlikeCell(i: nat, j: nat, w: Costs)
    requires i > 0 && j > 0
    ensures Unlike(i, j, w) == Cell(Unlike(i, j - 1, w), Unlike(i - 1, j, w), Unlike(i - 1, j - 1, w), false, w)
  {
    var s, t := Times('a', i), Times('b', j);
    assert Last(s) != Last(t) && Init(s) == Times('a', i - 1) && Init(t) == Times('b', j - 1);
  }

  lemma DearCell(i: nat, j: nat, w: Costs)
    requires w.ins == 1 && w.del == 1 && 0 < i <= 255 && 0 < j <= 255 && 510 <= w.sub && i + j - 2 + w.sub < 0x8000_0000
    ensures Cell(i + j - 1, i + j - 1, i + j - 2, false, w) == i + j
  {
  }

  // Substitutions too dear to be used.
  lemma {:induction false} DearSubstitution(i: nat, j: nat, n: nat, w: Costs)
    requires w.ins == 1 && w.del == 1 && i <= n && j <= n && 2 * n <= 510 <= w.sub && 2 * n + w.sub < 0x8000_0002
    ensures Unlike(i, j, w) == i + j
    decreases i + j
  {
    if i == 0 || j == 0 {
      UnlikeBorder(i, j, w);
    } else {
      DearSubstitution(i, j - 1, n, w);
      DearSubstitution(i - 1, j, n, w);
      DearSubstitution(i - 1, j - 1, n, w);
      UnlikeCell(i, j, w);
      DearCell(i, j, w);
    }
  }

  // The computed value is the weighted edit distance of s and t.
  ghost predicate IsExact(s: string, t: string, w: Costs) {
    IsLeastCost(Computed(s, t, w), s, t, w)
  }

  // A substitution so cheap that n of them cost less than the least int4.
  lemma CheapSubstitutionFails(n: nat, w: Costs)
    requires n > 0 && n * w.sub < -0x8000_0000
    ensures !IsExact(Times('a', n), Times('b', n), w)
  {
    ReplaceAll(n, w);
    assert Computed(Times('a', n), Times('b', n), w) >= -0x8000_0000;
  }

  // A substitution so dear that adding it to 2 n wraps.
  lemma DearSubstitutionFails(n: nat, w: Costs)
    requires w.ins == 1 && w.del == 1 && IsInt4(w.sub) && n <= 254
    requires 2 * n + w.sub >= 0x8000_0000 > 2 * (n - 1) + w.sub
    ensures !IsExact(Times('a', n + 1), Times('b', n + 1), w)
  {
    DearSubstitution(n, n, n, w);
    UnlikeCell(n + 1, n + 1, w);
    var s, t := Times('a', n + 1), Times('b', n + 1);
    assert Computed(s, t, w) == Unlike(n + 1, n + 1, w) <= Wrap(2 * n + w.sub) < 0;
    forall ops | Transforms(ops, s, t) ensures Cost(ops, w) >= 0 {
      CostsAreNotNegative(ops, w);
    }
  }

  /** levenshtein_with_costs computes the weighted edit distance of every two strings it accepts exactly for
      the costs whose insertions and deletions cost 1 and whose substitutions cost between -8421504 and
      2147483139: the borders are not scaled by the costs, and sums wrap. */
  lemma WithCostsIsExactIff(w: Costs)
    requires IsCosts(w)
    ensures (forall s: string, t: string :: Accepted(s, t) ==> IsExact(s, t, w)) <==>
            w.ins == 1 && w.del == 1 && LEAST_SUB <= w.sub <= GREATEST_SUB
  {
    if w.ins != 1 || w.del != 1 {
      BordersFail(w);
    } else if w.sub < LEAST_SUB {
      CheapSubstitutionFails(255, w);
      assert Accepted(Times('a', 255), Times('b', 255));
    } else if w.sub > GREATEST_SUB {
      var n := (0x8000_0001 - w.sub) / 2;
      DearSubstitutionFails(n, w);
      assert Accepted(Times('a', n + 1), Times('b', n + 1));
    } else {
      forall s: string, t: string | Accepted(s, t) ensures IsExact(s, t, w) {
        UnitBorderSumsFit(s, t, w);
        DistIsLeastCharge(s, t, w);
        UnitBordersMeanLeastCost(Dist(s, t, w), s, t, w);
      }
    }
  }

  lemma BordersFail(w: Costs)
    requires w.ins != 1 || w.del != 1
    ensures (Accepted("", "a") && !IsExact("", "a", w)) || (Accepted("a", "") && !IsExact("a", "", w))
  {
    forall ops { SingleStepCost(ops, w); }
    assert Computed("", "a", w) == 1 && Computed("a", "", w) == 1;
  }

  // ----- levenshtein(s, t) is a metric -----

  // What levenshtein(s, t) returns for strings within the length limit.
  function Distance(s: string, t: string): (d: int)
    ensures IsLeastCost(d, s, t, UNIT)
  {
    DistIsLeastCharge(s, t, UNIT);
    UnitBordersMeanLeastCost(Dist(s, t, UNIT), s, t, UNIT);
    Dist(s, t, UNIT)
  }

  /** levenshtein: the distance of any two strings it accepts. */
  method Plain(s: string, t: string) returns (r: Result)
    ensures r == if Accepted(s, t) then Ok(Distance(s, t)) else TooLong
  {
    r := LevenshteinInternal(s, t, UNIT);
    if r.Ok? {
      ModerateSumsFit(s, t, UNIT);
    }
  }

  lemma {:induction false} DistanceBounds(s: string, t: string)
    ensures |s| - |t| <= Distance(s, t) && |t| - |s| <= Distance(s, t)
    ensures Distance(s, t) <= if |s| < |t| then |t| else |s|
    decreases |s| + |t|
  {
    if s != [] && t != [] {
      DistanceBounds(s, Init(t));
      DistanceBounds(Init(s), t);
      DistanceBounds(Init(s), Init(t));
    }
  }

  lemma {:induction false} DistanceZeroIff(s: string, t: string)
    ensures Distance(s, t) == 0 <==> s == t
    decreases |s| + |t|
  {
    if s != [] && t != [] {
      assert s == Init(s) + [Last(s)] && t == Init(t) + [Last(t)];
      DistanceZeroIff(Init(s), Init(t));
      DistanceBounds(s, Init(t));
      DistanceBounds(Init(s), t);
      DistanceBounds(Init(s), Init(t));
    }
  }

  lemma {:induction false} DistanceSymmetric(s: string, t: string)
    ensures Distance(s, t) == Distance(t, s)
    decreases |s| + |t|
  {
    if s != [] && t != [] {
      DistanceSymmetric(s, Init(t));
      DistanceSymmetric(Init(s), t);
      DistanceSymmetric(Init(s), Init(t));
    }
  }

  // Running p and then q can be done in one script that costs no more.
  lemma {:induction false} Compose(p: seq<Op>, q: seq<Op>, a: string, b: string, c: string) returns (r: seq<Op>)
    requires Transforms(p, a, b) && Transforms(q, b, c)
    ensures Transforms(r, a, c) && Cost(r, UNIT) <= Cost(p, UNIT) + Cost(q, UNIT)
    decreases |p| + |q|, 0
  {
    if p == [] && q == [] {
      r := [];
    } else if p != [] && Last(p) == Delete {
      r := ComposeThen(Init(p), q, Init(a), b, c, Delete);
    } else if q != [] && Last(q) == Insert {
      r := ComposeThen(p, Init(q), a, b, Init(c), Insert);
    } else if Last(p) == Insert && Last(q) == Delete {
      r := Compose(Init(p), Init(q), a, Init(b), c);
    } else if Last(p) == Insert {
      r := ComposeThen(Init(p), Init(q), a, Init(b), Init(c), Insert);
    } else if Last(q) == Delete {
      r := ComposeThen(Init(p), Init(q), Init(a), Init(b), c, Delete);
    } else {
      r := ComposeThen(Init(p), Init(q), Init(a), Init(b), Init(c), if Last(a) == Last(c) then Copy else Replace);
    }
  }

  lemma {:induction false} ComposeThen(p: seq<Op>, q: seq<Op>, a: string, b: string, c: string, op: Op) returns (r: seq<Op>)
    requires Transforms(p, a, b) && Transforms(q, b, c)
    ensures r != [] && Last(r) == op && Transforms(Init(r), a, c)
    ensures Cost(r, UNIT) <= Cost(p, UNIT) + Cost(q, UNIT) + Weight(op, UNIT)
    decreases |p| + |q|, 1
  {
    var r' := Compose(p, q, a, b, c);
    r := r' + [op];
    assert Init(r) == r';
  }

  lemma DistanceTriangle(a: string, b: string, c: string)
    ensures Distance(a, c) <= Distance(a, b) + Distance(b, c)
  {
    var ab, bc := Distance(a, b), Distance(b, c);
    var p :| Transforms(p, a, b) && Cost(p, UNIT) == ab;
    var q :| Transforms(q, b, c) && Cost(q, UNIT) == bc;
    var r := Compose(p, q, a, b, c);
  }
}
