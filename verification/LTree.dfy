/** Label paths: their order, the ancestor relation and the lowest common ancestor. A path is the
    sequence of its level names. */
module LTree {
  import opened Basics
  import opened CString

  type Path = seq<string>

  // A stored name has at most 255 characters of at most 4 bytes.
  const MAX_NAME := 1020

  predicate CleanName(s: string) {
    |s| <= MAX_NAME && NoNul(s) && forall i :: 0 <= i < |s| ==> s[i] < 256 as char
  }

  /** The paths that can be stored: the number of levels is a 16-bit field. */
  predicate CleanPath(p: Path) {
    |p| <= 0xffff && forall i :: 0 <= i < |p| ==> CleanName(p[i])
  }

  // The characters of level names.
  predicate IsAlnum(c: char) {
    'a' <= c <= 'z' || 'A' <= c <= 'Z' || IsDigit(c) || c == '_'
  }

  predicate AllAlnum(s: string) {
    forall i :: 0 <= i < |s| ==> IsAlnum(s[i])
  }

  // ----- Lexicographic order -----

  function Lex<T(==)>(cmp: (T, T) -> int, a: seq<T>, b: seq<T>): int {
    if a == [] || b == [] then |a| - |b|
    else if cmp(a[0], b[0]) != 0 then cmp(a[0], b[0])
    else Lex(cmp, a[1..], b[1..])
  }

  // The sign of cmp is a total order.
  ghost predicate IsTotal<T(!new)>(cmp: (T, T) -> int) {
    && (forall x, y :: cmp(x, y) == 0 <==> x == y)
    && (forall x, y :: cmp(x, y) < 0 <==> cmp(y, x) > 0)
    && (forall x, y, z :: cmp(x, y) < 0 && cmp(y, z) < 0 ==> cmp(x, z) < 0)
  }

  lemma {:induction false} LexZero<T(!new)>(cmp: (T, T) -> int, a: seq<T>, b: seq<T>)
    requires IsTotal(cmp)
    ensures Lex(cmp, a, b) == 0 <==> a == b
  {
    if a != [] && b != [] && cmp(a[0], b[0]) == 0 {
      LexZero(cmp, a[1..], b[1..]);
      assert a == [a[0]] + a[1..] && b == [b[0]] + b[1..];
    }
  }

  lemma {:induction false} LexFlips<T(!new)>(cmp: (T, T) -> int, a: seq<T>, b: seq<T>)
    requires IsTotal(cmp)
    ensures Lex(cmp, a, b) < 0 <==> Lex(cmp, b, a) > 0
  {
    if a != [] && b != [] && cmp(a[0], b[0]) == 0 {
      LexFlips(cmp, a[1..], b[1..]);
    }
  }

  lemma {:induction false} LexChains<T(!new)>(cmp: (T, T) -> int, a: seq<T>, b: seq<T>, c: seq<T>)
    requires IsTotal(cmp) && Lex(cmp, a, b) < 0 && Lex(cmp, b, c) < 0
    ensures Lex(cmp, a, c) < 0
  {
    if a != [] && b != [] && c != [] && cmp(a[0], b[0]) == 0 && cmp(b[0], c[0]) == 0 {
      LexChains(cmp, a[1..], b[1..], c[1..]);
    }
  }

  lemma LexIsOrder<T(!new)>(cmp: (T, T) -> int)
    requires IsTotal(cmp)
    ensures IsTotal((a: seq<T>, b: seq<T>) => Lex(cmp, a, b))
  {
    forall a, b ensures Lex(cmp, a, b) == 0 <==> a == b {
      LexZero(cmp, a, b);
    }
    forall a, b ensures Lex(cmp, a, b) < 0 <==> Lex(cmp, b, a) > 0 {
      LexFlips(cmp, a, b);
    }
    forall a, b, c | Lex(cmp, a, b) < 0 && Lex(cmp, b, c) < 0 ensures Lex(cmp, a, c) < 0 {
      LexChains(cmp, a, b, c);
    }
  }

  // The first n elements, or all when there are fewer.
  function Take<T>(a: seq<T>, n: nat): seq<T> {
    if n < |a| then a[..n] else a
  }

  lemma {:induction false} LexTruncates<T(!new)>(cmp: (T, T) -> int, a: seq<T>, b: seq<T>, n: nat)
    requires Lex(cmp, a, b) <= 0
    ensures Lex(cmp, Take(a, n), Take(b, n)) <= 0
  {
    if a != [] && b != [] && n > 0 && cmp(a[0], b[0]) == 0 {
      LexTruncates(cmp, a[1..], b[1..], n - 1);
      assert Take(a, n)[1..] == Take(a[1..], n - 1) && Take(b, n)[1..] == Take(b[1..], n - 1);
    }
  }

  // ----- The order of paths -----

  function CharCmp(x: char, y: char): int {
    x as int - y as int
  }

  function NameCmp(x: string, y: string): int {
    Lex(CharCmp, x, y)
  }

  function PathCmp(a: Path, b: Path): int {
    Lex(NameCmp, a, b)
  }

  lemma NamesAreOrdered()
    ensures IsTotal(NameCmp)
  {
    LexIsOrder(CharCmp);
    var f := (a: string, b: string) => Lex(CharCmp, a, b);
    assert forall x, y :: f(x, y) == NameCmp(x, y);
  }

  /** Paths are totally ordered, level by level. */
  lemma PathOrderIsTotal(a: Path, b: Path, c: Path)
    ensures PathCmp(a, b) == 0 <==> a == b
    ensures PathCmp(a, b) < 0 <==> PathCmp(b, a) > 0
    ensures PathCmp(a, b) <= 0 && PathCmp(b, c) <= 0 ==> PathCmp(a, c) <= 0
    ensures PathCmp(a, b) <= 0 && PathCmp(b, c) <= 0 && (PathCmp(a, b) < 0 || PathCmp(b, c) < 0) ==> PathCmp(a, c) < 0
  {
    NamesAreOrdered();
    LexZero(NameCmp, a, b);
    LexZero(NameCmp, b, c);
    LexFlips(NameCmp, a, b);
    if PathCmp(a, b) < 0 && PathCmp(b, c) < 0 {
      LexChains(NameCmp, a, b, c);
    }
  }

  /** Cutting two paths to the same number of levels keeps their order. */
  lemma TruncationIsMonotone(a: Path, b: Path, n: nat)
    requires PathCmp(a, b) <= 0
    ensures PathCmp(Take(a, n), Take(b, n)) <= 0
  {
    LexTruncates(NameCmp, a, b, n);
  }

  // The comparison of two levels: strncmp over the shorter length, then the lengths.
  function LevelDiff(x: string, y: string): int {
    var m := if |x| < |y| then |x| else |y|;
    var res := Strncmp(x[..m], y[..m]);
    if res == 0 then |x| - |y| else res
  }

  lemma {:induction false} LevelDiffIsNameCmp(x: string, y: string)
    requires NoNul(x) && NoNul(y)
    ensures LevelDiff(x, y) == NameCmp(x, y)
  {
    if x != "" && y != "" && x[0] == y[0] {
      var m := if |x| < |y| then |x| else |y|;
      LevelDiffIsNameCmp(x[1..], y[1..]);
      assert x[..m][1..] == x[1..][..m - 1] && y[..m][1..] == y[1..][..m - 1];
    }
  }

  predicate SameSign(x: int, y: int) {
    (x < 0 <==> y < 0) && (x == 0 <==> y == 0)
  }

  // ----- ltree_compare -----

  // What it returns when a level decides, with an levels of a still to come.
  function Scaled(diff: int, an: nat): int {
    Wrap(diff * (10 * (an + 1)))
  }

  /** What ltree_compare returns: the first difference between levels, or that of the lengths, scaled by the
      levels of a that are left, in 32 bits. */
  function Compare(a: Path, b: Path): int {
    if a == [] || b == [] then Scaled(|a| - |b|, |a|)
    else if LevelDiff(a[0], b[0]) != 0 then Scaled(LevelDiff(a[0], b[0]), |a|)
    else Compare(a[1..], b[1..])
  }

  lemma ScaledFits(x: int, n: nat)
    requires -1020 <= x <= 1020 && n <= 0xffff
    ensures SameSign(Scaled(x, n), x)
  {
    var k := 10 * (n + 1);
    ProductGrows(x, 1020, k);
    ProductGrows(-1020, x, k);
    if x > 0 {
      ProductGrows(1, x, k);
    } else if x < 0 {
      ProductGrows(x, -1, k);
    }
  }

  lemma ProductGrows(x: int, y: int, k: nat)
    requires x <= y
    ensures x * k <= y * k
  {
    assert (y - x) * k >= 0;
  }

  lemma {:induction false} StrncmpBound(x: string, y: string)
    requires |x| == |y| && CleanName(x) && CleanName(y)
    ensures -255 <= Strncmp(x, y) <= 255
  {
    if x != "" && x[0] == y[0] {
      StrncmpBound(x[1..], y[1..]);
    }
  }

  lemma LevelDiffBound(x: string, y: string)
    requires CleanName(x) && CleanName(y)
    ensures -1020 <= LevelDiff(x, y) <= 1020
  {
    var m := if |x| < |y| then |x| else |y|;
    StrncmpBound(x[..m], y[..m]);
  }

  // b is an ancestor of a so far up that the product does not keep its sign.
  predicate TooFarAbove(a: Path, b: Path) {
    b < a && Scaled(|a| - |b|, |a| - |b|) <= 0
  }

  // b is too far above a when it is above a, and then only if it starts like a.
  lemma TooFarAboveNext(a: Path, b: Path)
    requires a != [] && b != []
    ensures TooFarAbove(a, b) <==> a[0] == b[0] && TooFarAbove(a[1..], b[1..])
  {
    assert a == [a[0]] + a[1..] && b == [b[0]] + b[1..];
    assert b < a <==> a[0] == b[0] && b[1..] < a[1..];
  }

  /** The sign of the result is the order of the paths if and only if b is not too far above a. */
  lemma {:induction false} CompareIsOrderIff(a: Path, b: Path)
    requires CleanPath(a) && CleanPath(b)
    ensures SameSign(Compare(a, b), PathCmp(a, b)) <==> !TooFarAbove(a, b)
  {
    if a == [] || b == [] {
      if |a| <= |b| {
        ShortProduct(|a| - |b|);
      }
    } else {
      TooFarAboveNext(a, b);
      LevelDiffIsNameCmp(a[0], b[0]);
      LevelDiffBound(a[0], b[0]);
      if LevelDiff(a[0], b[0]) != 0 {
        ScaledFits(LevelDiff(a[0], b[0]), |a|);
        NamesAreOrdered();
      } else {
        CompareIsOrderIff(a[1..], b[1..]);
        NamesAreOrdered();
      }
    }
  }

  lemma ShortProduct(x: int)
    requires -0xffff <= x <= 0
    ensures SameSign(Scaled(x, 0), x)
  {
  }

  // The most levels below an ancestor for which the product fits.
  const MAX_DEPTH := 14653

  lemma ShallowProduct(d: nat)
    requires 0 < d <= MAX_DEPTH
    ensures Scaled(d, d) > 0
  {
    var k := 10 * (d + 1);
    ProductGrows(1, d, k);
    ProductGrows(d, MAX_DEPTH, k);
  }

  /** No path of at most 14653 levels is compared wrongly. */
  lemma ShallowIsOrdered(a: Path, b: Path)
    requires CleanPath(a) && CleanPath(b) && |a| <= MAX_DEPTH
    ensures SameSign(Compare(a, b), PathCmp(a, b))
  {
    if b < a {
      ShallowProduct(|a| - |b|);
    }
    CompareIsOrderIff(a, b);
  }

  // n times the level "a"
  function Deep(n: nat): (p: Path)
    ensures |p| == n && forall i :: 0 <= i < n ==> p[i] == "a"
  {
    seq(n, _ => "a")
  }

  /** One level more and the comparison is no order: the path is before the empty path, and after it. */
  lemma DeepIsNotOrdered()
    ensures CleanPath(Deep(MAX_DEPTH + 1)) && Compare(Deep(MAX_DEPTH + 1), []) < 0 && Compare([], Deep(MAX_DEPTH + 1)) < 0
  {
    var p := Deep(MAX_DEPTH + 1);
    assert Scaled(14654, 14654) == Wrap(2147543700) == 2147543700 - 0x1_0000_0000;
    assert Scaled(-14654, 0) == -146540;
  }

  /** ltree_compare: what it returns has the sign of the order of paths if and only if b is not too far
      above a. */
  method LtreeCompare(a: Path, b: Path) returns (r: int)
    requires CleanPath(a) && CleanPath(b)
    ensures r == Compare(a, b)
    ensures SameSign(r, PathCmp(a, b)) <==> !TooFarAbove(a, b)
  {
    CompareIsOrderIff(a, b);
    var an, bn := |a|, |b|;
    var i := 0;
    assert a[0..] == a && b[0..] == b;
    while an > 0 && bn > 0
      invariant 0 <= i <= |a| && i <= |b| && an == |a| - i && bn == |b| - i
      invariant Compare(a[i..], b[i..]) == Compare(a, b)
    {
      var m := if |a[i]| < |b[i]| then |a[i]| else |b[i]|;
      var res := Strncmp(a[i][..m], b[i][..m]);
      if res == 0 {
        if |a[i]| != |b[i]| {
          return Wrap((|a[i]| - |b[i]|) * (10 * (an + 1)));
        }
      } else {
        return Wrap(res * (10 * (an + 1)));
      }
      assert a[i..][1..] == a[i + 1..] && b[i..][1..] == b[i + 1..];
      an, bn, i := an - 1, bn - 1, i + 1;
    }
    r := Wrap((|a| - |b|) * (10 * (an + 1)));
  }

  // ----- Ancestors -----

  predicate SameLevel(x: string, y: string) {
    |x| == |y| && Strncmp(x, y) == 0
  }

  lemma SameLevelIsEqual(x: string, y: string)
    requires NoNul(x) && NoNul(y)
    ensures SameLevel(x, y) <==> x == y
  {
    if |x| == |y| {
      StrncmpZero(x, y);
    }
  }

  /** inner_isparent: p is an ancestor of c, or c itself. */
  method InnerIsParent(c: Path, p: Path) returns (r: bool)
    requires CleanPath(c) && CleanPath(p)
    ensures r <==> p <= c
  {
    if |p| > |c| {
      return false;
    }
    var i := 0;
    while i < |p|
      invariant 0 <= i <= |p| && forall k :: 0 <= k < i ==> c[k] == p[k]
    {
      SameLevelIsEqual(c[i], p[i]);
      if !SameLevel(c[i], p[i]) {
        return false;
      }
      i := i + 1;
    }
    return true;
  }

  // x is a proper ancestor of every path.
  ghost predicate ProperAncestorOfAll(x: Path, a: seq<Path>) {
    forall i :: 0 <= i < |a| ==> x < a[i]
  }

  // The levels that a[0], to at most num levels, shares with p, leaving p at least one more.
  method SharedLevels(first: Path, num: nat, p: Path) returns (n: nat)
    requires num <= |first| && p != [] && CleanPath(first) && CleanPath(p)
    ensures n <= num && first[..n] < p
    ensures forall k :: 0 <= k <= num && first[..k] < p ==> k <= n
  {
    var bound := if num < |p| - 1 then num else |p| - 1;
    n := 0;
    while n < bound
      invariant 0 <= n <= bound && first[..n] == p[..n]
    {
      SameLevelIsEqual(first[n], p[n]);
      if !SameLevel(first[n], p[n]) {
        break;
      }
      assert first[..n + 1] == first[..n] + [first[n]] && p[..n + 1] == p[..n] + [p[n]];
      n := n + 1;
    }
    assert first[..n] <= p;
    assert forall k :: n < k <= num ==> first[..k][n] == first[n];
  }

  /** lca_inner: nothing when some path is empty; otherwise the longest path that is a proper ancestor of
      all of them. */
  method LcaInner(a: seq<Path>) returns (r: Option<Path>)
    requires a != [] && forall i :: 0 <= i < |a| ==> CleanPath(a[i])
    ensures r.None? <==> [] in a
    ensures r.Some? ==> ProperAncestorOfAll(r.value, a)
    ensures r.Some? ==> forall x :: ProperAncestorOfAll(x, a) ==> x <= r.value
  {
    var first := a[0];
    if |first| == 0 {
      return None;
    }
    var num: nat := |first| - 1;
    var ptr := 1;
    while ptr < |a|
      invariant 1 <= ptr <= |a| && num < |first| && [] !in a[..ptr]
      invariant forall i :: 0 <= i < ptr ==> first[..num] < a[i]
      invariant forall k :: 0 <= k < |first| && ProperAncestorOfAll(first[..k], a[..ptr]) ==> k <= num
    {
      if |a[ptr]| == 0 {
        return None;
      }
      assert a[..ptr + 1] == a[..ptr] + [a[ptr]];
      ghost var before := num;
      num := SharedLevels(first, num, a[ptr]);
      assert first[..num] <= first[..before];
      forall k | 0 <= k < |first| && ProperAncestorOfAll(first[..k], a[..ptr + 1]) ensures k <= num {
        assert forall i :: 0 <= i < ptr ==> a[..ptr][i] == a[..ptr + 1][i];
        assert a[..ptr + 1][ptr] == a[ptr];
      }
      ptr := ptr + 1;
    }
    assert a[..ptr] == a;
    r := Some(first[..num]);
    forall x | ProperAncestorOfAll(x, a) ensures x <= r.value {
      assert x < a[0];
      assert x == first[..|x|];
    }
  }
}
