/** Arrays of trigrams: sorted without repeats, compared by the share of trigrams they have in common. */
module Trgm {
  import opened Basics

  // Three bytes, compared as signed characters.
  datatype Trgm = Trgm(c0: int, c1: int, c2: int)

  // CMPCHAR
  function CmpChar(a: int, b: int): int {
    if a == b then 0 else if a < b then -1 else 1
  }

  // CMPTRGM
  function Cmp(a: Trgm, b: Trgm): int {
    if CmpChar(a.c0, b.c0) != 0 then CmpChar(a.c0, b.c0)
    else if CmpChar(a.c1, b.c1) != 0 then CmpChar(a.c1, b.c1)
    else CmpChar(a.c2, b.c2)
  }

  predicate InOrder(s: seq<Trgm>) {
    forall i, j :: 0 <= i < j < |s| ==> Cmp(s[i], s[j]) <= 0
  }

  predicate Strict(s: seq<Trgm>) {
    forall i, j :: 0 <= i < j < |s| ==> Cmp(s[i], s[j]) < 0
  }

  function Elems(s: seq<Trgm>): set<Trgm> {
    set t | t in s
  }

  lemma {:induction false} StrictLength(s: seq<Trgm>)
    requires Strict(s)
    ensures |Elems(s)| == |s|
  {
    if s != [] {
      var n := |s| - 1;
      StrictLength(s[..n]);
      assert s == s[..n] + [s[n]];
      assert Elems(s) == Elems(s[..n]) + {s[n]};
      assert s[n] !in s[..n];
    }
  }

  // The first tmp trigrams of the sorted array s, each once, are at the start of a, and the others in place.
  ghost predicate Kept(a: seq<Trgm>, s: seq<Trgm>, curend: nat, tmp: nat) {
    && curend < |a| == |s| && tmp <= |s| && (if tmp == 0 then curend == 0 else curend < tmp)
    && a[tmp..] == s[tmp..] && Strict(a[..curend + 1]) && a[curend] == s[if tmp == 0 then 0 else tmp - 1]
    && (tmp > 0 ==> Elems(a[..curend + 1]) == Elems(s[..tmp]))
  }

  lemma KeepNext(kept: seq<Trgm>, t: Trgm)
    requires Strict(kept) && kept != [] && Cmp(kept[|kept| - 1], t) < 0
    ensures Strict(kept + [t]) && Elems(kept + [t]) == Elems(kept) + {t}
  {
  }

  lemma KeepStep(a: seq<Trgm>, s: seq<Trgm>, curend: nat, tmp: nat)
    requires Kept(a, s, curend, tmp) && tmp < |s| && InOrder(s)
    ensures Cmp(a[tmp], a[curend]) == 0 ==> Kept(a, s, curend, tmp + 1)
    ensures Cmp(a[tmp], a[curend]) != 0 ==> curend + 1 < |a| && Kept(a[curend + 1 := a[tmp]], s, curend + 1, tmp + 1)
  {
    assert a[tmp] == a[tmp..][0] == s[tmp];
    assert a[tmp + 1..] == a[tmp..][1..] == s[tmp + 1..];
    assert s[..tmp + 1] == s[..tmp] + [s[tmp]];
    var kept := a[..curend + 1];
    if Cmp(a[tmp], a[curend]) == 0 {
      assert a[curend] in kept;
    } else {
      assert tmp > 0;
      KeepNext(kept, s[tmp]);
      var a' := a[curend + 1 := a[tmp]];
      assert a'[..curend + 2] == kept + [s[tmp]];
      assert a'[tmp + 1..] == a[tmp + 1..];
    }
  }

  /** unique_array: of a sorted array it keeps each trigram once. */
  method UniqueArray(a: array<Trgm>) returns (n: nat)
    requires a.Length > 0 && InOrder(a[..])
    modifies a
    ensures n <= a.Length && Strict(a[..n]) && Elems(a[..n]) == Elems(old(a[..]))
  {
    ghost var s := a[..];
    var curend: nat, tmp := 0, 0;
    while tmp < a.Length
      invariant 0 <= tmp <= a.Length && Kept(a[..], s, curend, tmp)
    {
      KeepStep(a[..], s, curend, tmp);
      if Cmp(a[tmp], a[curend]) != 0 {
        curend := curend + 1;
        a[curend] := a[tmp];
      }
      tmp := tmp + 1;
    }
    assert s[..tmp] == s && a[..][..curend + 1] == a[..curend + 1];
    n := curend + 1;
  }

  // ----- Similarity -----

  /** r is the similarity of two sets of trigrams: the share that their common trigrams have in all of theirs. */
  ghost predicate IsSimilarity(r: real, a: set<Trgm>, b: set<Trgm>) {
    a + b != {} && r * |a + b| as real == |a * b| as real
  }

  /** The operator: the similarity reaches the limit.  Without any trigrams there is none, and it reaches nothing. */
  ghost predicate Similar(a: set<Trgm>, b: set<Trgm>, limit: real) {
    exists r :: IsSimilarity(r, a, b) && r >= limit
  }

  lemma UnionSize(a: set<Trgm>, b: set<Trgm>)
    ensures |a + b| == |a| + |b| - |a * b|
    ensures a + b != {} <==> |a| + |b| > 0
  {
    assert a + b == a + (b - a) && b == b - a + a * b;
    assert |b| == |b - a| + |a * b|;
    assert a + b == {} ==> a == {} && b == {};
  }

  lemma RatioLaws(r: real, u: real, c: real)
    requires r * u == c && 0.0 <= c <= u && 0.0 < u
    ensures 0.0 <= r <= 1.0 && (r == 1.0 <==> c == u) && (r == 0.0 <==> c == 0.0)
  {
    var d := 1.0 - r;
    assert d * u == u - c;
    assert r < 0.0 ==> r * u < 0.0;
    assert d < 0.0 ==> d * u < 0.0;
    assert r > 0.0 ==> r * u > 0.0;
    assert d > 0.0 ==> d * u > 0.0;
  }

  lemma RatioIsUnique(r: real, r': real, u: real)
    requires r * u == r' * u && 0.0 < u
    ensures r == r'
  {
    var d := r - r';
    assert d * u == 0.0;
    assert d < 0.0 ==> d * u < 0.0;
    assert d > 0.0 ==> d * u > 0.0;
  }

  /** A similarity lies between 0 and 1.  It is 1 exactly for equal sets and 0 exactly for disjoint ones, it is
      symmetric, and two sets have at most one. */
  lemma SimilarityLaws(r: real, a: set<Trgm>, b: set<Trgm>)
    requires IsSimilarity(r, a, b)
    ensures 0.0 <= r <= 1.0 && IsSimilarity(r, b, a)
    ensures r == 1.0 <==> a == b
    ensures r == 0.0 <==> a * b == {}
    ensures forall r' :: IsSimilarity(r', a, b) ==> r' == r
  {
    EqualSizes(a * b, a + b);
    SubsetSize(a * b, a + b);
    assert |a + b| > 0;
    RatioLaws(r, |a + b| as real, |a * b| as real);
    assert a + b == b + a && a * b == b * a;
    assert a * b == a + b ==> a <= b && b <= a;
    assert |a * b| == 0 <==> a * b == {};
    assert r == 0.0 <==> |a * b| as real == 0.0;
    forall r' | IsSimilarity(r', a, b) ensures r' == r {
      RatioIsUnique(r', r, |a + b| as real);
    }
  }

  lemma EqualSizes(a: set<Trgm>, b: set<Trgm>)
    requires a <= b
    ensures |a| == |b| <==> a == b
  {
    assert b == a + (b - a);
    assert |b| == |a| + |b - a|;
  }

  lemma CommonBound<T>(a: set<T>, b: set<T>)
    ensures |a * b| <= |a| && |a * b| <= |b|
  {
    SubsetSize(a * b, a);
    SubsetSize(a * b, b);
  }

  lemma {:induction false} SubsetSize<T>(a: set<T>, b: set<T>)
    requires a <= b
    ensures |a| <= |b|
    decreases a
  {
    if a != {} {
      var x :| x in a;
      SubsetSize(a - {x}, b - {x});
    }
  }

  // What the merge has counted, and what it has still to see.
  ghost predicate Counted(a: seq<Trgm>, i: nat, b: seq<Trgm>, j: nat, count: nat) {
    i <= |a| && j <= |b| && |Elems(a) * Elems(b)| == count + |Elems(a[i..]) * Elems(b[j..])|
  }

  lemma DropHead(a: seq<Trgm>, i: nat)
    requires Strict(a) && i < |a|
    ensures Elems(a[i..]) == Elems(a[i + 1..]) + {a[i]} && a[i] !in Elems(a[i + 1..])
    ensures forall t :: t in Elems(a[i..]) ==> Cmp(a[i], t) <= 0
  {
    assert a[i..] == [a[i]] + a[i + 1..];
    var all, rest, next := a[i..], a[i + 1..], i + 1;
    assert forall k :: 0 <= k < |all| ==> all[k] == a[i + k];
    assert forall k :: 0 <= k < |rest| ==> rest[k] == a[next + k];
  }

  // A trigram before everything that is left of b is not common.
  lemma SkipLeft(a: seq<Trgm>, i: nat, b: seq<Trgm>, j: nat)
    requires Strict(a) && Strict(b) && i < |a| && j < |b| && Cmp(a[i], b[j]) < 0
    ensures Elems(a[i + 1..]) * Elems(b[j..]) == Elems(a[i..]) * Elems(b[j..])
  {
    DropHead(a, i);
    DropHead(b, j);
    assert a[i] !in Elems(b[j..]);
  }

  lemma TakeBoth(a: seq<Trgm>, i: nat, b: seq<Trgm>, j: nat)
    requires Strict(a) && Strict(b) && i < |a| && j < |b| && a[i] == b[j]
    ensures |Elems(a[i..]) * Elems(b[j..])| == 1 + |Elems(a[i + 1..]) * Elems(b[j + 1..])|
  {
    DropHead(a, i);
    DropHead(b, j);
    assert Elems(a[i..]) * Elems(b[j..]) == Elems(a[i + 1..]) * Elems(b[j + 1..]) + {a[i]};
  }

  lemma SkipRight(a: seq<Trgm>, i: nat, b: seq<Trgm>, j: nat)
    requires Strict(a) && Strict(b) && i < |a| && j < |b| && Cmp(a[i], b[j]) > 0
    ensures Elems(a[i..]) * Elems(b[j + 1..]) == Elems(a[i..]) * Elems(b[j..])
  {
    DropHead(a, i);
    DropHead(b, j);
    assert b[j] !in Elems(a[i..]);
  }

  // The merge of cnt_sml counts the common trigrams.
  method CountCommon(trg1: seq<Trgm>, trg2: seq<Trgm>) returns (count: nat)
    requires Strict(trg1) && Strict(trg2)
    ensures count == |Elems(trg1) * Elems(trg2)|
  {
    count := 0;
    var ptr1: nat, ptr2: nat := 0, 0;
    assert trg1[0..] == trg1 && trg2[0..] == trg2;
    while ptr1 < |trg1| && ptr2 < |trg2|
      invariant Counted(trg1, ptr1, trg2, ptr2, count)
      decreases |trg1| - ptr1 + |trg2| - ptr2
    {
      var res := Cmp(trg1[ptr1], trg2[ptr2]);
      if res < 0 {
        SkipLeft(trg1, ptr1, trg2, ptr2);
        ptr1 := ptr1 + 1;
      } else if res > 0 {
        SkipRight(trg1, ptr1, trg2, ptr2);
        ptr2 := ptr2 + 1;
      } else {
        TakeBoth(trg1, ptr1, trg2, ptr2);
        ptr1, ptr2, count := ptr1 + 1, ptr2 + 1, count + 1;
      }
    }
    assert Elems(trg1[ptr1..]) * Elems(trg2[ptr2..]) == {};
  }

  lemma Quotient(c: real, u: real)
    requires u > 0.0
    ensures (c / u) * u == c
  {
  }

  lemma OneSimilarity(r: real, a: set<Trgm>, b: set<Trgm>)
    requires IsSimilarity(r, a, b)
    ensures forall limit :: Similar(a, b, limit) <==> r >= limit
  {
    SimilarityLaws(r, a, b);
  }

  /** cnt_sml: the similarity of the trigrams of the arrays, if they have any. */
  method CntSml(trg1: seq<Trgm>, trg2: seq<Trgm>) returns (sml: Option<real>)
    requires Strict(trg1) && Strict(trg2)
    ensures sml.None? <==> trg1 == [] && trg2 == []
    ensures sml.Some? ==> IsSimilarity(sml.value, Elems(trg1), Elems(trg2))
    ensures forall limit :: Similar(Elems(trg1), Elems(trg2), limit) <==> sml.Some? && sml.value >= limit
  {
    var count := CountCommon(trg1, trg2);
    StrictLength(trg1);
    StrictLength(trg2);
    UnionSize(Elems(trg1), Elems(trg2));
    CommonBound(Elems(trg1), Elems(trg2));
    if |trg1| + |trg2| - count == 0 {
      return None;
    }
    var all := |trg1| + |trg2| - count;
    Quotient(count as real, all as real);
    sml := Some(count as real / all as real);
    OneSimilarity(sml.value, Elems(trg1), Elems(trg2));
  }
}
