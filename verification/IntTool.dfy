/** The sorted integer arrays of intarray: bubble sort, removal of repeats, and the merges that decide
    containment and overlap and form unions. */
module IntTool {
  import opened Basics

  predicate Sorted(s: seq<int>) {
    forall i, j :: 0 <= i < j < |s| ==> s[i] <= s[j]
  }

  predicate Strict(s: seq<int>) {
    forall i, j :: 0 <= i < j < |s| ==> s[i] < s[j]
  }

  function Elems(s: seq<int>): (e: set<int>) {
    set x | x in s
  }

  // ----- Memory -----

  // The bytes an array of one dimension takes before its elements, and the most palloc gives.
  const ARR_OVERHEAD := 24
  const MAX_ALLOC := 0x3fff_ffff

  // The elements there is room for in what new_intArrayType allocates, or None when palloc refuses.
  function Room(num: int): (r: Option<nat>) {
    var nbytes := Wrap(ARR_OVERHEAD + 4 * num);
    if nbytes < 0 || nbytes > MAX_ALLOC then None
    else if nbytes < ARR_OVERHEAD then Some(0)
    else Some((nbytes - ARR_OVERHEAD) / 4)
  }

  const MAX_ELEMENTS := (MAX_ALLOC - ARR_OVERHEAD) / 4

  // There is room for n elements exactly up to that many, counted in 32 bits or not.
  lemma RoomFor(n: nat)
    ensures n <= MAX_ELEMENTS ==> Room(Wrap(n)) == Some(n)
    ensures n > MAX_ELEMENTS && Room(Wrap(n)).Some? ==> Room(Wrap(n)).value < n
  {
  }

  // What comes of making an array: the array, an error, or writing beyond what was allocated.
  datatype Made = Made(a: seq<int>) | Refused | Overrun

  // ----- isort -----

  // The last k elements are in order and no element before them is larger.
  predicate Settled(s: seq<int>, k: nat) {
    forall i, j :: 0 <= i < j < |s| && |s| - k <= j ==> s[i] <= s[j]
  }

  method Swap(a: array<int>, i: nat)
    requires 1 <= i < a.Length
    modifies a
    ensures a[..] == old(a[..])[i - 1 := old(a[i])][i := old(a[i - 1])]
    ensures multiset(a[..]) == multiset(old(a[..]))
  {
    var tmp := a[i - 1];
    a[i - 1] := a[i];
    a[i] := tmp;
  }

  // Inside a pass: the largest of the first cur elements has been carried to their end.
  predicate Carried(s: seq<int>, cur: nat, k: nat)
    requires 1 <= cur <= |s| && k < |s|
  {
    && Settled(s, k)
    && (forall i :: 0 <= i < cur ==> s[i] <= s[cur - 1])
    && (cur >= |s| - k ==> forall i :: 0 <= i < |s| - k ==> s[i] <= s[|s| - k - 1])
  }

  lemma CarriedSwap(s: seq<int>, cur: nat, k: nat)
    requires 1 <= cur < |s| && k < |s| && Carried(s, cur, k) && s[cur - 1] > s[cur]
    ensures cur < |s| - k && Carried(s[cur - 1 := s[cur]][cur := s[cur - 1]], cur + 1, k)
  {
  }

  lemma CarriedStay(s: seq<int>, cur: nat, k: nat)
    requires 1 <= cur < |s| && k < |s| && Carried(s, cur, k) && s[cur - 1] <= s[cur]
    ensures Carried(s, cur + 1, k)
    ensures SortedTo(s, cur) ==> SortedTo(s, cur + 1)
    ensures StrictTo(s, cur) && s[cur - 1] < s[cur] ==> StrictTo(s, cur + 1)
  {
  }

  predicate SortedTo(s: seq<int>, n: nat) {
    n <= |s| && forall i, j :: 0 <= i < j < n ==> s[i] <= s[j]
  }

  predicate StrictTo(s: seq<int>, n: nat) {
    n <= |s| && forall i, j :: 0 <= i < j < n ==> s[i] < s[j]
  }

  // As long as nothing was swapped the part behind is in order, and without repeats unless r.
  predicate Progress(s: seq<int>, n: nat, swapped: bool, r: bool) {
    !swapped ==> SortedTo(s, n) && (!r ==> StrictTo(s, n))
  }

  // Compare one pair of neighbours.
  method BubbleStep(a: array<int>, cur: nat, ghost k: nat, swapped0: bool, r0: bool) returns (swapped: bool, r: bool)
    requires 1 <= cur < a.Length && k < a.Length && Carried(a[..], cur, k)
    requires Progress(a[..], cur, swapped0, r0) && (swapped0 ==> k + 1 < a.Length)
    modifies a
    ensures multiset(a[..]) == multiset(old(a[..]))
    ensures Carried(a[..], cur + 1, k) && (swapped ==> k + 1 < a.Length)
    ensures Progress(a[..], cur + 1, swapped, r)
    ensures r ==> r0 || Repeats(multiset(a[..]))
  {
    swapped, r := swapped0, r0;
    if a[cur - 1] > a[cur] {
      CarriedSwap(a[..], cur, k);
      Swap(a, cur);
      swapped := true;
    } else {
      CarriedStay(a[..], cur, k);
      if !r && a[cur - 1] == a[cur] {
        TwiceRepeats(a[..], cur - 1, cur);
        r := true;
      }
    }
  }

  // One pass over the array; k is how many passes came before.
  method BubblePass(a: array<int>, ghost k: nat, r0: bool) returns (swapped: bool, r: bool)
    requires k < a.Length && Carried(a[..], 1, k)
    modifies a
    ensures multiset(a[..]) == multiset(old(a[..]))
    ensures Carried(a[..], a.Length, k) && (swapped ==> k + 1 < a.Length)
    ensures Progress(a[..], a.Length, swapped, r)
    ensures r ==> r0 || Repeats(multiset(a[..]))
  {
    swapped, r := false, r0;
    var cur := 1;
    while cur < a.Length
      invariant 1 <= cur <= a.Length
      invariant multiset(a[..]) == multiset(old(a[..]))
      invariant Carried(a[..], cur, k) && (swapped ==> k + 1 < a.Length)
      invariant Progress(a[..], cur, swapped, r)
      invariant r ==> r0 || Repeats(multiset(a[..]))
    {
      swapped, r := BubbleStep(a, cur, k, swapped, r);
      cur := cur + 1;
    }
  }

  lemma PassSettles(s: seq<int>, k: nat)
    requires 1 <= |s| && k < |s| && Carried(s, |s|, k)
    ensures Settled(s, k + 1)
  {
  }

  lemma PassStarts(s: seq<int>, k: nat)
    requires 1 <= |s| && k < |s| && Settled(s, k)
    ensures Carried(s, 1, k)
  {
  }

  ghost predicate Repeats(m: multiset<int>) {
    exists x :: x in m && m[x] >= 2
  }

  lemma TwiceRepeats(s: seq<int>, i: nat, j: nat)
    requires i < j < |s| && s[i] == s[j]
    ensures Repeats(multiset(s))
  {
    assert s == s[..j] + s[j..];
    assert s[i] in multiset(s[..j]) && s[j] in multiset(s[j..]);
    assert multiset(s)[s[i]] >= 2;
  }

  lemma {:induction false} StrictDoesNotRepeat(s: seq<int>)
    requires Strict(s)
    ensures !Repeats(multiset(s))
    ensures forall x :: x in multiset(s) ==> x in s
  {
    if s != [] {
      var n := |s| - 1;
      StrictDoesNotRepeat(s[..n]);
      assert s == s[..n] + [s[n]];
      assert s[n] !in s[..n];
    }
  }

  /** isort: the array in order, and whether some element occurs twice. */
  method Isort(a: array<int>) returns (r: bool)
    requires a.Length >= 2
    modifies a
    ensures Sorted(a[..]) && multiset(a[..]) == multiset(old(a[..]))
    ensures r <==> !Strict(a[..])
  {
    r := false;
    var swapped := true;
    ghost var k := 0;
    while swapped
      invariant 0 <= k <= a.Length && Settled(a[..], k)
      invariant multiset(a[..]) == multiset(old(a[..]))
      invariant Progress(a[..], a.Length, swapped, r)
      invariant r ==> Repeats(multiset(a[..]))
      invariant swapped ==> k < a.Length
      decreases swapped, a.Length - k
    {
      PassStarts(a[..], k);
      swapped, r := BubblePass(a, k, r);
      PassSettles(a[..], k);
      k := k + 1;
    }
    if Strict(a[..]) {
      StrictDoesNotRepeat(a[..]);
    }
  }

  // ----- _int_unique and PREPAREARR -----

  // s without repeats of the element just before.
  function Dedup(s: seq<int>): (d: seq<int>)
    ensures s != [] ==> d != [] && d[|d| - 1] == s[|s| - 1]
    ensures |d| <= |s|
  {
    if s == [] then []
    else
      var d, x := Dedup(s[..|s| - 1]), s[|s| - 1];
      if d != [] && d[|d| - 1] == x then d else d + [x]
  }

  lemma ElemsSnoc(s: seq<int>, x: int)
    ensures Elems(s + [x]) == Elems(s) + {x}
  {
  }

  lemma SortedSnoc(s: seq<int>, x: int)
    requires Sorted(s) && forall y :: y in s ==> y <= x
    ensures Sorted(s + [x])
  {
    assert forall i :: 0 <= i < |s| ==> s[i] in s;
  }

  lemma StrictSnoc(s: seq<int>, x: int)
    requires Strict(s) && (s != [] ==> s[|s| - 1] < x)
    ensures Strict(s + [x])
  {
  }

  lemma {:induction false} DedupIsStrict(s: seq<int>)
    requires Sorted(s)
    ensures Strict(Dedup(s)) && Elems(Dedup(s)) == Elems(s)
  {
    if s != [] {
      var init, x := s[..|s| - 1], s[|s| - 1];
      DedupIsStrict(init);
      ElemsSnoc(init, x);
      assert s == init + [x];
      assert init != [] ==> init[|init| - 1] <= x;
      if Dedup(s) != Dedup(init) {
        ElemsSnoc(Dedup(init), x);
        StrictSnoc(Dedup(init), x);
      }
    }
  }

  /** _int_unique: drop repeats of a sorted array in place; the first n elements remain. */
  method IntUnique(a: array<int>) returns (n: nat)
    requires Sorted(a[..])
    modifies a
    ensures n <= a.Length && Strict(a[..n]) && Elems(a[..n]) == Elems(old(a[..]))
  {
    ghost var s := a[..];
    DedupIsStrict(s);
    n := DropRepeats(a);
  }

  lemma DedupStep(s: seq<int>, n: nat)
    requires 0 < n < |s|
    ensures var d := Dedup(s[..n]); Dedup(s[..n + 1]) == if d[|d| - 1] == s[n] then d else d + [s[n]]
  {
    assert s[..n + 1][..n] == s[..n];
  }

  method DropRepeats(a: array<int>) returns (n: nat)
    modifies a
    ensures n <= a.Length && a[..n] == Dedup(old(a[..]))
  {
    var num := a.Length;
    ghost var s := a[..];
    if num < 2 {
      assert num == 1 ==> s[..0] == [] && Dedup(s) == [s[0]] == s;
      n := num;
      assert a[..n] == s;
      return;
    }
    var tmp, dr := 0, 0;
    while tmp < num
      invariant 0 <= dr <= tmp <= num
      invariant if tmp == 0 then a[..] == s else Kept(a[..], s, tmp, dr)
    {
      KeptStep(a[..], s, tmp, dr);
      if a[tmp] != a[dr] {
        dr := dr + 1;
        a[dr] := a[tmp];
      }
      tmp := tmp + 1;
    }
    assert s[..tmp] == s;
    n := dr + 1;
  }

  // a after tmp elements of s have been read and dr + 1 kept.
  predicate Kept(a: seq<int>, s: seq<int>, tmp: nat, dr: nat) {
    && dr < tmp <= |s| == |a|
    && a[..dr + 1] == Dedup(s[..tmp])
    && forall k :: tmp <= k < |s| ==> a[k] == s[k]
  }

  lemma KeptStep(a: seq<int>, s: seq<int>, tmp: nat, dr: nat)
    requires tmp < |s| && (if tmp == 0 then a == s && dr == 0 else Kept(a, s, tmp, dr))
    ensures if a[tmp] != a[dr] then dr + 1 <= tmp && Kept(a[dr + 1 := a[tmp]], s, tmp + 1, dr + 1)
            else Kept(a, s, tmp + 1, dr)
  {
    if tmp == 0 {
      assert s[..1][..0] == [] && Dedup(s[..1]) == [s[0]];
    } else {
      DedupStep(s, tmp);
      assert a[dr] == a[..dr + 1][dr];
      assert a[dr + 1 := a[tmp]][..dr + 2] == a[..dr + 1] + [a[tmp]];
    }
  }

  lemma SameElems(s: seq<int>, t: seq<int>)
    requires multiset(s) == multiset(t)
    ensures Elems(s) == Elems(t)
  {
    forall x ensures x in s <==> x in t {
      assert x in s <==> x in multiset(s);
      assert x in t <==> x in multiset(t);
    }
  }

  /** PREPAREARR: the elements of the array in strictly increasing order. */
  method Prepare(a: array<int>) returns (n: nat)
    modifies a
    ensures n <= a.Length && Strict(a[..n]) && Elems(a[..n]) == Elems(old(a[..]))
  {
    n := a.Length;
    assert a[..n] == a[..];
    if n > 1 {
      var r := Isort(a);
      SameElems(a[..], old(a[..]));
      if r {
        n := IntUnique(a);
      } else {
        assert a[..n] == a[..];
      }
    }
  }

  // ----- Merges -----

  /** inner_int_contains: does a contain every element of b?  Never true of an empty array. */
  method InnerContains(a: seq<int>, b: seq<int>) returns (r: bool)
    requires Sorted(a) && Strict(b)
    ensures r <==> a != [] && b != [] && Elems(b) <= Elems(a)
  {
    if a == [] || b == [] {
      return false;
    }
    var i, j, n := 0, 0, 0;
    while i < |a| && j < |b|
      invariant 0 <= i <= |a| && 0 <= j == n <= |b|
      invariant Elems(b[..j]) <= Elems(a)
      invariant j < |b| ==> forall k :: 0 <= k < i ==> a[k] < b[j]
    {
      if a[i] < b[j] {
        i := i + 1;
      } else if a[i] == b[j] {
        assert b[..j + 1] == b[..j] + [b[j]];
        n, i, j := n + 1, i + 1, j + 1;
      } else {
        break;
      }
    }
    assert b[..|b|] == b;
    if n < |b| {
      assert b[j] in Elems(b) && b[j] !in a;
    }
    r := n == |b|;
  }

  /** inner_int_overlap: do a and b have an element in common? */
  method InnerOverlap(a: seq<int>, b: seq<int>) returns (r: bool)
    requires Sorted(a) && Sorted(b)
    ensures r <==> !(Elems(a) !! Elems(b))
  {
    if a == [] || b == [] {
      return false;
    }
    var i, j := 0, 0;
    while i < |a| && j < |b|
      invariant 0 <= i <= |a| && 0 <= j <= |b|
      invariant forall k, m :: 0 <= k < |a| && 0 <= m < |b| && (k < i || m < j) ==> a[k] != b[m]
    {
      if a[i] < b[j] {
        i := i + 1;
      } else if a[i] == b[j] {
        assert a[i] in Elems(a) && a[i] in Elems(b);
        return true;
      } else {
        j := j + 1;
      }
    }
    return false;
  }

  // dr is the merge of the first i elements of a and the first j of b.
  ghost predicate Merged(a: seq<int>, b: seq<int>, i: nat, j: nat, dr: seq<int>) {
    && i <= |a| && j <= |b|
    && Sorted(dr) && Elems(dr) == Elems(a[..i]) + Elems(b[..j])
    && forall x :: x in dr ==> (i < |a| ==> x <= a[i]) && (j < |b| ==> x <= b[j])
  }

  lemma TakeLeft(a: seq<int>, b: seq<int>, i: nat, j: nat, dr: seq<int>)
    requires Sorted(a) && Merged(a, b, i, j, dr) && i < |a| && (j < |b| ==> a[i] <= b[j])
    ensures Merged(a, b, i + 1, j, dr + [a[i]])
  {
    ElemsSnoc(dr, a[i]);
    ElemsSnoc(a[..i], a[i]);
    SortedSnoc(dr, a[i]);
    assert a[..i + 1] == a[..i] + [a[i]];
  }

  lemma TakeRight(a: seq<int>, b: seq<int>, i: nat, j: nat, dr: seq<int>)
    requires Sorted(b) && Merged(a, b, i, j, dr) && j < |b| && (i < |a| ==> b[j] <= a[i])
    ensures Merged(a, b, i, j + 1, dr + [b[j]])
  {
    TakeLeft(b, a, j, i, dr);
  }

  lemma TakeBoth(a: seq<int>, b: seq<int>, i: nat, j: nat, dr: seq<int>)
    requires Sorted(a) && Sorted(b) && Merged(a, b, i, j, dr) && i < |a| && j < |b| && a[i] == b[j]
    ensures Merged(a, b, i + 1, j + 1, dr + [a[i]])
  {
    TakeLeft(a, b, i, j, dr);
    ElemsSnoc(b[..j], b[j]);
    assert b[..j + 1] == b[..j] + [b[j]];
    assert a[i] in Elems(a[..i + 1]) by {
      assert a[..i + 1][i] == a[i];
    }
  }

  // One step of the merge, as long as both arrays last.
  method MergeStep(a: seq<int>, b: seq<int>, i: nat, j: nat, dr: seq<int>) returns (i': nat, j': nat, dr': seq<int>)
    requires Sorted(a) && Sorted(b) && Merged(a, b, i, j, dr) && i < |a| && j < |b|
    ensures Merged(a, b, i', j', dr') && i' + j' > i + j
  {
    i', j' := i, j;
    if a[i] == b[j] {
      TakeBoth(a, b, i, j, dr);
      dr', i', j' := dr + [a[i]], i + 1, j + 1;
    } else if a[i] < b[j] {
      TakeLeft(a, b, i, j, dr);
      dr', i' := dr + [a[i]], i + 1;
    } else {
      TakeRight(a, b, i, j, dr);
      dr', j' := dr + [b[j]], j + 1;
    }
  }

  method Merge(a: seq<int>, b: seq<int>) returns (dr: seq<int>)
    requires Sorted(a) && Sorted(b)
    ensures Merged(a, b, |a|, |b|, dr)
  {
    var i: nat, j: nat := 0, 0;
    dr := [];
    while i < |a| && j < |b|
      invariant Merged(a, b, i, j, dr)
      decreases |a| - i + |b| - j
    {
      i, j, dr := MergeStep(a, b, i, j, dr);
    }
    while i < |a|
      invariant Merged(a, b, i, j, dr) && (i < |a| ==> j == |b|)
    {
      TakeLeft(a, b, i, j, dr);
      dr, i := dr + [a[i]], i + 1;
    }
    while j < |b|
      invariant Merged(a, b, i, j, dr) && i == |a|
    {
      TakeRight(a, b, i, j, dr);
      dr, j := dr + [b[j]], j + 1;
    }
  }

  /** inner_int_union: merge into an array with room for both, then drop repeats. */
  method InnerUnion(a: seq<int>, b: seq<int>) returns (r: Made)
    requires Sorted(a) && Sorted(b)
    ensures r.Made? <==> |a| + |b| <= MAX_ELEMENTS
    ensures r.Made? ==> Strict(r.a) && Elems(r.a) == Elems(a) + Elems(b)
  {
    RoomFor(|a| + |b|);
    var room := Room(Wrap(|a| + |b|));
    if room.None? {
      return Refused;
    }
    if room.value < |a| + |b| {
      return Overrun;
    }
    var dr := Merge(a, b);
    assert a[..|a|] == a && b[..|b|] == b;
    var arr := new int[|dr|](k requires 0 <= k < |dr| => dr[k]);
    assert arr[..] == dr;
    var n := IntUnique(arr);
    r := Made(arr[..n]);
  }

  /** checkcondition_arr: binary search for a value in a key. */
  method CheckConditionArr(a: seq<int>, v: int) returns (r: bool)
    requires Sorted(a)
    ensures r <==> v in a
  {
    var low, high := 0, |a|;
    while low < high
      invariant 0 <= low <= high <= |a|
      invariant forall k :: 0 <= k < low ==> a[k] < v
      invariant forall k :: high <= k < |a| ==> v < a[k]
    {
      var middle := low + (high - low) / 2;
      if a[middle] == v {
        return true;
      } else if a[middle] < v {
        low := middle + 1;
      } else {
        high := middle;
      }
    }
    return false;
  }
}
