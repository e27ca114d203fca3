/** Inner keys of intarray's GiST index: a key of 200 or more integers is stored as 100 ranges, made by
    closing the smallest gaps, and read back as the union of those ranges. */
module IntCompress {
  import opened Basics
  import opened IntTool

  const MAXNUMRANGE := 100

  // ----- Ranges -----

  // Ranges are stored as lo, hi, lo, hi, ...
  predicate Even(d: seq<int>) {
    |d| % 2 == 0
  }

  function Count(d: seq<int>): (m: nat)
    ensures Even(d) ==> |d| == 2 * m
  {
    |d| / 2
  }

  function Lo(d: seq<int>, j: nat): (x: int)
    requires j < Count(d)
  {
    d[2 * j]
  }

  function Hi(d: seq<int>, j: nat): (x: int)
    requires j < Count(d)
  {
    d[2 * j + 1]
  }

  // The ranges are proper, disjoint and in increasing order.
  predicate IsRanges(d: seq<int>) {
    && Even(d)
    && (forall j :: 0 <= j < Count(d) ==> Lo(d, j) <= Hi(d, j))
    && (forall i, j :: 0 <= i < j < Count(d) ==> Hi(d, i) < Lo(d, j))
  }

  predicate InRanges(d: seq<int>, x: int) {
    exists j :: 0 <= j < Count(d) && Lo(d, j) <= x <= Hi(d, j)
  }

  predicate Covers(d: seq<int>, key: seq<int>) {
    forall x :: x in key ==> InRanges(d, x)
  }

  // How many integers the ranges hold.
  function RangesSize(d: seq<int>): (n: int) {
    if |d| < 2 then 0 else RangesSize(d[..|d| - 2]) + d[|d| - 1] - d[|d| - 2] + 1
  }

  // ----- Ranges made of a key by cutting it -----

  // b marks where the pieces of a key of n elements begin and end: 0, some cuts, n.
  predicate Bounds(b: seq<nat>, n: nat) {
    && |b| >= 2 && b[0] == 0 && b[|b| - 1] == n
    && forall i, j :: 0 <= i < j < |b| ==> b[i] < b[j]
  }

  // d holds the first and the last element of each piece.
  predicate Pieces(d: seq<int>, key: seq<int>, b: seq<nat>) {
    && Bounds(b, |key|) && Even(d) && Count(d) == |b| - 1
    && forall j :: 0 <= j < Count(d) ==> Piece(d, key, b, j)
  }

  predicate Piece(d: seq<int>, key: seq<int>, b: seq<nat>, j: nat) {
    && j < Count(d) && j + 1 < |b| && b[j] < |key| && 0 < b[j + 1] <= |key|
    && Lo(d, j) == key[b[j]] && Hi(d, j) == key[b[j + 1] - 1]
  }

  function Gap(key: seq<int>, c: nat): (g: int)
    requires 1 <= c < |key|
  {
    key[c] - key[c - 1]
  }

  // No gap that was closed is larger, in 32-bit arithmetic, than one that was kept; bar is between.
  ghost predicate Threshold(key: seq<int>, b: seq<nat>, bar: int) {
    forall c :: 1 <= c < |key| ==> if c in b then Wrap(Gap(key, c)) >= bar else Wrap(Gap(key, c)) <= bar
  }

  // ----- g_int_compress -----

  // memmove: drop d[cand - 1] and d[cand] from the first len elements.
  method Close(d: array<int>, cand: nat, len: nat)
    requires 1 <= cand < len <= d.Length
    modifies d
    ensures d[..len - 2] == old(d[..cand - 1]) + old(d[cand + 1..len])
  {
    var i := cand + 1;
    while i < len
      invariant cand + 1 <= i <= len
      invariant forall k :: 0 <= k < cand - 1 ==> d[k] == old(d[k])
      invariant forall k :: cand - 1 <= k < i - 2 ==> d[k] == old(d[k + 2])
      invariant forall k :: i - 2 <= k < d.Length ==> d[k] == old(d[k])
    {
      d[i - 2] := d[i];
      i := i + 1;
    }
  }

  // The 32-bit difference between range j and the one before it.
  function Before(d: seq<int>, j: nat): (g: int)
    requires 1 <= j < Count(d)
  {
    Wrap(Lo(d, j) - Hi(d, j - 1))
  }

  // The smallest such difference.
  method SmallestGap(d: array<int>, len: nat, cand0: nat) returns (cand: nat, min: int)
    requires len <= d.Length && Even(d[..len])
    requires exists j :: 1 <= j < Count(d[..len]) && Before(d[..len], j) < 0x7fff_ffff
    ensures 2 <= cand < len && cand % 2 == 0 && min == Before(d[..len], cand / 2)
    ensures forall j :: 1 <= j < Count(d[..len]) ==> min <= Before(d[..len], j)
  {
    min, cand := 0x7fff_ffff, cand0;
    ghost var s := d[..len];
    var i := 2;
    while i < len
      invariant i % 2 == 0 && 2 <= i <= len + 2
      invariant forall j :: 1 <= j < i / 2 && j < Count(s) ==> min <= Before(s, j)
      invariant min < 0x7fff_ffff ==> 2 <= cand < len && cand % 2 == 0 && min == Before(s, cand / 2)
      invariant min <= 0x7fff_ffff
    {
      assert Before(s, i / 2) == Wrap(d[i] - d[i - 1]);
      if min > Wrap(d[i] - d[i - 1]) {
        min := Wrap(d[i] - d[i - 1]);
        cand := i;
      }
      i := i + 2;
    }
  }

  lemma ClosePiece(d: seq<int>, key: seq<int>, b: seq<nat>, j: nat)
    requires Pieces(d, key, b) && 1 <= j < Count(d)
    ensures Pieces(d[..2 * j - 1] + d[2 * j + 1..], key, b[..j] + b[j + 1..])
  {
    var b', d' := b[..j] + b[j + 1..], d[..2 * j - 1] + d[2 * j + 1..];
    forall k | 0 <= k < Count(d') ensures Piece(d', key, b', k) {
      if k < j - 1 {
        assert Piece(d, key, b, k);
      } else if k == j - 1 {
        assert Piece(d, key, b, k) && Piece(d, key, b, k + 1);
      } else {
        assert Piece(d, key, b, k + 1);
      }
    }
  }

  // A key of the index: strictly increasing int4 values.
  predicate IsKey(key: seq<int>) {
    Strict(key) && forall x :: x in key ==> IsInt4(x)
  }

  // Before each range lies the gap of the key at its cut.
  lemma BeforeIsGap(d: seq<int>, key: seq<int>, b: seq<nat>, j: nat)
    requires Pieces(d, key, b) && 1 <= j < Count(d)
    ensures 1 <= b[j] < |key| && Before(d, j) == Wrap(Gap(key, b[j]))
  {
    assert Piece(d, key, b, j) && Piece(d, key, b, j - 1);
  }

  // Of three gaps of a key at most two can be as large as 0x7fffffff.
  lemma SomeSmallGap(d: seq<int>, key: seq<int>, b: seq<nat>)
    requires IsKey(key) && Pieces(d, key, b) && Count(d) > 3
    ensures exists j :: 1 <= j < Count(d) && Before(d, j) < 0x7fff_ffff
  {
    BeforeIsGap(d, key, b, 1);
    BeforeIsGap(d, key, b, 2);
    BeforeIsGap(d, key, b, 3);
    var x, y, z := b[1], b[2], b[3];
    assert IsInt4(key[x - 1]) && IsInt4(key[z]);
    assert key[x] <= key[y - 1] && key[y] <= key[z - 1];
    assert key[x - 1] < key[x] && key[y - 1] < key[y] && key[z - 1] < key[z];
    if Before(d, 1) >= 0x7fff_ffff && Before(d, 2) >= 0x7fff_ffff {
      assert Gap(key, x) == 0x7fff_ffff && Gap(key, y) == 0x7fff_ffff;
      assert Gap(key, z) < 0x7fff_ffff;
    }
  }

  lemma RemovedOne(b: seq<nat>, j: nat, c: nat)
    requires j < |b|
    ensures c in b <==> c in b[..j] + b[j + 1..] || c == b[j]
  {
    assert b == b[..j] + [b[j]] + b[j + 1..];
  }

  lemma CloseKeepsThreshold(d: seq<int>, key: seq<int>, b: seq<nat>, bar: int, j: nat, min: int)
    requires Pieces(d, key, b) && Threshold(key, b, bar) && 1 <= j < Count(d) && min == Before(d, j)
    requires forall k :: 1 <= k < Count(d) ==> min <= Before(d, k)
    ensures Threshold(key, b[..j] + b[j + 1..], min)
  {
    var b' := b[..j] + b[j + 1..];
    BeforeIsGap(d, key, b, j);
    forall c | 1 <= c < |key|
      ensures if c in b' then Wrap(Gap(key, c)) >= min else Wrap(Gap(key, c)) <= min
    {
      RemovedOne(b, j, c);
      if c in b' {
        var k :| 0 <= k < |b| && b[k] == c;
        BeforeIsGap(d, key, b, k);
      }
    }
  }

  // The finest cutting: every element its own piece.
  function Finest(n: nat): (b: seq<nat>) {
    seq(n + 1, i requires 0 <= i <= n => i)
  }

  lemma FinestThreshold(key: seq<int>)
    ensures Threshold(key, Finest(|key|), -0x8000_0000)
  {
    forall c: nat | 1 <= c < |key| ensures c in Finest(|key|) {
      assert Finest(|key|)[c] == c;
    }
  }

  // dr[2 * i] = dr[2 * i + 1] = dr[i], from the end, in place.
  method Double(d: array<int>, len: nat, ghost key: seq<int>)
    requires len == |key| >= 1 && d.Length == 2 * len && d[..len] == key
    modifies d
    ensures Pieces(d[..], key, Finest(len))
  {
    var i: int := len - 1;
    assert forall k :: 0 <= k < len ==> d[k] == d[..len][k];
    while i >= 0
      invariant -1 <= i < len
      invariant forall k :: 0 <= k <= i ==> d[k] == key[k]
      invariant forall k: nat :: i < k < len ==> DoubledAt(d[..], key, k)
    {
      ghost var s := d[..];
      d[2 * i], d[2 * i + 1] := d[i], d[i];
      forall k: nat | i <= k < len ensures DoubledAt(d[..], key, k) {
        assert k > i ==> DoubledAt(s, key, k);
      }
      i := i - 1;
    }
    var b := Finest(len);
    forall k | 0 <= k < Count(d[..]) ensures Piece(d[..], key, b, k) {
      assert DoubledAt(d[..], key, k);
    }
  }

  predicate DoubledAt(d: seq<int>, key: seq<int>, k: nat) {
    k < |key| && 2 * k + 1 < |d| && d[2 * k] == key[k] && d[2 * k + 1] == key[k]
  }

  // Close the smallest gaps until MAXNUMRANGE ranges remain.
  method CloseGaps(d: array<int>, len0: nat, ghost key: seq<int>, ghost b0: seq<nat>)
    returns (len: nat, ghost b: seq<nat>, ghost bar: int)
    requires len0 <= d.Length && len0 >= 2 * MAXNUMRANGE && IsKey(key)
    requires Pieces(d[..len0], key, b0) && Threshold(key, b0, -0x8000_0000)
    modifies d
    ensures len == 2 * MAXNUMRANGE && len <= d.Length
    ensures Pieces(d[..len], key, b) && Threshold(key, b, bar)
  {
    len, b, bar := len0, b0, -0x8000_0000;
    var cand := 1;
    while len > 2 * MAXNUMRANGE
      invariant 2 * MAXNUMRANGE <= len <= d.Length
      invariant Pieces(d[..len], key, b) && Threshold(key, b, bar)
    {
      var min;
      ghost var s := d[..len];
      SomeSmallGap(s, key, b);
      cand, min := SmallestGap(d, len, cand);
      ghost var j := cand / 2;
      ClosePiece(s, key, b, j);
      CloseKeepsThreshold(s, key, b, bar, j, min);
      Close(d, cand, len);
      len := len - 2;
      b, bar := b[..j] + b[j + 1..], min;
      assert d[..len] == s[..2 * j - 1] + s[2 * j + 1..];
    }
  }

  // ----- The size of ranges, counted by gaps -----

  // What the gaps outside s add to the elements 0 .. n - 1 of a key when they are closed.
  function Closed(key: seq<int>, s: set<nat>, n: nat): (w: int)
    requires n <= |key|
  {
    if n <= 1 then 0 else Closed(key, s, n - 1) + if n - 1 in s then 0 else Gap(key, n - 1) - 1
  }

  function CutCount(s: set<nat>, n: nat): (k: nat) {
    if n <= 1 then 0 else CutCount(s, n - 1) + if n - 1 in s then 1 else 0
  }

  // One piece from m to n - 1.
  lemma {:induction false} ClosedPiece(key: seq<int>, s: set<nat>, m: nat, n: nat)
    requires m < n <= |key| && (m > 0 ==> m in s)
    requires forall c :: m < c < n ==> c !in s
    ensures Closed(key, s, n) == Closed(key, s, m) + key[n - 1] - key[m] + 1 - (n - m)
  {
    if n > m + 1 {
      ClosedPiece(key, s, m, n - 1);
    }
  }

  // The count only looks at cuts below n.
  lemma {:induction false} ClosedFrame(key: seq<int>, s: set<nat>, t: set<nat>, n: nat)
    requires n <= |key| && forall c :: 1 <= c < n ==> (c in s <==> c in t)
    ensures Closed(key, s, n) == Closed(key, t, n) && CutCount(s, n) == CutCount(t, n)
  {
    if n > 1 {
      ClosedFrame(key, s, t, n - 1);
    }
  }

  lemma {:induction false} CutCountPiece(s: set<nat>, m: nat, n: nat)
    requires 0 < m < n && m in s && forall c :: m < c < n ==> c !in s
    ensures CutCount(s, n) == CutCount(s, m) + 1
  {
    if n > m + 1 {
      CutCountPiece(s, m, n - 1);
    }
  }

  function SetOf(b: seq<nat>): (s: set<nat>) {
    set c | c in b
  }

  /** Ranges cut from a key hold its elements and what the closed gaps add. */
  lemma {:induction false} PiecesSize(d: seq<int>, key: seq<int>, b: seq<nat>)
    requires Pieces(d, key, b)
    ensures RangesSize(d) == |key| + Closed(key, SetOf(b), |key|)
    ensures CutCount(SetOf(b), |key|) == Count(d) - 1
    decreases |b|
  {
    var s, k, n := SetOf(b), |b| - 2, |key|;
    var m := b[k];
    assert Piece(d, key, b, k);
    assert forall c :: m < c < n ==> c !in s by {
      forall c | m < c < n && c in b ensures false {
        var i :| 0 <= i < |b| && b[i] == c;
      }
    }
    assert m in b;
    ClosedPiece(key, s, m, n);
    if k == 0 {
      assert RangesSize(d[..0]) == 0;
      assert CutCount(s, n) == 0 by {
        NoCuts(s, n);
      }
    } else {
      var d', key', b' := d[..|d| - 2], key[..m], b[..|b| - 1];
      forall j | 0 <= j < Count(d') ensures Piece(d', key', b', j) {
        assert Piece(d, key, b, j);
      }
      PiecesSize(d', key', b');
      CutCountPiece(s, m, n);
      forall c | 1 <= c < m ensures c in s <==> c in SetOf(b') {
        assert c in b ==> c in b' by {
          assert b == b' + [n];
        }
      }
      ClosedFrame(key', s, SetOf(b'), m);
      ClosedPrefixTo(key, m, s, m);
    }
  }

  lemma {:induction false} NoCuts(s: set<nat>, n: nat)
    requires forall c :: 0 < c < n ==> c !in s
    ensures CutCount(s, n) == 0
  {
    if n > 1 {
      NoCuts(s, n - 1);
    }
  }

  lemma {:induction false} ClosedPrefixTo(key: seq<int>, m: nat, s: set<nat>, n: nat)
    requires n <= m <= |key|
    ensures Closed(key[..m], s, n) == Closed(key, s, n)
  {
    if n > 1 {
      ClosedPrefixTo(key, m, s, n - 1);
    }
  }

  // ----- No cover is smaller -----

  lemma {:induction false} SizeNonNegative(d: seq<int>)
    requires IsRanges(d)
    ensures RangesSize(d) >= 0
  {
    if |d| >= 2 {
      DropLastRange(d);
      SizeNonNegative(d[..|d| - 2]);
    }
  }

  lemma DropLastRange(d: seq<int>)
    requires IsRanges(d) && |d| >= 2
    ensures var d', k := d[..|d| - 2], Count(d) - 1;
            && IsRanges(d') && Count(d') == k
            && RangesSize(d) == RangesSize(d') + Hi(d, k) - Lo(d, k) + 1 && Lo(d, k) <= Hi(d, k)
            && forall x :: InRanges(d, x) <==> InRanges(d', x) || Lo(d, k) <= x <= Hi(d, k)
  {
    var d', k := d[..|d| - 2], Count(d) - 1;
    assert forall j :: 0 <= j < k ==> Lo(d', j) == Lo(d, j) && Hi(d', j) == Hi(d, j);
    forall x ensures InRanges(d, x) <==> InRanges(d', x) || Lo(d, k) <= x <= Hi(d, k) {
      if InRanges(d', x) {
        var j :| 0 <= j < Count(d') && Lo(d', j) <= x <= Hi(d', j);
        assert Lo(d, j) <= x <= Hi(d, j);
      }
      if InRanges(d, x) {
        var j :| 0 <= j < Count(d) && Lo(d, j) <= x <= Hi(d, j);
        assert j < k ==> Lo(d', j) <= x <= Hi(d', j);
      }
    }
  }

  // The keys below the last range are covered by the ranges before it, the others by it.
  lemma SplitByLastRange(d: seq<int>, key: seq<int>) returns (m: nat)
    requires IsRanges(d) && Covers(d, key) && Strict(key) && |d| >= 2
    ensures m <= |key| && Covers(d[..|d| - 2], key[..m])
    ensures m < |key| ==> Lo(d, Count(d) - 1) <= key[m] && key[|key| - 1] <= Hi(d, Count(d) - 1)
  {
    var k := Count(d) - 1;
    var lo := Lo(d, k);
    DropLastRange(d);
    m := 0;
    while m < |key| && key[m] < lo
      invariant 0 <= m <= |key|
      invariant forall c :: 0 <= c < m ==> key[c] < lo
    {
      m := m + 1;
    }
    forall x | x in key[..m] ensures InRanges(d[..|d| - 2], x) {
      assert x in key && InRanges(d, x);
    }
    if m < |key| {
      var x := key[|key| - 1];
      assert x in key && InRanges(d, x) && lo <= x;
      assert forall j :: 0 <= j < k ==> Hi(d, j) < Lo(d, k);
    }
  }

  lemma CoverSize(d: seq<int>, key: seq<int>) returns (u: set<nat>)
    requires IsRanges(d) && Covers(d, key) && Strict(key) && key != []
    ensures RangesSize(d) >= |key| + Closed(key, u, |key|)
    ensures CutCount(u, |key|) <= Count(d) - 1
    decreases |d|
  {
    var n := |key|;
    assert key[0] in key && InRanges(d, key[0]);
    DropLastRange(d);
    var d' := d[..|d| - 2];
    var m := SplitByLastRange(d, key);
    if m == n {
      assert key[..m] == key;
      u := CoverSize(d', key);
    } else if m == 0 {
      u := {};
      SizeNonNegative(d');
      ClosedPiece(key, u, 0, n);
      NoCuts(u, n);
    } else {
      var v := CoverSize(d', key[..m]);
      u := (set c | c in v && c < m) + {m};
      ClosedPrefixTo(key, m, v, m);
      ClosedFrame(key, u, v, m);
      ClosedPiece(key, u, m, n);
      CutCountPiece(u, m, n);
    }
  }

  // Closing the gaps outside s, the small ones, costs no more than closing those outside u.
  lemma {:induction false} Exchange(key: seq<int>, s: set<nat>, u: set<nat>, bar: int, n: nat)
    requires n <= |key|
    requires forall c :: 1 <= c < n ==> if c in s then Gap(key, c) >= bar else Gap(key, c) <= bar
    ensures Closed(key, s, n) - Closed(key, u, n) <= (bar - 1) * (CutCount(u, n) - CutCount(s, n))
  {
    if n > 1 {
      Exchange(key, s, u, bar, n - 1);
      var t, k := bar - 1, CutCount(u, n - 1) - CutCount(s, n - 1);
      assert t * (k + 1) == t * k + t && t * (k - 1) == t * k - t;
    }
  }

  // d is at most as large as any cover of the key by as many ranges.
  ghost predicate Minimal(d: seq<int>, key: seq<int>) {
    forall l :: IsRanges(l) && Covers(l, key) && Count(l) <= Count(d) ==> RangesSize(d) <= RangesSize(l)
  }

  // No gap of the key overflows a 32-bit difference.
  predicate GapsFit(key: seq<int>) {
    forall c :: 1 <= c < |key| ==> Gap(key, c) < 0x8000_0000
  }

  lemma GapsArePositive(key: seq<int>, c: nat)
    requires IsKey(key) && 1 <= c < |key|
    ensures 1 <= Gap(key, c) < 0x1_0000_0000
  {
    assert key[c] in key && key[c - 1] in key;
  }

  lemma FittingGapsAreMinimal(d: seq<int>, key: seq<int>, b: seq<nat>, bar: int)
    requires IsKey(key) && Pieces(d, key, b) && Threshold(key, b, bar) && GapsFit(key) && Count(d) < |key|
    ensures Minimal(d, key)
  {
    var s, n := SetOf(b), |key|;
    PiecesSize(d, key, b);
    assert bar >= 1 by {
      var c := SomeClosedGap(d, key, b);
      GapsArePositive(key, c);
    }
    forall c | 1 <= c < n ensures if c in s then Gap(key, c) >= bar else Gap(key, c) <= bar {
      GapsArePositive(key, c);
    }
    forall l | IsRanges(l) && Covers(l, key) && Count(l) <= Count(d) ensures RangesSize(d) <= RangesSize(l) {
      AtLeastAsLarge(l, key, s, bar);
    }
  }

  lemma AtLeastAsLarge(l: seq<int>, key: seq<int>, s: set<nat>, bar: int)
    requires IsRanges(l) && Covers(l, key) && Strict(key) && key != [] && bar >= 1
    requires forall c :: 1 <= c < |key| ==> if c in s then Gap(key, c) >= bar else Gap(key, c) <= bar
    requires Count(l) - 1 <= CutCount(s, |key|)
    ensures RangesSize(l) >= |key| + Closed(key, s, |key|)
  {
    var u := CoverSize(l, key);
    Exchange(key, s, u, bar, |key|);
    NotPositive(bar - 1, CutCount(u, |key|) - CutCount(s, |key|));
  }

  lemma NotPositive(t: int, k: int)
    requires t >= 0 >= k
    ensures t * k <= 0
  {
  }

  lemma SomeClosedGap(d: seq<int>, key: seq<int>, b: seq<nat>) returns (c: nat)
    requires Pieces(d, key, b) && Count(d) < |key|
    ensures 1 <= c < |key| && c !in b
  {
    PiecesSize(d, key, b);
    if forall c :: 1 <= c < |key| ==> c in SetOf(b) {
      AllCuts(SetOf(b), |key|);
      assert false;
    }
    c :| 1 <= c < |key| && c !in SetOf(b);
  }

  lemma {:induction false} AllCuts(s: set<nat>, n: nat)
    requires n >= 1 && forall c :: 1 <= c < n ==> c in s
    ensures CutCount(s, n) == n - 1
  {
    if n > 1 {
      AllCuts(s, n - 1);
    }
  }

  // ----- A gap that overflows is closed first, and the result is not minimal -----

  // The cuts of s below n in order.
  function Listing(s: set<nat>, n: nat): (b: seq<nat>)
    ensures |b| == CutCount(s, n)
    ensures forall c :: c in b <==> 1 <= c < n && c in s
    ensures forall i, j :: 0 <= i < j < |b| ==> b[i] < b[j]
  {
    if n <= 1 then []
    else
      var l := Listing(s, n - 1);
      assert forall i :: 0 <= i < |l| ==> l[i] in l;
      if n - 1 in s then l + [n - 1] else l
  }

  // The ranges between the cuts of s.
  function CutAt(key: seq<int>, s: set<nat>): (b: seq<nat>)
    requires key != []
    ensures Bounds(b, |key|) && |b| == CutCount(s, |key|) + 2
    ensures forall c :: 1 <= c < |key| ==> (c in b <==> c in s)
  {
    var l := Listing(s, |key|);
    var b := [0] + l + [|key|];
    assert forall i :: 0 <= i < |l| ==> l[i] in l;
    b
  }

  function RangesOf(key: seq<int>, b: seq<nat>): (d: seq<int>)
    requires Bounds(b, |key|)
    ensures Pieces(d, key, b)
  {
    var d := seq(2 * (|b| - 1), i requires 0 <= i < 2 * (|b| - 1) =>
      BoundsInside(b, |key|, i / 2);
      if i % 2 == 0 then key[b[i / 2]] else key[b[i / 2 + 1] - 1]);
    assert forall j :: 0 <= j < Count(d) ==> Piece(d, key, b, j) by {
      forall j | 0 <= j < Count(d) ensures Piece(d, key, b, j) {
        BoundsInside(b, |key|, j);
      }
    }
    d
  }

  lemma BoundsInside(b: seq<nat>, n: nat, j: nat)
    requires Bounds(b, n) && j < |b| - 1
    ensures b[j] < n && 0 < b[j + 1] <= n
  {
    assert b[j] < b[|b| - 1];
    assert j + 1 < |b| - 1 ==> b[j + 1] < b[|b| - 1];
  }

  /** Ranges cut from a key are proper, disjoint, in order, and cover it. */
  lemma PiecesCover(d: seq<int>, key: seq<int>, b: seq<nat>)
    requires Strict(key) && Pieces(d, key, b)
    ensures IsRanges(d) && Covers(d, key)
  {
    forall j | 0 <= j < Count(d) ensures Lo(d, j) <= Hi(d, j) {
      assert Piece(d, key, b, j);
    }
    forall i, j | 0 <= i < j < Count(d) ensures Hi(d, i) < Lo(d, j) {
      assert Piece(d, key, b, i) && Piece(d, key, b, j);
      assert i + 1 < j ==> b[i + 1] < b[j];
    }
    forall x | x in key ensures InRanges(d, x) {
      var c :| 0 <= c < |key| && key[c] == x;
      var j := 0;
      while b[j + 1] <= c
        invariant 0 <= j < |b| - 1 && b[j] <= c
        decreases |b| - j
      {
        j := j + 1;
      }
      assert Piece(d, key, b, j);
      assert Lo(d, j) <= x <= Hi(d, j);
    }
  }

  lemma PiecesAreOfKey(d: seq<int>, key: seq<int>, b: seq<nat>)
    requires Pieces(d, key, b)
    ensures Elems(d) <= Elems(key)
  {
    forall x | x in d ensures x in key {
      var i :| 0 <= i < |d| && d[i] == x;
      assert Piece(d, key, b, i / 2);
      assert i == 2 * (i / 2) || i == 2 * (i / 2) + 1;
    }
  }

  lemma {:induction false} ClosedSwap(key: seq<int>, s: set<nat>, c: nat, k: nat, n: nat)
    requires n <= |key| && c !in s && k in s && 1 <= c < |key| && 1 <= k < |key|
    ensures Closed(key, s - {k} + {c}, n) == Closed(key, s, n) + (if k < n then Gap(key, k) - 1 else 0)
                                             - (if c < n then Gap(key, c) - 1 else 0)
    ensures CutCount(s - {k} + {c}, n) == CutCount(s, n) - (if k < n then 1 else 0) + (if c < n then 1 else 0)
  {
    if n > 1 {
      ClosedSwap(key, s, c, k, n - 1);
    }
  }

  // Two different gaps of a key add up to less than the whole range of int4.
  lemma TwoGaps(key: seq<int>, c: nat, k: nat)
    requires IsKey(key) && 1 <= c < k < |key|
    ensures Gap(key, c) + Gap(key, k) < 0x1_0000_0000
  {
    assert key[c - 1] in key && key[k] in key && key[c] <= key[k - 1];
  }

  lemma WideGapIsClosed(d: seq<int>, key: seq<int>, b: seq<nat>, bar: int, c: nat)
    requires IsKey(key) && Pieces(d, key, b) && Threshold(key, b, bar) && Count(d) < |key|
    requires 1 <= c < |key| && Gap(key, c) >= 0x8000_0000
    ensures c !in b
  {
    var e := SomeClosedGap(d, key, b);
    GapsArePositive(key, c);
    GapsArePositive(key, e);
    if c in b {
      assert Wrap(Gap(key, e)) <= bar <= Wrap(Gap(key, c)) < 0;
      TwoGaps(key, if c < e then c else e, if c < e then e else c);
      assert false;
    }
  }

  lemma WideGapIsNotMinimal(d: seq<int>, key: seq<int>, b: seq<nat>, bar: int, c: nat)
    requires IsKey(key) && Pieces(d, key, b) && Threshold(key, b, bar) && 1 < Count(d) < |key|
    requires 1 <= c < |key| && Gap(key, c) >= 0x8000_0000
    ensures !Minimal(d, key)
  {
    var s, n, k := SetOf(b), |key|, b[1];
    WideGapIsClosed(d, key, b, bar, c);
    assert Piece(d, key, b, 1);
    TwoGaps(key, if c < k then c else k, if c < k then k else c);
    var t := s - {k} + {c};
    ClosedSwap(key, s, c, k, n);
    var b' := CutAt(key, t);
    var l := RangesOf(key, b');
    PiecesSize(d, key, b);
    PiecesSize(l, key, b');
    ClosedFrame(key, SetOf(b'), t, n);
    PiecesCover(l, key, b');
  }

  lemma {:induction false} ClosedAtLeast(key: seq<int>, s: set<nat>, c: nat, n: nat)
    requires IsKey(key) && n <= |key|
    ensures Closed(key, s, n) >= if 1 <= c < n && c !in s then Gap(key, c) - 1 else 0
  {
    if n > 1 {
      ClosedAtLeast(key, s, c, n - 1);
      GapsArePositive(key, n - 1);
    }
  }

  // A closed gap that wraps makes the ranges hold more than 2^31 integers.
  lemma WideGapIsHuge(d: seq<int>, key: seq<int>, b: seq<nat>, bar: int, c: nat)
    requires IsKey(key) && Pieces(d, key, b) && Threshold(key, b, bar) && 1 < Count(d) < |key|
    requires 1 <= c < |key| && Gap(key, c) >= 0x8000_0000
    ensures RangesSize(d) > 0x8000_0000
  {
    WideGapIsClosed(d, key, b, bar, c);
    ClosedAtLeast(key, SetOf(b), c, |key|);
    PiecesSize(d, key, b);
  }

  // The last range ends where the key ends.
  lemma LastIsKept(d: seq<int>, key: seq<int>)
    requires IsKey(key) && key != [] && IsRanges(d) && Covers(d, key) && Elems(d) <= Elems(key)
    ensures d != [] && d[|d| - 1] == key[|key| - 1]
  {
    var x := key[|key| - 1];
    assert x in key && InRanges(d, x);
    var j :| 0 <= j < Count(d) && Lo(d, j) <= x <= Hi(d, j);
    var last := Count(d) - 1;
    assert Hi(d, last) in Elems(d) && Hi(d, j) in Elems(d);
  }

  // An array twice as long can be had for a key of n elements, if it needs one.
  predicate Compressible(n: nat) {
    n < 2 * MAXNUMRANGE || 2 * n <= MAX_ELEMENTS
  }

  /** What is stored of a key.  Short keys are kept; a key of 200 or more elements becomes exactly 100 proper,
      disjoint, increasing ranges that cover it and end where it ends.  They are as small as 100 ranges can
      be if and only if no gap of the key overflows a 32-bit difference. */
  ghost predicate Compressed(key: seq<int>, r: seq<int>) {
    && Elems(r) <= Elems(key) && (key != [] ==> r != [] && r[|r| - 1] == key[|key| - 1])
    && if |key| < 2 * MAXNUMRANGE then r == key
       else
         && |r| == 2 * MAXNUMRANGE && IsRanges(r) && Covers(r, key) && (Minimal(r, key) <==> GapsFit(key))
         && (!GapsFit(key) ==> RangesSize(r) > 0x8000_0000)
  }

  /** g_int_compress of an inner key, which needs an array twice as long as a key of 200 or more elements. */
  method Compress(key: seq<int>) returns (r: Made)
    requires IsKey(key)
    ensures r.Made? <==> Compressible(|key|)
    ensures |key| < 2 * MAXNUMRANGE ==> r == Made(key)
    ensures r.Made? ==> Compressed(key, r.a)
  {
    if |key| < 2 * MAXNUMRANGE {
      return Made(key);
    }
    RoomFor(2 * |key|);
    var room := Room(Wrap(2 * |key|));
    if room.None? {
      return Refused;
    }
    if room.value < 2 * |key| {
      return Overrun;
    }
    var a := CloseToRanges(key);
    r := Made(a);
  }

  // The loops that double the key and close its gaps, in an array twice as long.
  method CloseToRanges(key: seq<int>) returns (r: seq<int>)
    requires IsKey(key) && |key| >= 2 * MAXNUMRANGE
    ensures Compressed(key, r)
  {
    var len := |key|;
    var d := new int[2 * len](i => if 0 <= i < |key| then key[i] else 0);
    assert d[..len] == key;
    Double(d, len, key);
    ghost var b, bar;
    assert d[..2 * len] == d[..];
    FinestThreshold(key);
    len, b, bar := CloseGaps(d, 2 * len, key, Finest(len));
    r := d[..len];
    PiecesCover(r, key, b);
    PiecesAreOfKey(r, key, b);
    LastIsKept(r, key);
    if GapsFit(key) {
      FittingGapsAreMinimal(r, key, b, bar);
    } else {
      var c :| 1 <= c < |key| && Gap(key, c) >= 0x8000_0000;
      WideGapIsNotMinimal(r, key, b, bar, c);
      WideGapIsHuge(r, key, b, bar, c);
    }
  }

  // 200 integers with a gap before the second that does not fit.
  const WIDE_KEY: seq<int> := seq(2 * MAXNUMRANGE, i => if i == 0 then -0x8000_0000 else i)

  /** The ranges of a key with a wide gap are not the smallest: compressing the least int4 and 1 .. 199. */
  method CompressWide() returns (r: Made)
    ensures IsKey(WIDE_KEY) && !GapsFit(WIDE_KEY) && r.Made? && |r.a| == 2 * MAXNUMRANGE && Covers(r.a, WIDE_KEY)
    ensures !Minimal(r.a, WIDE_KEY) && RangesSize(r.a) > 0x8000_0000
  {
    assert Gap(WIDE_KEY, 1) == 0x8000_0001;
    r := Compress(WIDE_KEY);
  }

  // ----- g_int_decompress -----

  /** internal_size: how many elements a compressed key has, as a 32-bit sum. */
  method InternalSize(a: seq<int>) returns (size: int)
    requires IsRanges(a)
    ensures size == Wrap(RangesSize(a))
  {
    size := 0;
    var i := 0;
    assert a[..0] == [];
    while i < |a|
      invariant 0 <= i <= |a| && i % 2 == 0
      invariant size == Wrap(RangesSize(a[..i]))
    {
      assert a[..i + 2][..i] == a[..i];
      assert i > 0 ==> Hi(a, i / 2 - 1) < Lo(a, i / 2);
      if i == 0 || a[i] != a[i - 1] {
        WrapAdds(RangesSize(a[..i]), a[i + 1] - a[i] + 1);
        size := Wrap(size + (a[i + 1] - a[i] + 1));
      }
      i := i + 2;
    }
    assert a[..i] == a;
  }

  // lo, lo + 1, ..., hi - 1
  function Run(lo: int, hi: int): (r: seq<int>)
    requires lo <= hi
    ensures |r| == hi - lo
    ensures forall k :: 0 <= k < |r| ==> r[k] == lo + k
  {
    seq(hi - lo, k requires 0 <= k => lo + k)
  }

  // All the integers of the ranges, in order.
  function Expand(d: seq<int>): (r: seq<int>)
    requires IsRanges(d)
  {
    if |d| < 2 then []
    else
      DropLastRange(d);
      var k := Count(d) - 1;
      Expand(d[..|d| - 2]) + Run(Lo(d, k), Hi(d, k) + 1)
  }

  lemma RunHolds(lo: int, hi: int)
    requires lo <= hi
    ensures Strict(Run(lo, hi)) && forall x :: x in Run(lo, hi) <==> lo <= x < hi
  {
    forall x ensures x in Run(lo, hi) <==> lo <= x < hi {
      assert lo <= x < hi ==> Run(lo, hi)[x - lo] == x;
    }
  }

  lemma StrictConcat(e: seq<int>, r: seq<int>)
    requires Strict(e) && Strict(r) && (e != [] && r != [] ==> e[|e| - 1] < r[0])
    ensures Strict(e + r)
  {
    assert forall i :: 0 <= i < |e| ==> e[i] <= e[|e| - 1];
    assert forall i :: 0 <= i < |r| ==> r[0] <= r[i];
  }

  /** A decompressed key is strictly increasing, has internal_size elements, and holds exactly the
      integers of the ranges. */
  lemma {:induction false} ExpandIsUnion(d: seq<int>)
    requires IsRanges(d)
    ensures Strict(Expand(d)) && |Expand(d)| == RangesSize(d)
    ensures forall x :: x in Expand(d) <==> InRanges(d, x)
    ensures d != [] ==> Expand(d) != [] && Expand(d)[|Expand(d)| - 1] == d[|d| - 1]
    decreases |d|
  {
    if |d| >= 2 {
      var d', k := d[..|d| - 2], Count(d) - 1;
      DropLastRange(d);
      ExpandIsUnion(d');
      var lo, hi := Lo(d, k), Hi(d, k);
      var e, r := Expand(d'), Run(lo, hi + 1);
      RunHolds(lo, hi + 1);
      if k > 0 {
        assert d'[|d'| - 1] == Hi(d, k - 1) < lo;
      } else {
        assert d' == [];
      }
      StrictConcat(e, r);
    }
  }

  // A key is read back if it is short, or if there is room for it and it stops before the last int4,
  // which the loop counter cannot pass.
  predicate Readable(din: seq<int>)
    requires |din| >= 2 * MAXNUMRANGE ==> IsRanges(din)
  {
    |din| < 2 * MAXNUMRANGE || (RangesSize(din) <= MAX_ELEMENTS && din[|din| - 1] != 0x7fff_ffff)
  }

  /** g_int_decompress: the two loops write the expansion if and only if the key is readable. */
  method Decompress(din: seq<int>) returns (r: Made)
    requires |din| >= 2 * MAXNUMRANGE ==> IsRanges(din)
    requires forall x :: x in din ==> IsInt4(x)
    ensures r.Made? <==> Readable(din)
    ensures r.Made? ==> r.a == if |din| < 2 * MAXNUMRANGE then din else Expand(din)
  {
    if |din| < 2 * MAXNUMRANGE {
      return Made(din);
    }
    var lenr := InternalSize(din);
    ExpandIsUnion(din);
    RoomFor(RangesSize(din));
    var room := Room(lenr);
    if room.None? {
      return Refused;
    }
    r := Unpack(din, room.value);
  }

  // The outer loop, with room for so many elements.
  method Unpack(din: seq<int>, room: nat) returns (r: Made)
    requires IsRanges(din) && din != [] && forall x :: x in din ==> IsInt4(x)
    ensures r.Made? <==> RangesSize(din) <= room && din[|din| - 1] != 0x7fff_ffff
    ensures r.Made? ==> r.a == Expand(din)
  {
    var dr := new int[room];
    var n: nat, i: nat := 0, 0;
    assert din[..0] == [];
    while i < |din|
      invariant 0 <= i <= |din| && i % 2 == 0
      invariant IsRanges(din[..i]) && n <= room && dr[..n] == Expand(din[..i])
      invariant i > 0 ==> din[i - 1] != 0x7fff_ffff
    {
      ExpandStep(din, i);
      assert i > 0 ==> dr[n - 1] == Expand(din[..i])[n - 1];
      assert din[i] in din && din[i + 1] in din;
      var ok;
      n, ok := WriteRun(dr, n, din[i], din[i + 1], i);
      if !ok {
        LastRangeEnds(din, i);
        return Overrun;
      }
      i := i + 2;
    }
    assert din[..i] == din;
    ExpandIsUnion(din);
    r := Made(dr[..n]);
  }

  // Only the last range can end at the last int4.
  lemma LastRangeEnds(d: seq<int>, i: nat)
    requires IsRanges(d) && i % 2 == 0 && i + 2 <= |d| && forall x :: x in d ==> IsInt4(x)
    ensures d[i + 1] == 0x7fff_ffff ==> i + 2 == |d|
  {
    if i + 2 < |d| {
      assert Hi(d, i / 2) < Lo(d, i / 2 + 1);
      assert d[i + 2] in d;
    }
  }

  // A key that can be stored as ranges and read back.
  ghost predicate Storable(key: seq<int>)
    requires key != []
  {
    && Compressible(|key|) && GapsFit(key) && key[|key| - 1] != 0x7fff_ffff
    && exists l :: IsRanges(l) && Covers(l, key) && Count(l) <= MAXNUMRANGE && RangesSize(l) <= MAX_ELEMENTS
  }

  /** g_int_decompress after g_int_compress: a short key comes back as it was.  A longer one comes back,
      with integers added between its own, if and only if an array twice as long can be had, it stops before
      the last int4, none of its gaps wraps, and 100 ranges small enough for memory can cover it. */
  method Restore(key: seq<int>) returns (r: Made)
    requires IsKey(key)
    ensures |key| < 2 * MAXNUMRANGE ==> r == Made(key)
    ensures |key| >= 2 * MAXNUMRANGE ==> (r.Made? <==> Storable(key))
    ensures r.Made? ==> Strict(r.a) && Elems(key) <= Elems(r.a)
  {
    r := Compress(key);
    if !r.Made? {
      return;
    }
    var stored := r.a;
    assert forall x :: x in stored ==> x in Elems(stored);
    assert forall x :: x in Elems(key) ==> x in key;
    r := Decompress(stored);
    if |key| >= 2 * MAXNUMRANGE {
      ExpandIsUnion(stored);
      if r.Made? {
        forall x | x in Elems(key) ensures x in Elems(r.a) {
          assert InRanges(stored, x);
        }
      }
    }
  }

  // The 200 largest integers.
  const TOP_KEY: seq<int> := seq(2 * MAXNUMRANGE, i => 0x8000_0000 - 2 * MAXNUMRANGE + i)

  /** A key with the largest int4 does not come back, however small it is. */
  method RestoreTop() returns (r: Made)
    ensures IsKey(TOP_KEY) && GapsFit(TOP_KEY) && !r.Made?
  {
    r := Restore(TOP_KEY);
  }

  // 0 .. 199999999
  const HUGE_KEY: seq<int> := seq(200_000_000, i => i)

  /** A key of 200000000 integers without a gap does not come back, although one range holds it and would fit. */
  method RestoreHuge() returns (r: Made)
    ensures IsKey(HUGE_KEY) && GapsFit(HUGE_KEY) && Covers([0, 199_999_999], HUGE_KEY)
    ensures RangesSize([0, 199_999_999]) <= MAX_ELEMENTS && !r.Made?
  {
    var one := [0, 199_999_999];
    assert Lo(one, 0) == 0 && Hi(one, 0) == 199_999_999;
    forall x | x in HUGE_KEY ensures InRanges(one, x) {
      assert Lo(one, 0) <= x <= Hi(one, 0);
    }
    assert RangesSize(one) == 200_000_000 by {
      assert one[..0] == [];
    }
    r := Restore(HUGE_KEY);
  }

  lemma ExpandStep(d: seq<int>, i: nat)
    requires IsRanges(d) && i % 2 == 0 && i + 2 <= |d|
    ensures IsRanges(d[..i]) && IsRanges(d[..i + 2]) && d[i] <= d[i + 1]
    ensures var e := Expand(d[..i]);
            && Expand(d[..i + 2]) == e + Run(d[i], d[i + 1] + 1)
            && |e| + (d[i + 1] - d[i] + 1) <= RangesSize(d)
            && (i > 0 ==> e != [] && e[|e| - 1] < d[i])
  {
    RangesPrefix(d, i);
    RangesPrefix(d, i + 2);
    ExpandIsUnion(d[..i]);
    ExpandIsUnion(d[..i + 2]);
    assert d[..i + 2][..i] == d[..i] && Lo(d, i / 2) == d[i] && Hi(d, i / 2) == d[i + 1];
    if i > 0 {
      assert Hi(d, i / 2 - 1) == d[i - 1] < d[i];
    }
  }

  lemma {:induction false} RangesPrefix(d: seq<int>, n: nat)
    requires IsRanges(d) && n <= |d| && n % 2 == 0
    ensures IsRanges(d[..n]) && RangesSize(d[..n]) <= RangesSize(d)
    decreases |d|
  {
    if n < |d| {
      DropLastRange(d);
      RangesPrefix(d[..|d| - 2], n);
      assert d[..|d| - 2][..n] == d[..n];
    } else {
      assert d[..n] == d;
    }
  }

  // The inner loop: write lo .. hi unless it repeats the last element written.  The counter wraps after
  // the last int4, and a write beyond the array ends it.
  method WriteRun(dr: array<int>, n0: nat, lo: int, hi: int, i: nat) returns (n: nat, ok: bool)
    requires lo <= hi && n0 <= dr.Length && IsInt4(lo) && IsInt4(hi)
    requires i > 0 ==> n0 > 0 && dr[n0 - 1] < lo
    modifies dr
    ensures ok <==> n0 + (hi - lo + 1) <= dr.Length && hi != 0x7fff_ffff
    ensures ok ==> n == n0 + (hi - lo + 1) && dr[..n] == old(dr[..n0]) + Run(lo, hi + 1)
  {
    n := n0;
    var j := lo;
    while j <= hi
      invariant n0 <= n <= dr.Length && IsInt4(j)
      invariant hi != 0x7fff_ffff || n - n0 <= hi - lo ==> j == lo + (n - n0) && j <= hi + 1
      invariant hi != 0x7fff_ffff ==> dr[..n] == old(dr[..n0]) + Run(lo, j)
      invariant i > 0 ==> n > 0 && dr[n - 1] != j
      decreases dr.Length - n
    {
      if i == 0 || dr[n - 1] != j {
        if n == dr.Length {
          return n, false;
        }
        ghost var s := dr[..n];
        dr[n] := j;
        n := n + 1;
        assert dr[..n] == s + [j];
        assert hi != 0x7fff_ffff ==> Run(lo, j + 1) == Run(lo, j) + [j];
      }
      j := Wrap(j + 1);
    }
    ok := true;
  }
}
