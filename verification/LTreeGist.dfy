/** ltree's index: an inner key bounds the paths below it from both sides and has a signature of their
    labels. crc32 is any function of the label in lower case. */
module LTreeGist {
  import opened Basics
  import opened CString
  import opened LTree
  import opened PathQuery
  import opened PathMatch
  import opened PathMeaning
  import opened Gist

  const SIGLENBIT := 64

  type Crc = string -> nat

  function HashVal(crc: Crc, name: string): nat {
    crc(LowerAll(name)) % SIGLENBIT
  }

  // One path, or bounds with a signature; no signature is LTG_ALLTRUE, no right bound is LTG_NORIGHT.
  datatype Key = OneNode(node: Path) | Inner(sign: Option<seq<bool>>, lnode: Path, rnode: Option<Path>)

  predicate ValidKey(k: Key) {
    match k
    case OneNode(node) => CleanPath(node)
    case Inner(sign, lnode, rnode) =>
      && (sign.Some? ==> |sign.value| == SIGLENBIT)
      && CleanPath(lnode) && (rnode.Some? ==> CleanPath(rnode.value))
  }

  function GetL(k: Key): Path {
    if k.OneNode? then k.node else k.lnode
  }

  function GetR(k: Key): Path {
    if k.OneNode? then k.node else if k.rnode.None? then k.lnode else k.rnode.value
  }

  // A label of the path hashes to bit i.
  ghost predicate Hashed(crc: Crc, p: Path, i: nat) {
    exists j :: 0 <= j < |p| && HashVal(crc, p[j]) == i
  }

  ghost predicate Bit(crc: Crc, k: Key, i: nat)
    requires ValidKey(k) && i < SIGLENBIT
  {
    match k
    case OneNode(node) => Hashed(crc, node, i)
    case Inner(sign, _, _) => sign.None? || sign.value[i]
  }

  // ----- Accumulating signatures and bounds -----

  predicate AccBit(base: seq<bool>, alltrue: bool, i: nat)
    requires |base| == SIGLENBIT && i < SIGLENBIT
  {
    alltrue || base[i]
  }

  // hashing
  method Hashing(crc: Crc, sign: array<bool>, t: Path)
    requires sign.Length == SIGLENBIT
    modifies sign
    ensures forall i :: 0 <= i < SIGLENBIT ==> (sign[i] <==> old(sign[i]) || Hashed(crc, t, i))
  {
    var cur := 0;
    while cur < |t|
      invariant 0 <= cur <= |t|
      invariant forall i :: 0 <= i < SIGLENBIT ==> (sign[i] <==> old(sign[i]) || Hashed(crc, t[..cur], i))
    {
      ghost var before := sign[..];
      sign[HashVal(crc, t[cur])] := true;
      forall i | 0 <= i < SIGLENBIT ensures sign[i] <==> old(sign[i]) || Hashed(crc, t[..cur + 1], i) {
        assert sign[i] <==> before[i] || HashVal(crc, t[cur]) == i;
        HashedNext(crc, t, cur, i);
      }
      cur := cur + 1;
    }
    assert t[..cur] == t;
  }

  lemma HashedNext(crc: Crc, t: Path, n: nat, i: nat)
    requires n < |t|
    ensures Hashed(crc, t[..n + 1], i) <==> Hashed(crc, t[..n], i) || HashVal(crc, t[n]) == i
  {
    if Hashed(crc, t[..n], i) {
      var j :| 0 <= j < n && HashVal(crc, t[..n][j]) == i;
      assert t[..n + 1][j] == t[..n][j];
    }
    assert t[..n + 1][n] == t[n];
    assert t[..n + 1] == t[..n] + [t[n]];
  }

  method AddSign(crc: Crc, base: array<bool>, isalltrue: bool, cur: Key) returns (isalltrue': bool)
    requires base.Length == SIGLENBIT && ValidKey(cur)
    modifies base
    ensures forall i :: 0 <= i < SIGLENBIT ==>
              (AccBit(base[..], isalltrue', i) <==> old(AccBit(base[..], isalltrue, i)) || Bit(crc, cur, i))
  {
    isalltrue' := isalltrue;
    if cur.OneNode? {
      Hashing(crc, base, cur.node);
    } else if isalltrue || cur.sign.None? {
      isalltrue' := true;
    } else {
      var i := 0;
      while i < SIGLENBIT
        invariant 0 <= i <= SIGLENBIT
        invariant forall j :: 0 <= j < SIGLENBIT ==> (base[j] <==> old(base[j]) || (j < i && cur.sign.value[j]))
      {
        base[i] := base[i] || cur.sign.value[i];
        i := i + 1;
      }
    }
  }

  // ISEQ
  method IsEq(a: Path, b: Path) returns (r: bool)
    requires CleanPath(a) && CleanPath(b)
    ensures r <==> a == b
  {
    var c := LtreeCompare(a, b);
    PathOrderIsTotal(a, b, a);
    return |a| == |b| && c == 0;
  }

  // The key that is stored: no signature when all bits are set, no right bound when it is the left one.
  method Form(base: seq<bool>, alltrue: bool, left: Path, right: Path) returns (k: Key)
    requires |base| == SIGLENBIT && CleanPath(left) && CleanPath(right)
    ensures k.Inner? && ValidKey(k) && GetL(k) == left && GetR(k) == right
    ensures forall i, crc :: 0 <= i < SIGLENBIT ==> (Bit(crc, k, i) <==> AccBit(base, alltrue, i))
  {
    var isalltrue := alltrue;
    if !isalltrue {
      isalltrue := true;
      var i := 0;
      while i < SIGLENBIT && isalltrue
        invariant 0 <= i <= SIGLENBIT
        invariant isalltrue ==> forall j :: 0 <= j < i ==> base[j]
        invariant !isalltrue ==> !alltrue
      {
        if !base[i] {
          isalltrue := false;
        }
        i := i + 1;
      }
    }
    var isleqr := IsEq(left, right);
    k := Inner(if isalltrue then None else Some(base), left, if isleqr then None else Some(right));
  }

  predicate ValidKeys(keys: seq<Key>) {
    forall j :: 0 <= j < |keys| ==> ValidKey(keys[j])
  }

  // Some key has bit i.
  ghost predicate AnyBit(crc: Crc, keys: seq<Key>, i: nat)
    requires ValidKeys(keys) && i < SIGLENBIT
  {
    exists j :: 0 <= j < |keys| && Bit(crc, keys[j], i)
  }

  lemma AnyBitSnoc(crc: Crc, keys: seq<Key>, k: Key, i: nat)
    requires ValidKeys(keys) && ValidKey(k) && i < SIGLENBIT
    ensures AnyBit(crc, keys + [k], i) <==> AnyBit(crc, keys, i) || Bit(crc, k, i)
  {
    if AnyBit(crc, keys, i) {
      var j :| 0 <= j < |keys| && Bit(crc, keys[j], i);
      assert (keys + [k])[j] == keys[j];
    }
    assert (keys + [k])[|keys|] == k;
  }

  // Bounds short enough for ltree_compare to order them.
  predicate ShallowKey(k: Key) {
    |GetL(k)| <= MAX_DEPTH && |GetR(k)| <= MAX_DEPTH
  }

  predicate ShallowKeys(keys: seq<Key>) {
    forall j :: 0 <= j < |keys| ==> ShallowKey(keys[j])
  }

  predicate NotAbove(left: Path, keys: seq<Key>, j: nat)
    requires j < |keys|
  {
    PathCmp(left, GetL(keys[j])) <= 0
  }

  predicate NotBelow(right: Path, keys: seq<Key>, j: nat)
    requires j < |keys|
  {
    PathCmp(GetR(keys[j]), right) <= 0
  }

  // left is the left bound of one of the keys, and the least when none of the bounds is too long.
  ghost predicate Least(left: Path, keys: seq<Key>) {
    && (exists j :: 0 <= j < |keys| && left == GetL(keys[j]))
    && (ShallowKeys(keys) ==> forall j :: 0 <= j < |keys| ==> NotAbove(left, keys, j))
  }

  ghost predicate Greatest(right: Path, keys: seq<Key>) {
    && (exists j :: 0 <= j < |keys| && right == GetR(keys[j]))
    && (ShallowKeys(keys) ==> forall j :: 0 <= j < |keys| ==> NotBelow(right, keys, j))
  }

  // The prefix of a shallow list is shallow.
  lemma ShallowInit(keys: seq<Key>, k: Key)
    requires ShallowKeys(keys + [k])
    ensures ShallowKeys(keys) && ShallowKey(k)
  {
    assert forall j :: 0 <= j < |keys| ==> (keys + [k])[j] == keys[j];
    assert (keys + [k])[|keys|] == k;
  }

  lemma LeastNext(left: Path, keys: seq<Key>, k: Key)
    requires Least(left, keys) && CleanPath(left) && CleanPath(GetL(k))
    ensures Compare(left, GetL(k)) <= 0 ==> Least(left, keys + [k])
    ensures Compare(left, GetL(k)) > 0 ==> Least(GetL(k), keys + [k])
  {
    var keys' := keys + [k];
    assert keys'[|keys|] == k;
    var w :| 0 <= w < |keys| && left == GetL(keys[w]);
    assert left == GetL(keys'[w]);
    if ShallowKeys(keys') {
      ShallowInit(keys, k);
      assert ShallowKey(keys[w]);
      ShallowIsOrdered(left, GetL(k));
      var left' := if PathCmp(left, GetL(k)) <= 0 then left else GetL(k);
      forall j | 0 <= j < |keys'| ensures NotAbove(left', keys', j) {
        PathOrderIsTotal(left', left', left');
        PathOrderIsTotal(left, GetL(k), left);
        if j < |keys| {
          assert NotAbove(left, keys, j);
          PathOrderIsTotal(left', left, GetL(keys[j]));
        }
      }
    }
  }

  lemma GreatestNext(right: Path, keys: seq<Key>, k: Key)
    requires Greatest(right, keys) && CleanPath(right) && CleanPath(GetR(k))
    ensures Compare(right, GetR(k)) >= 0 ==> Greatest(right, keys + [k])
    ensures Compare(right, GetR(k)) < 0 ==> Greatest(GetR(k), keys + [k])
  {
    var keys' := keys + [k];
    assert keys'[|keys|] == k;
    var w :| 0 <= w < |keys| && right == GetR(keys[w]);
    assert right == GetR(keys'[w]);
    if ShallowKeys(keys') {
      ShallowInit(keys, k);
      assert ShallowKey(keys[w]);
      ShallowIsOrdered(right, GetR(k));
      var right' := if PathCmp(right, GetR(k)) >= 0 then right else GetR(k);
      forall j | 0 <= j < |keys'| ensures NotBelow(right', keys', j) {
        PathOrderIsTotal(right', right', right');
        PathOrderIsTotal(GetR(k), right, GetR(k));
        PathOrderIsTotal(right, GetR(k), right);
        if j < |keys| {
          assert NotBelow(right, keys, j);
          PathOrderIsTotal(GetR(keys[j]), right, right');
        }
      }
    }
  }

  // The running bounds: none before the first key.
  ghost predicate LeftOf(left: Option<Path>, keys: seq<Key>) {
    if left.None? then keys == [] else CleanPath(left.value) && Least(left.value, keys)
  }

  ghost predicate RightOf(right: Option<Path>, keys: seq<Key>) {
    if right.None? then keys == [] else CleanPath(right.value) && Greatest(right.value, keys)
  }

  method LowerBound(left: Option<Path>, k: Key, ghost keys: seq<Key>) returns (left': Option<Path>)
    requires ValidKey(k) && LeftOf(left, keys)
    ensures LeftOf(left', keys + [k])
  {
    if left.None? {
      PathOrderIsTotal(GetL(k), GetL(k), GetL(k));
      assert ([] + [k])[0] == k;
      return Some(GetL(k));
    }
    var c := LtreeCompare(left.value, GetL(k));
    LeastNext(left.value, keys, k);
    return if c > 0 then Some(GetL(k)) else left;
  }

  method UpperBound(right: Option<Path>, k: Key, ghost keys: seq<Key>) returns (right': Option<Path>)
    requires ValidKey(k) && RightOf(right, keys)
    ensures RightOf(right', keys + [k])
  {
    if right.None? {
      PathOrderIsTotal(GetR(k), GetR(k), GetR(k));
      assert ([] + [k])[0] == k;
      return Some(GetR(k));
    }
    var c := LtreeCompare(right.value, GetR(k));
    GreatestNext(right.value, keys, k);
    return if c < 0 then Some(GetR(k)) else right;
  }

  /** k has the least left bound and the greatest right bound, unless bounds are too long to be ordered, and
      exactly the bits of the keys. */
  ghost predicate IsUnion(crc: Crc, k: Key, keys: seq<Key>)
    requires ValidKeys(keys)
  {
    Joins(crc, k, keys) && Least(GetL(k), keys)
  }

  // All of that but for the left bound.
  ghost predicate Joins(crc: Crc, k: Key, keys: seq<Key>)
    requires ValidKeys(keys)
  {
    && ValidKey(k) && k.Inner? && Greatest(GetR(k), keys)
    && forall i :: 0 <= i < SIGLENBIT ==> (Bit(crc, k, i) <==> AnyBit(crc, keys, i))
  }

  // The signature accumulated so far is that of the keys.
  ghost predicate SignOf(crc: Crc, base: seq<bool>, alltrue: bool, keys: seq<Key>) {
    && |base| == SIGLENBIT && ValidKeys(keys)
    && forall i :: 0 <= i < SIGLENBIT ==> (AccBit(base, alltrue, i) <==> AnyBit(crc, keys, i))
  }

  // Adds the signature of one more key.
  method NextSign(crc: Crc, base: array<bool>, isalltrue: bool, k: Key, ghost keys: seq<Key>) returns (isalltrue': bool)
    requires SignOf(crc, base[..], isalltrue, keys) && ValidKey(k)
    modifies base
    ensures SignOf(crc, base[..], isalltrue', keys + [k])
  {
    ghost var base0 := base[..];
    isalltrue' := AddSign(crc, base, isalltrue, k);
    forall i | 0 <= i < SIGLENBIT ensures AccBit(base[..], isalltrue', i) <==> AnyBit(crc, keys + [k], i) {
      AnyBitSnoc(crc, keys, k, i);
    }
  }

  /** ltree_union */
  method Union(crc: Crc, keys: seq<Key>) returns (r: Key)
    requires keys != [] && ValidKeys(keys)
    ensures IsUnion(crc, r, keys)
  {
    var base := new bool[SIGLENBIT](_ => false);
    var left, right, isalltrue := None, None, false;
    var j := 0;
    while j < |keys|
      invariant 0 <= j <= |keys| && SignOf(crc, base[..], isalltrue, keys[..j])
      invariant LeftOf(left, keys[..j]) && RightOf(right, keys[..j])
    {
      assert keys[..j + 1] == keys[..j] + [keys[j]];
      isalltrue := NextSign(crc, base, isalltrue, keys[j], keys[..j]);
      left := LowerBound(left, keys[j], keys[..j]);
      right := UpperBound(right, keys[j], keys[..j]);
      j := j + 1;
    }
    assert keys[..j] == keys;
    r := Form(base[..], isalltrue, left.value, right.value);
  }

  // ----- Splitting a page -----

  predicate LeftInOrder(entries: seq<Key>, order: seq<nat>, i: nat, j: nat)
    requires Offsets(order, |entries|) && i < |order| && j < |order|
  {
    PathCmp(GetL(entries[order[i]]), GetL(entries[order[j]])) <= 0
  }

  // What qsort by the left bounds may give; of bounds that are not ordered nothing is known.
  ghost predicate SortedByLeft(entries: seq<Key>, order: seq<nat>)
    requires Offsets(order, |entries|)
  {
    ShallowKeys(entries) ==> forall i, j :: 0 <= i < j < |order| ==> LeftInOrder(entries, order, i, j)
  }

  // One page: the left bound of its first key is taken for the least.
  method PageKey(crc: Crc, keys: seq<Key>) returns (k: Key)
    requires ValidKeys(keys) && keys != []
    ensures Joins(crc, k, keys) && GetL(k) == GetL(keys[0])
  {
    var base := new bool[SIGLENBIT](_ => false);
    var right, isalltrue := None, false;
    var j := 0;
    while j < |keys|
      invariant 0 <= j <= |keys| && SignOf(crc, base[..], isalltrue, keys[..j])
      invariant RightOf(right, keys[..j])
    {
      assert keys[..j + 1] == keys[..j] + [keys[j]];
      right := UpperBound(right, keys[j], keys[..j]);
      isalltrue := NextSign(crc, base, isalltrue, keys[j], keys[..j]);
      j := j + 1;
    }
    assert keys[..j] == keys;
    k := Form(base[..], isalltrue, GetL(keys[0]), right.value);
  }

  lemma FirstIsLeast(entries: seq<Key>, list: seq<nat>)
    requires list != [] && Offsets(list, |entries|) && SortedByLeft(entries, list)
    ensures ShallowKeys(entries) ==> Least(GetL(entries[list[0]]), Chosen(entries, list))
  {
    var left, keys := GetL(entries[list[0]]), Chosen(entries, list);
    PathOrderIsTotal(left, left, left);
    assert left == GetL(keys[0]);
    if ShallowKeys(entries) {
      forall j | 0 <= j < |keys| ensures NotAbove(left, keys, j) {
        assert j > 0 ==> LeftInOrder(entries, list, 0, j);
      }
    }
  }

  // The first half of the sorted entries goes left, the rest right.
  method Halves(order: seq<nat>, maxoff: nat) returns (left: seq<nat>, right: seq<nat>)
    requires |order| == maxoff
    ensures left == order[..maxoff / 2] && right == order[maxoff / 2..]
  {
    left, right := [], [];
    var j := 1;
    while j <= maxoff
      invariant 1 <= j <= maxoff + 1
      invariant left == order[..if j - 1 <= maxoff / 2 then j - 1 else maxoff / 2]
      invariant right == if j - 1 <= maxoff / 2 then [] else order[maxoff / 2..j - 1]
    {
      if j <= maxoff / 2 {
        left := left + [order[j - 1]];
      } else {
        right := right + [order[j - 1]];
      }
      j := j + 1;
    }
  }

  /** ltree_picksplit: the lower half by left bound goes left, and each new key is the union of its page,
      unless bounds are too long to be ordered. */
  method PickSplit(crc: Crc, entries: seq<Key>, order: seq<nat>)
    returns (left: seq<nat>, right: seq<nat>, lu: Key, ru: Key)
    requires |entries| >= 3 && ValidKeys(entries) && IsOrder(order, |entries|) && SortedByLeft(entries, order)
    ensures Partition(left, right, |entries|)
    ensures left == order[..|order| / 2] && right == order[|order| / 2..]
    ensures Joins(crc, lu, Chosen(entries, left)) && Joins(crc, ru, Chosen(entries, right))
    ensures ShallowKeys(entries) ==> IsUnion(crc, lu, Chosen(entries, left)) && IsUnion(crc, ru, Chosen(entries, right))
  {
    var maxoff := |entries| - 1;
    left, right := Halves(order, maxoff);
    HalvesPartition(order, |entries|, maxoff / 2);
    HalvesSorted(entries, order, maxoff / 2);
    FirstIsLeast(entries, left);
    FirstIsLeast(entries, right);
    lu := PageKey(crc, Chosen(entries, left));
    ru := PageKey(crc, Chosen(entries, right));
  }

  lemma HalvesSorted(entries: seq<Key>, order: seq<nat>, m: nat)
    requires Offsets(order, |entries|) && SortedByLeft(entries, order) && m <= |order|
    ensures Offsets(order[..m], |entries|) && SortedByLeft(entries, order[..m])
    ensures Offsets(order[m..], |entries|) && SortedByLeft(entries, order[m..])
  {
    var l, r := order[..m], order[m..];
    if ShallowKeys(entries) {
      forall i, j | 0 <= i < j < |l| ensures LeftInOrder(entries, l, i, j) {
        assert LeftInOrder(entries, order, i, j);
      }
      forall i, j | 0 <= i < j < |r| ensures LeftInOrder(entries, r, i, j) {
        assert LeftInOrder(entries, order, m + i, m + j);
      }
    }
  }

  lemma HalvesPartition(order: seq<nat>, n: nat, m: nat)
    requires IsOrder(order, n) && 0 < m < n - 1
    ensures Partition(order[..m], order[m..], n)
  {
    assert order == order[..m] + order[m..];
    forall i | 1 <= i < n ensures i in order[..m] <==> i !in order[m..] {
      assert i in order;
    }
  }

  // ----- The tests on inner keys -----

  // p lies between the bounds.
  ghost predicate Between(k: Key, p: Path) {
    PathCmp(GetL(k), p) <= 0 && PathCmp(p, GetR(k)) <= 0
  }

  // Whether it does, as the code compares.
  predicate Inside(k: Key, p: Path) {
    Compare(p, GetL(k)) >= 0 && Compare(p, GetR(k)) <= 0
  }

  lemma InsideIsBetween(k: Key, p: Path)
    requires ValidKey(k) && CleanPath(p) && |p| <= MAX_DEPTH
    ensures Inside(k, p) <==> Between(k, p)
  {
    ShallowIsOrdered(p, GetL(k));
    ShallowIsOrdered(p, GetR(k));
    PathOrderIsTotal(p, GetL(k), p);
    PathOrderIsTotal(GetL(k), p, p);
  }

  // Some prefix of query is found between the bounds.
  ghost predicate PrefixInside(k: Key, query: Path) {
    exists i :: 0 <= i <= |query| && Inside(k, query[..i])
  }

  /** gist_isparent: the query is cut level by level until it lies between the bounds. */
  method GistIsParent(k: Key, query: Path) returns (r: bool)
    requires ValidKey(k) && CleanPath(query)
    ensures r <==> PrefixInside(k, query)
    ensures |query| <= MAX_DEPTH ==> (r <==> exists i :: 0 <= i <= |query| && Between(k, query[..i]))
  {
    forall i | 0 <= i <= |query| && |query| <= MAX_DEPTH ensures Inside(k, query[..i]) <==> Between(k, query[..i]) {
      InsideIsBetween(k, query[..i]);
    }
    var i := |query|;
    while i >= 0
      invariant -1 <= i <= |query|
      invariant forall j :: i < j <= |query| ==> !Inside(k, query[..j])
    {
      var l := LtreeCompare(query[..i], GetL(k));
      var h := LtreeCompare(query[..i], GetR(k));
      if l >= 0 && h <= 0 {
        return true;
      }
      i := i - 1;
    }
    return false;
  }

  // The query is found between the bounds cut to its length.
  predicate ChildInside(k: Key, query: Path) {
    Compare(query, Take(GetL(k), |query|)) >= 0 && Compare(query, Take(GetR(k), |query|)) <= 0
  }

  // The query lies between the bounds cut to its length.
  ghost predicate ChildBetween(k: Key, query: Path) {
    PathCmp(Take(GetL(k), |query|), query) <= 0 && PathCmp(query, Take(GetR(k), |query|)) <= 0
  }

  lemma ChildInsideIsBetween(k: Key, query: Path)
    requires ValidKey(k) && CleanPath(query) && |query| <= MAX_DEPTH
    ensures ChildInside(k, query) <==> ChildBetween(k, query)
  {
    var left, right := Take(GetL(k), |query|), Take(GetR(k), |query|);
    assert CleanPath(left) && CleanPath(right);
    ShallowIsOrdered(query, left);
    ShallowIsOrdered(query, right);
    PathOrderIsTotal(query, left, query);
    PathOrderIsTotal(left, query, query);
  }

  /** gist_ischild */
  method GistIsChild(k: Key, query: Path) returns (res: bool)
    requires ValidKey(k) && CleanPath(query)
    ensures res <==> ChildInside(k, query)
    ensures |query| <= MAX_DEPTH ==> (res <==> ChildBetween(k, query))
  {
    if |query| <= MAX_DEPTH {
      ChildInsideIsBetween(k, query);
    }
    var left, right := GetL(k), GetR(k);
    res := true;
    if |left| > |query| {
      left := left[..|query|];
    }
    var c := LtreeCompare(query, left);
    if c < 0 {
      res := false;
    }
    if |right| > |query| {
      right := right[..|query|];
    }
    c := LtreeCompare(query, right);
    if res && c > 0 {
      res := false;
    }
  }

  // The fixed labels at the start of a query.
  function Fixed(q: LQuery): (p: Path)
    requires ValidQuery(q)
    ensures |p| == q.firstgood && forall i :: 0 <= i < |p| ==> p[i] == FixedName(q, i)
  {
    seq(q.firstgood, i requires 0 <= i < q.firstgood => FixedName(q, i))
  }

  /** gist_tqcmp: how a path, cut to the length of the fixed start of a query, compares with it. */
  method GistTqcmp(t: Path, q: LQuery) returns (r: int)
    requires ValidQuery(q) && CleanLevels(q.levels) && CleanPath(t)
    ensures SameSign(r, PathCmp(Take(t, q.firstgood), Fixed(q)))
  {
    var an, bn := |t|, q.firstgood;
    var i := 0;
    ghost var tt, fixed := Take(t, q.firstgood), Fixed(q);
    assert tt[0..] == tt && fixed[0..] == fixed;
    while an > 0 && bn > 0
      invariant 0 <= i <= |tt| && an == |t| - i && bn == |fixed| - i
      invariant PathCmp(tt[i..], fixed[i..]) == PathCmp(tt, fixed)
    {
      var x, y := t[i], FixedName(q, i);
      FirstGoodAt(q.levels, i);
      assert NoNul(q.levels[i].variants[0].name);
      assert tt[i..][0] == x && fixed[i..][0] == y;
      LevelDiffIsNameCmp(x, y);
      var m := if |x| < |y| then |x| else |y|;
      var res := Strncmp(x[..m], y[..m]);
      if res == 0 {
        if |x| != |y| {
          return |x| - |y|;
        }
      } else {
        return res;
      }
      assert tt[i..][1..] == tt[i + 1..] && fixed[i..][1..] == fixed[i + 1..];
      an, bn, i := an - 1, bn - 1, i + 1;
    }
    r := (if |t| < q.firstgood then |t| else q.firstgood) - q.firstgood;
  }

  // The fixed start of the query lies between the bounds cut to its length.
  ghost predicate FixedBetween(k: Key, q: LQuery)
    requires ValidQuery(q)
  {
    PathCmp(Take(GetL(k), q.firstgood), Fixed(q)) <= 0 && PathCmp(Fixed(q), Take(GetR(k), q.firstgood)) <= 0
  }

  /** gist_between */
  method GistBetween(k: Key, q: LQuery) returns (r: bool)
    requires ValidKey(k) && ValidQuery(q) && CleanLevels(q.levels)
    ensures r <==> FixedBetween(k, q)
  {
    if q.firstgood == 0 {
      assert Fixed(q) == [];
      assert Take(GetL(k), 0) == [] && Take(GetR(k), 0) == [];
      return true;
    }
    var c := GistTqcmp(GetL(k), q);
    if c > 0 {
      return false;
    }
    c := GistTqcmp(GetR(k), q);
    PathOrderIsTotal(Take(GetR(k), q.firstgood), Fixed(q), []);
    PathOrderIsTotal(Fixed(q), Take(GetR(k), q.firstgood), []);
    return c >= 0;
  }

  // One of the variants of level l has its bit set.
  ghost predicate LevelBit(crc: Crc, k: Key, l: Level)
    requires ValidKey(k)
  {
    exists i :: 0 <= i < |l.variants| && Bit(crc, k, HashVal(crc, l.variants[i].name))
  }

  predicate Looks(l: Level) {
    l.variants != [] && CanLookSign(l)
  }

  // Every level the signature is asked about has one of its variants there.
  ghost predicate SignMayMatch(crc: Crc, k: Key, q: LQuery)
    requires ValidKey(k)
  {
    forall j :: 0 <= j < |q.levels| && Looks(q.levels[j]) ==> LevelBit(crc, k, q.levels[j])
  }

  method AnyVariantBit(crc: Crc, k: Key, l: Level) returns (isexist: bool)
    requires ValidKey(k) && k.Inner? && k.sign.Some?
    ensures isexist <==> LevelBit(crc, k, l)
  {
    var i := 0;
    while i < |l.variants|
      invariant 0 <= i <= |l.variants|
      invariant forall i' :: 0 <= i' < i ==> !Bit(crc, k, HashVal(crc, l.variants[i'].name))
    {
      if k.sign.value[HashVal(crc, l.variants[i].name)] {
        return true;
      }
      i := i + 1;
    }
    return false;
  }

  /** gist_qe, on an inner key */
  method GistQe(crc: Crc, k: Key, q: LQuery) returns (r: bool)
    requires ValidKey(k) && k.Inner?
    ensures r <==> SignMayMatch(crc, k, q)
  {
    if k.sign.None? {
      forall j | 0 <= j < |q.levels| && Looks(q.levels[j]) ensures LevelBit(crc, k, q.levels[j]) {
        assert Bit(crc, k, HashVal(crc, q.levels[j].variants[0].name));
      }
      return true;
    }
    var j := 0;
    while j < |q.levels|
      invariant 0 <= j <= |q.levels|
      invariant forall j' :: 0 <= j' < j && Looks(q.levels[j']) ==> LevelBit(crc, k, q.levels[j'])
    {
      if Looks(q.levels[j]) {
        var isexist := AnyVariantBit(crc, k, q.levels[j]);
        if !isexist {
          return false;
        }
      }
      j := j + 1;
    }
    return true;
  }

  // ----- Searching -----

  // The strategies: the five of the order, ancestors and descendants of a path, and path queries.
  datatype Ask =
    | Less(q: Path) | LessEqual(q: Path) | Equal(q: Path) | GreaterEqual(q: Path) | Greater(q: Path)
    | AncestorOf(q: Path) | DescendantOf(q: Path)
    | Regex(lq: LQuery) | AnyRegex(lqs: seq<LQuery>)

  predicate UsableQuery(q: LQuery) {
    ValidQuery(q) && CleanLevels(q.levels)
  }

  predicate ValidAsk(ask: Ask) {
    match ask
    case Regex(lq) => UsableQuery(lq)
    case AnyRegex(lqs) => forall i :: 0 <= i < |lqs| ==> UsableQuery(lqs[i])
    case _ => CleanPath(ask.q)
  }

  /** The operator a search stands for. */
  ghost predicate Accepts(ask: Ask, row: Path) {
    match ask
    case Less(q) => Compare(row, q) < 0
    case LessEqual(q) => Compare(row, q) <= 0
    case Equal(q) => Compare(row, q) == 0
    case GreaterEqual(q) => Compare(row, q) >= 0
    case Greater(q) => Compare(row, q) > 0
    case AncestorOf(q) => row <= q
    case DescendantOf(q) => q <= row
    case Regex(lq) => Matches(lq, row)
    case AnyRegex(lqs) => exists i :: 0 <= i < |lqs| && Matches(lqs[i], row)
  }

  ghost predicate RegexTest(crc: Crc, k: Key, q: LQuery)
    requires ValidKey(k)
  {
    ValidQuery(q) && SignMayMatch(crc, k, q) && FixedBetween(k, q)
  }

  /** The test on an inner key. */
  ghost predicate InnerTest(crc: Crc, ask: Ask, k: Key) {
    && ValidKey(k) && ValidAsk(ask)
    && match ask
       case Less(q) => Compare(q, GetL(k)) >= 0
       case LessEqual(q) => Compare(q, GetL(k)) >= 0
       case Equal(q) => Compare(q, GetL(k)) >= 0 && Compare(q, GetR(k)) <= 0
       case GreaterEqual(q) => Compare(q, GetR(k)) <= 0
       case Greater(q) => Compare(q, GetR(k)) <= 0
       case AncestorOf(q) => PrefixInside(k, q)
       case DescendantOf(q) => ChildInside(k, q)
       case Regex(lq) => RegexTest(crc, k, lq)
       case AnyRegex(lqs) => exists i :: 0 <= i < |lqs| && RegexTest(crc, k, lqs[i])
  }

  /** The test on a leaf key, which is not rechecked. */
  ghost predicate LeafTest(ask: Ask, k: Key) {
    && k.OneNode?
    && match ask
       case Less(q) => Compare(q, k.node) > 0
       case LessEqual(q) => Compare(q, GetL(k)) >= 0
       case Equal(q) => Compare(q, k.node) == 0
       case GreaterEqual(q) => Compare(q, GetR(k)) <= 0
       case Greater(q) => Compare(q, GetR(k)) < 0
       case AncestorOf(q) => k.node <= q
       case DescendantOf(q) => q <= k.node
       case Regex(lq) => Matches(lq, k.node)
       case AnyRegex(lqs) => exists i :: 0 <= i < |lqs| && Matches(lqs[i], k.node)
  }

  /** ltree_consistent on an inner key */
  method ConsistentInner(crc: Crc, ask: Ask, k: Key) returns (res: bool)
    requires ValidKey(k) && k.Inner? && ValidAsk(ask)
    ensures res <==> InnerTest(crc, ask, k)
  {
    match ask
    case Less(q) =>
      var c := LtreeCompare(q, GetL(k));
      res := c >= 0;
    case LessEqual(q) =>
      var c := LtreeCompare(q, GetL(k));
      res := c >= 0;
    case Equal(q) =>
      var c := LtreeCompare(q, GetL(k));
      var d := LtreeCompare(q, GetR(k));
      res := c >= 0 && d <= 0;
    case GreaterEqual(q) =>
      var c := LtreeCompare(q, GetR(k));
      res := c <= 0;
    case Greater(q) =>
      var c := LtreeCompare(q, GetR(k));
      res := c <= 0;
    case AncestorOf(q) => res := GistIsParent(k, q);
    case DescendantOf(q) => res := GistIsChild(k, q);
    case Regex(lq) =>
      var e := GistQe(crc, k, lq);
      var b := GistBetween(k, lq);
      res := e && b;
    case AnyRegex(lqs) => res := ArrqCons(crc, k, lqs);
  }

  // arrq_cons
  method ArrqCons(crc: Crc, k: Key, lqs: seq<LQuery>) returns (res: bool)
    requires ValidKey(k) && k.Inner? && forall i :: 0 <= i < |lqs| ==> UsableQuery(lqs[i])
    ensures res <==> exists i :: 0 <= i < |lqs| && RegexTest(crc, k, lqs[i])
  {
    var i := 0;
    while i < |lqs|
      invariant 0 <= i <= |lqs| && forall j :: 0 <= j < i ==> !RegexTest(crc, k, lqs[j])
    {
      var e := GistQe(crc, k, lqs[i]);
      var b := GistBetween(k, lqs[i]);
      if e && b {
        return true;
      }
      i := i + 1;
    }
    return false;
  }

  /** ltree_consistent on a leaf key */
  method ConsistentLeaf(ask: Ask, k: Key) returns (res: bool)
    requires ValidKey(k) && k.OneNode? && ValidAsk(ask)
    ensures res <==> LeafTest(ask, k)
  {
    match ask
    case Less(q) =>
      var c := LtreeCompare(q, k.node);
      res := c > 0;
    case LessEqual(q) =>
      var c := LtreeCompare(q, GetL(k));
      res := c >= 0;
    case Equal(q) =>
      var c := LtreeCompare(q, k.node);
      res := c == 0;
    case GreaterEqual(q) =>
      var c := LtreeCompare(q, GetR(k));
      res := c <= 0;
    case Greater(q) =>
      var c := LtreeCompare(q, GetR(k));
      res := c < 0;
    case AncestorOf(q) => res := InnerIsParent(q, k.node);
    case DescendantOf(q) => res := InnerIsParent(k.node, q);
    case Regex(lq) => res := LtqRegex(lq, k.node);
    case AnyRegex(lqs) =>
      var i := 0;
      res := false;
      while i < |lqs| && !res
        invariant 0 <= i <= |lqs| && (res <==> exists j :: 0 <= j < i && Matches(lqs[j], k.node))
      {
        res := LtqRegex(lqs[i], k.node);
        i := i + 1;
      }
  }

  // ----- Soundness -----

  // The row lies between the bounds, and the bits of its labels are set.
  ghost predicate Over(crc: Crc, k: Key, row: Path) {
    && ValidKey(k) && CleanPath(row) && Between(k, row)
    && forall j :: 0 <= j < |row| ==> Bit(crc, k, HashVal(crc, row[j]))
  }

  ghost predicate LeafKey(k: Key, row: Path) {
    k == OneNode(row)
  }

  // The paths of a search have at most d levels.
  predicate AskWithin(ask: Ask, d: nat) {
    ask.Regex? || ask.AnyRegex? || |ask.q| <= d
  }

  lemma OrderTestsAreSound(crc: Crc, ask: Ask, k: Key, row: Path)
    requires Over(crc, k, row) && Accepts(ask, row) && ValidAsk(ask) && !ask.Regex? && !ask.AnyRegex?
    requires !ask.AncestorOf? && !ask.DescendantOf? && AskWithin(ask, MAX_DEPTH) && |row| <= MAX_DEPTH
    ensures InnerTest(crc, ask, k)
  {
    var q := ask.q;
    ShallowIsOrdered(row, q);
    ShallowIsOrdered(q, GetL(k));
    ShallowIsOrdered(q, GetR(k));
    PathOrderIsTotal(GetL(k), row, q);
    PathOrderIsTotal(q, row, GetR(k));
    PathOrderIsTotal(row, q, row);
    PathOrderIsTotal(q, GetL(k), q);
    PathOrderIsTotal(GetL(k), q, q);
  }

  lemma AncestorTestIsSound(k: Key, q: Path, row: Path)
    requires ValidKey(k) && CleanPath(q) && |q| <= MAX_DEPTH && Between(k, row) && row <= q
    ensures PrefixInside(k, q)
  {
    assert q[..|row|] == row;
    InsideIsBetween(k, row);
  }

  lemma DescendantTestIsSound(k: Key, q: Path, row: Path)
    requires ValidKey(k) && CleanPath(q) && |q| <= MAX_DEPTH && Between(k, row) && q <= row
    ensures ChildInside(k, q)
  {
    assert Take(row, |q|) == q;
    TruncationIsMonotone(GetL(k), row, |q|);
    TruncationIsMonotone(row, GetR(k), |q|);
    ChildInsideIsBetween(k, q);
  }

  lemma RegexTestIsSound(crc: Crc, k: Key, q: LQuery, row: Path)
    requires Over(crc, k, row) && ValidQuery(q) && Matches(q, row)
    ensures RegexTest(crc, k, q)
  {
    MatchHasParts(q, row);
    assert Take(row, q.firstgood) == Fixed(q);
    TruncationIsMonotone(GetL(k), row, q.firstgood);
    TruncationIsMonotone(row, GetR(k), q.firstgood);
    forall j | 0 <= j < |q.levels| && Looks(q.levels[j]) ensures LevelBit(crc, k, q.levels[j]) {
      var l := q.levels[j];
      assert HasVariant(l, row);
      var i, n :| 0 <= i < |l.variants| && 0 <= n < |row| && LowerAll(l.variants[i].name) == LowerAll(row[n]);
      assert Bit(crc, k, HashVal(crc, row[n]));
      assert HashVal(crc, l.variants[i].name) == HashVal(crc, row[n]);
    }
  }

  /** No subtree with a matching path is pruned: a key over an accepted row passes the inner test, when the
      paths compared are not too deep. */
  lemma InnerTestIsSound(crc: Crc, ask: Ask, k: Key, row: Path)
    requires ValidAsk(ask) && Over(crc, k, row) && Accepts(ask, row)
    requires AskWithin(ask, MAX_DEPTH) && |row| <= MAX_DEPTH
    ensures InnerTest(crc, ask, k)
  {
    match ask
    case AncestorOf(q) => AncestorTestIsSound(k, q, row);
    case DescendantOf(q) => DescendantTestIsSound(k, q, row);
    case Regex(lq) => RegexTestIsSound(crc, k, lq, row);
    case AnyRegex(lqs) =>
      var i :| 0 <= i < |lqs| && Matches(lqs[i], row);
      assert UsableQuery(lqs[i]);
      RegexTestIsSound(crc, k, lqs[i], row);
    case _ => OrderTestsAreSound(crc, ask, k, row);
  }

  lemma LeafTestIsExact(ask: Ask, row: Path)
    requires ValidAsk(ask) && CleanPath(row) && AskWithin(ask, MAX_DEPTH) && |row| <= MAX_DEPTH
    ensures LeafTest(ask, OneNode(row)) <==> Accepts(ask, row)
  {
    if !ask.Regex? && !ask.AnyRegex? {
      ShallowIsOrdered(ask.q, row);
      ShallowIsOrdered(row, ask.q);
      PathOrderIsTotal(ask.q, row, row);
      PathOrderIsTotal(row, ask.q, row);
    }
  }

  ghost predicate IndexWellBuilt(crc: Crc, t: Tree<Key, Path>) {
    WellBuilt(t, LeafKey, (k, row) => Over(crc, k, row))
  }

  ghost function IndexScan(crc: Crc, t: Tree<Key, Path>, ask: Ask): (rows: seq<Path>) {
    Scan(t, k => InnerTest(crc, ask, k), (k, row) => LeafTest(ask, k))
  }

  ghost function SeqScan(t: Tree<Key, Path>, ask: Ask): (rows: seq<Path>) {
    Where(t, row => Accepts(ask, row))
  }

  // Every row below t has at most d levels.
  ghost predicate RowsWithin(t: Tree<Key, Path>, d: nat) {
    Below(t, row => |row| <= d)
  }

  // A row over which a key may stand, of at most d levels.
  ghost predicate OverWithin(crc: Crc, d: nat, k: Key, row: Path) {
    Over(crc, k, row) && |row| <= d
  }

  // For every tree over rows of at most d levels and every search for paths of at most d levels, or for
  // queries, an index scan returns the rows a sequential scan returns, in order.
  ghost predicate ExactWithin(d: nat) {
    forall crc, t, ask ::
      ValidAsk(ask) && AskWithin(ask, d) && IndexWellBuilt(crc, t) && RowsWithin(t, d) ==>
        IndexScan(crc, t, ask) == SeqScan(t, ask)
  }

  lemma ScanWithin(crc: Crc, t: Tree<Key, Path>, ask: Ask)
    requires ValidAsk(ask) && AskWithin(ask, MAX_DEPTH)
    requires IndexWellBuilt(crc, t) && RowsWithin(t, MAX_DEPTH)
    ensures IndexScan(crc, t, ask) == SeqScan(t, ask)
  {
    forall k, row | OverWithin(crc, MAX_DEPTH, k, row) && Accepts(ask, row) ensures InnerTest(crc, ask, k) {
      InnerTestIsSound(crc, ask, k, row);
    }
    forall k, row | LeafKey(k, row) && OverWithin(crc, MAX_DEPTH, k, row)
      ensures LeafTest(ask, k) <==> Accepts(ask, row)
    {
      LeafTestIsExact(ask, row);
    }
    WellBuiltWithin(t, LeafKey, (k, row) => Over(crc, k, row), row => |row| <= MAX_DEPTH,
                    (k, row) => OverWithin(crc, MAX_DEPTH, k, row));
    ScanIsWhere(t, LeafKey, (k, row) => OverWithin(crc, MAX_DEPTH, k, row), k => InnerTest(crc, ask, k),
                (k, row) => LeafTest(ask, k), row => Accepts(ask, row));
  }

  /** A search below a path one level too deep misses the empty path, which the operator accepts, in every
      well built index that has the empty path alone on a page. */
  lemma DeepSearchMisses(crc: Crc, t: Tree<Key, Path>)
    requires t.Node? && t.children == [Leaf(OneNode([]), [])] && IndexWellBuilt(crc, t)
    ensures var ask := Less(Deep(MAX_DEPTH + 1));
            && ValidAsk(ask) && RowsWithin(t, 0)
            && IndexScan(crc, t, ask) == [] && SeqScan(t, ask) == [[]]
  {
    var ask := Less(Deep(MAX_DEPTH + 1));
    DeepIsNotOrdered();
    KeyAboveIsOver(t, LeafKey, (k, row) => Over(crc, k, row), 0);
    assert GetL(t.key) == [] && t.children[0].row == [];
    assert !InnerTest(crc, ask, t.key) && Accepts(ask, []);
    WhereOneLeaf(t, row => Accepts(ask, row));
  }

  // The index over the empty path alone: no label sets a bit, and both bounds are the empty path.
  const EMPTY_PATH_INDEX := Node(Inner(Some(seq(SIGLENBIT, _ => false)), [], None), [Leaf(OneNode([]), [])])

  lemma EmptyPathIndexIsWellBuilt(crc: Crc)
    ensures IndexWellBuilt(crc, EMPTY_PATH_INDEX)
  {
    var t := EMPTY_PATH_INDEX;
    assert Over(crc, OneNode([]), []) && Over(crc, t.key, []);
    assert WellBuilt(t.children[0], LeafKey, (k, row) => Over(crc, k, row));
  }

  /** Index scans are exact on all trees and searches of at most d levels if and only if d is at most 14653. */
  lemma IndexScanIsSeqScanIff(d: nat)
    ensures ExactWithin(d) <==> d <= MAX_DEPTH
  {
    if d <= MAX_DEPTH {
      forall crc, t, ask |
        ValidAsk(ask) && AskWithin(ask, d) && IndexWellBuilt(crc, t) && RowsWithin(t, d)
        ensures IndexScan(crc, t, ask) == SeqScan(t, ask)
      {
        BelowWeakens(t, row => |row| <= d, row => |row| <= MAX_DEPTH);
        ScanWithin(crc, t, ask);
      }
    } else {
      var crc: Crc := _ => 0;
      var ask, t := Less(Deep(MAX_DEPTH + 1)), EMPTY_PATH_INDEX;
      EmptyPathIndexIsWellBuilt(crc);
      DeepSearchMisses(crc, t);
      BelowWeakens(t, row => |row| <= 0, row => |row| <= d);
      assert AskWithin(ask, d) && RowsWithin(t, d);
    }
  }

  // ----- Growing a tree -----

  // Well built entries whose bounds are short enough to be ordered.
  ghost predicate Grown(crc: Crc, ts: seq<Tree<Key, Path>>) {
    forall i :: 0 <= i < |ts| ==> ValidKey(ts[i].key) && ShallowKey(ts[i].key) && IndexWellBuilt(crc, ts[i])
  }

  /** The entry of a row: well built if and only if the path is not too deep to be ordered. */
  method Plant(crc: Crc, row: Path) returns (t: Tree<Key, Path>)
    requires CleanPath(row)
    ensures t == Leaf(OneNode(row), row) && (Grown(crc, [t]) <==> |row| <= MAX_DEPTH)
  {
    PathOrderIsTotal(row, row, row);
    t := Leaf(OneNode(row), row);
    assert [t][0] == t;
    assert Over(crc, OneNode(row), row);
  }

  // The union of keys is over whatever one of them is over.
  lemma UnionIsOver(crc: Crc, k: Key, keys: seq<Key>, j: nat, row: Path)
    requires ValidKeys(keys) && ShallowKeys(keys) && IsUnion(crc, k, keys) && j < |keys| && Over(crc, keys[j], row)
    ensures Over(crc, k, row)
  {
    assert NotAbove(GetL(k), keys, j) && NotBelow(GetR(k), keys, j);
    PathOrderIsTotal(GetL(k), GetL(keys[j]), row);
    PathOrderIsTotal(row, GetR(keys[j]), GetR(k));
    forall n | 0 <= n < |row| ensures Bit(crc, k, HashVal(crc, row[n])) {
      assert Bit(crc, keys[j], HashVal(crc, row[n]));
      assert AnyBit(crc, keys, HashVal(crc, row[n]));
    }
  }

  function KeysOf(ts: seq<Tree<Key, Path>>): (keys: seq<Key>)
    ensures |keys| == |ts| && forall i :: 0 <= i < |ts| ==> keys[i] == ts[i].key
  {
    seq(|ts|, i requires 0 <= i < |ts| => ts[i].key)
  }

  lemma UnionGrows(crc: Crc, k: Key, ts: seq<Tree<Key, Path>>)
    requires Grown(crc, ts) && IsUnion(crc, k, KeysOf(ts))
    ensures IndexWellBuilt(crc, Node(k, ts)) && ShallowKey(k)
  {
    forall j, row | 0 <= j < |ts| && Over(crc, ts[j].key, row) ensures Over(crc, k, row) {
      UnionIsOver(crc, k, KeysOf(ts), j, row);
    }
    NodeIsWellBuilt(k, ts, LeafKey, (key, row) => Over(crc, key, row));
  }

  /** The entry above a page. */
  method Above(crc: Crc, ts: seq<Tree<Key, Path>>) returns (t: Tree<Key, Path>)
    requires ts != [] && Grown(crc, ts)
    ensures t.Node? && t.children == ts && Grown(crc, [t])
  {
    var key := Union(crc, KeysOf(ts));
    UnionGrows(crc, key, ts);
    t := Node(key, ts);
  }

  /** Planting the empty path and putting a page above it gives an index that a search for a path one level
      too deep gets nothing from. */
  method GrowEmptyPath(crc: Crc) returns (t: Tree<Key, Path>)
    ensures Grown(crc, [t]) && RowsWithin(t, 0)
    ensures var ask := Less(Deep(MAX_DEPTH + 1)); IndexScan(crc, t, ask) == [] && SeqScan(t, ask) == [[]]
  {
    var leaf := Plant(crc, []);
    t := Above(crc, [leaf]);
    assert [t][0] == t;
    DeepSearchMisses(crc, t);
  }

  // The entry of one side of a split page.
  lemma SideGrows(crc: Crc, ts: seq<Tree<Key, Path>>, list: seq<nat>, k: Key)
    requires Grown(crc, ts) && Offsets(list, |ts|) && ValidKeys(KeysOf(ts)) && IsUnion(crc, k, Chosen(KeysOf(ts), list))
    ensures Grown(crc, [Node(k, Chosen(ts, list))])
  {
    assert KeysOf(Chosen(ts, list)) == Chosen(KeysOf(ts), list);
    UnionGrows(crc, k, Chosen(ts, list));
  }

  /** A split page: two well built entries that share out the old ones. Offset 0 of the vector is unused. */
  method Split(crc: Crc, ts: seq<Tree<Key, Path>>, order: seq<nat>)
    returns (l: Tree<Key, Path>, r: Tree<Key, Path>, left: seq<nat>, right: seq<nat>)
    requires |ts| >= 3 && Grown(crc, ts) && IsOrder(order, |ts|) && SortedByLeft(KeysOf(ts), order)
    ensures Partition(left, right, |ts|)
    ensures l.Node? && l.children == Chosen(ts, left) && r.Node? && r.children == Chosen(ts, right)
    ensures Grown(crc, [l, r])
  {
    var lu, ru;
    left, right, lu, ru := PickSplit(crc, KeysOf(ts), order);
    SideGrows(crc, ts, left, lu);
    SideGrows(crc, ts, right, ru);
    l, r := Node(lu, Chosen(ts, left)), Node(ru, Chosen(ts, right));
    assert [l, r][0] == [l][0] && [l, r][1] == [r][0];
  }
}
