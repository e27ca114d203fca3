/** pg_trgm's index: leaf keys are trigram arrays, inner keys are signatures. A trigram's number, of which
    the hash is the remainder, is any function of it. */
module TrgmGist {
  import opened Trgm
  import opened Gist
  import Sig = Signature

  const SIGLENBIT := 95
  // One more bit than is hashed to; makesign sets it.
  const BITS := 96

  type Code = Trgm -> nat

  function HashVal(code: Code, t: Trgm): nat {
    code(t) % SIGLENBIT
  }

  datatype Key = Arr(trgms: seq<Trgm>) | Signed(sig: Sig.Key)

  predicate ValidKey(k: Key) {
    k.Signed? ==> Sig.ValidKey(BITS, k.sig)
  }

  predicate ValidKeys(keys: seq<Key>) {
    forall j :: 0 <= j < |keys| ==> ValidKey(keys[j])
  }

  // A trigram of s hashes to bit i.
  ghost predicate Hashed(code: Code, s: seq<Trgm>, i: nat) {
    exists j :: 0 <= j < |s| && HashVal(code, s[j]) == i
  }

  ghost predicate Bit(code: Code, k: Key, i: nat)
    requires ValidKey(k) && i < BITS
  {
    match k
    case Arr(trgms) => Hashed(code, trgms, i)
    case Signed(sig) => Sig.Bit(BITS, sig, i)
  }

  // ----- Making keys -----

  method HashAll(code: Code, sign: array<bool>, s: seq<Trgm>)
    requires sign.Length == BITS
    modifies sign
    ensures forall i :: 0 <= i < BITS ==> (sign[i] <==> old(sign[i]) || Hashed(code, s, i))
  {
    var k := 0;
    while k < |s|
      invariant 0 <= k <= |s|
      invariant forall i :: 0 <= i < BITS ==> (sign[i] <==> old(sign[i]) || Hashed(code, s[..k], i))
    {
      ghost var before := sign[..];
      sign[HashVal(code, s[k])] := true;
      forall i | 0 <= i < BITS ensures sign[i] <==> old(sign[i]) || Hashed(code, s[..k + 1], i) {
        assert sign[i] <==> before[i] || HashVal(code, s[k]) == i;
        HashedNext(code, s, k, i);
      }
      k := k + 1;
    }
    assert s[..k] == s;
  }

  lemma HashedNext(code: Code, s: seq<Trgm>, n: nat, i: nat)
    requires n < |s|
    ensures Hashed(code, s[..n + 1], i) <==> Hashed(code, s[..n], i) || HashVal(code, s[n]) == i
  {
    assert s[..n + 1] == s[..n] + [s[n]];
    if Hashed(code, s[..n], i) {
      var j :| 0 <= j < n && HashVal(code, s[..n][j]) == i;
      assert s[..n + 1][j] == s[..n][j];
    }
    assert s[..n + 1][n] == s[n];
  }

  // fillcache: the signature of a key, of an array through makesign, which sets the spare bit as well.
  method FillCache(code: Code, k: Key) returns (sig: Sig.Key)
    requires ValidKey(k)
    ensures Sig.ValidKey(BITS, sig)
    ensures forall i :: 0 <= i < SIGLENBIT ==> (Sig.Bit(BITS, sig, i) <==> Bit(code, k, i))
    ensures k.Arr? ==> Sig.Bit(BITS, sig, SIGLENBIT)
  {
    match k
    case Signed(s) => sig := s;
    case Arr(trgms) =>
      var sign := new bool[BITS](_ => false);
      sign[SIGLENBIT] := true;
      HashAll(code, sign, trgms);
      sig := Sig.Sign(sign[..]);
  }

  // unionkey
  method UnionKey(code: Code, sbase: array<bool>, add: Key) returns (flag: bool)
    requires sbase.Length == BITS && ValidKey(add)
    modifies sbase
    ensures flag ==> forall i :: 0 <= i < BITS ==> Bit(code, add, i)
    ensures !flag ==> forall i :: 0 <= i < BITS ==> (sbase[i] <==> old(sbase[i]) || Bit(code, add, i))
  {
    match add
    case Signed(sig) => flag := Sig.UnionKey(BITS, sbase, sig);
    case Arr(trgms) =>
      HashAll(code, sbase, trgms);
      flag := false;
  }

  // Some key has bit i.
  ghost predicate AnyBit(code: Code, keys: seq<Key>, i: nat)
    requires ValidKeys(keys) && i < BITS
  {
    exists j :: 0 <= j < |keys| && Bit(code, keys[j], i)
  }

  lemma AnyBitSnoc(code: Code, keys: seq<Key>, k: Key, i: nat)
    requires ValidKeys(keys) && ValidKey(k) && i < BITS
    ensures AnyBit(code, keys + [k], i) <==> AnyBit(code, keys, i) || Bit(code, k, i)
  {
    if AnyBit(code, keys, i) {
      var j :| 0 <= j < |keys| && Bit(code, keys[j], i);
      assert (keys + [k])[j] == keys[j];
    }
    assert (keys + [k])[|keys|] == k;
  }

  /** gtrgm_union: exactly the bits of the keys. */
  method Union(code: Code, keys: seq<Key>) returns (r: Key)
    requires ValidKeys(keys)
    ensures r.Signed? && ValidKey(r) && forall i :: 0 <= i < BITS ==> (Bit(code, r, i) <==> AnyBit(code, keys, i))
  {
    var base := new bool[BITS](_ => false);
    var i := 0;
    while i < |keys|
      invariant 0 <= i <= |keys|
      invariant forall j :: 0 <= j < BITS ==> (base[j] <==> AnyBit(code, keys[..i], j))
    {
      var flag := UnionKey(code, base, keys[i]);
      if flag {
        return Signed(Sig.AllTrue);
      }
      assert keys[..i + 1] == keys[..i] + [keys[i]];
      forall j | 0 <= j < BITS ensures base[j] <==> AnyBit(code, keys[..i + 1], j) {
        AnyBitSnoc(code, keys[..i], keys[i], j);
      }
      i := i + 1;
    }
    assert keys[..i] == keys;
    r := Signed(Sig.Sign(base[..]));
  }

  // ----- The test on inner keys -----

  ghost function Filter(p: Trgm -> bool, q: seq<Trgm>): set<Trgm> {
    set t | t in q && p(t)
  }

  lemma FilterSnoc(p: Trgm -> bool, q: seq<Trgm>, n: nat)
    requires Strict(q) && n < |q|
    ensures |Filter(p, q[..n + 1])| == |Filter(p, q[..n])| + if p(q[n]) then 1 else 0
  {
    assert q[..n + 1] == q[..n] + [q[n]];
    assert q[n] !in q[..n];
    assert Filter(p, q[..n + 1]) == Filter(p, q[..n]) + if p(q[n]) then {q[n]} else {};
  }

  // The trigrams of q whose bit is set.
  ghost function Found(code: Code, k: Key, q: seq<Trgm>): set<Trgm>
    requires ValidKey(k)
  {
    Filter(t => Bit(code, k, HashVal(code, t)), q)
  }

  lemma FoundSize(code: Code, k: Key, q: seq<Trgm>)
    requires ValidKey(k) && Strict(q)
    ensures |Found(code, k, q)| <= |q|
  {
    StrictLength(q);
    SubsetSize(Found(code, k, q), Elems(q));
  }

  ghost predicate InnerTest(code: Code, k: Key, q: seq<Trgm>, limit: real) {
    && ValidKey(k) && Strict(q)
    && var count := |Found(code, k, q)|;
       count == |q| || (FoundSize(code, k, q); count as real / (|q| - count) as real >= limit)
  }

  /** gtrgm_consistent on an inner key */
  method ConsistentInner(code: Code, k: Key, q: seq<Trgm>, limit: real) returns (res: bool)
    requires ValidKey(k) && k.Signed? && Strict(q)
    ensures res <==> InnerTest(code, k, q, limit)
  {
    if k.sig.AllTrue? {
      assert Found(code, k, q) == Elems(q);
      StrictLength(q);
      return true;
    }
    var count: nat, n := 0, 0;
    while n < |q|
      invariant 0 <= n <= |q| && count == |Found(code, k, q[..n])|
    {
      FilterSnoc(t => Bit(code, k, HashVal(code, t)), q, n);
      count := count + if k.sig.bits[HashVal(code, q[n])] then 1 else 0;
      n := n + 1;
    }
    assert q[..n] == q;
    FoundSize(code, k, q);
    res := |q| == count || count as real / (|q| - count) as real >= limit;
  }

  // ----- Soundness -----

  ghost predicate Over(code: Code, k: Key, row: seq<Trgm>) {
    ValidKey(k) && Strict(row) && forall j :: 0 <= j < |row| ==> Bit(code, k, HashVal(code, row[j]))
  }

  lemma FractionGrows(r: real, c: nat, d: nat, c': nat, d': nat)
    requires r * d as real == c as real && 0.0 <= r && c <= c' && 0 < d' <= d
    ensures r <= c' as real / d' as real
  {
    var y, e := c' as real / d' as real, (d - d') as real;
    var dr := d' as real;
    assert y * dr == c' as real;
    assert r * e >= 0.0;
    assert r * d as real == r * dr + r * e;
    if r > y {
      assert (r - y) * dr > 0.0;
      assert (r - y) * dr == r * dr - y * dr;
    }
  }

  lemma CommonIsFound(code: Code, k: Key, row: seq<Trgm>, q: seq<Trgm>)
    requires Over(code, k, row) && Strict(q)
    ensures |Elems(row) * Elems(q)| <= |Found(code, k, q)| <= |q| <= |Elems(row) + Elems(q)|
  {
    var common, found := Elems(row) * Elems(q), Found(code, k, q);
    forall t | t in common ensures t in found {
      var j :| 0 <= j < |row| && row[j] == t;
      assert Bit(code, k, HashVal(code, row[j]));
    }
    SubsetSize(common, found);
    FoundSize(code, k, q);
    StrictLength(q);
    SubsetSize(Elems(q), Elems(row) + Elems(q));
  }

  /** The bound of the signature: if the similarity of a row reaches the limit, so does the count of query
      trigrams found in any signature that covers the row, over the query trigrams not found. */
  lemma InnerTestIsSound(code: Code, k: Key, row: seq<Trgm>, q: seq<Trgm>, limit: real)
    requires Over(code, k, row) && Strict(q) && Similar(Elems(row), Elems(q), limit)
    ensures InnerTest(code, k, q, limit)
  {
    var r :| IsSimilarity(r, Elems(row), Elems(q)) && r >= limit;
    SimilarityLaws(r, Elems(row), Elems(q));
    CommonIsFound(code, k, row, q);
    if |Found(code, k, q)| < |q| {
      SimilarityBelow(r, Elems(row), Elems(q), |Found(code, k, q)|, |q|);
    }
  }

  lemma SimilarityBelow(r: real, a: set<Trgm>, b: set<Trgm>, found: nat, all: nat)
    requires IsSimilarity(r, a, b) && 0.0 <= r && |a * b| <= found < all <= |a + b|
    ensures r <= found as real / (all - found) as real
  {
    FractionGrows(r, |a * b|, |a + b|, found, all - found);
  }

  // ----- Searching -----

  ghost predicate Accepts(q: seq<Trgm>, limit: real, row: seq<Trgm>) {
    Strict(row) && Strict(q) && Similar(Elems(row), Elems(q), limit)
  }

  ghost predicate LeafKey(k: Key, row: seq<Trgm>) {
    k == Arr(row) && Strict(row)
  }

  ghost predicate LeafTest(q: seq<Trgm>, limit: real, k: Key) {
    k.Arr? && Accepts(q, limit, k.trgms)
  }

  ghost predicate IndexWellBuilt(code: Code, t: Tree<Key, seq<Trgm>>) {
    WellBuilt(t, LeafKey, (k, row) => Over(code, k, row))
  }

  ghost function IndexScan(code: Code, t: Tree<Key, seq<Trgm>>, q: seq<Trgm>, limit: real): (rows: seq<seq<Trgm>>) {
    Scan(t, k => InnerTest(code, k, q, limit), (k, row) => LeafTest(q, limit, k))
  }

  /** For every tree, query and limit, an index scan returns exactly the rows whose similarity reaches the
      limit, in order. */
  lemma IndexScanIsSeqScan(code: Code, t: Tree<Key, seq<Trgm>>, q: seq<Trgm>, limit: real)
    requires IndexWellBuilt(code, t) && Strict(q)
    ensures IndexScan(code, t, q, limit) == Where(t, row => Accepts(q, limit, row))
  {
    forall k, row | Over(code, k, row) && Accepts(q, limit, row) ensures InnerTest(code, k, q, limit) {
      InnerTestIsSound(code, k, row, q, limit);
    }
    ScanIsWhere(t, LeafKey, (k, row) => Over(code, k, row), k => InnerTest(code, k, q, limit),
                (k, row) => LeafTest(q, limit, k), row => Accepts(q, limit, row));
  }

  // ----- Growing a tree -----

  method Plant(code: Code, row: seq<Trgm>) returns (t: Tree<Key, seq<Trgm>>)
    requires Strict(row)
    ensures t == Leaf(Arr(row), row) && IndexWellBuilt(code, t)
  {
    t := Leaf(Arr(row), row);
  }

  ghost predicate Grown(code: Code, ts: seq<Tree<Key, seq<Trgm>>>) {
    forall i :: 0 <= i < |ts| ==> ValidKey(ts[i].key) && IndexWellBuilt(code, ts[i])
  }

  lemma NodeGrows(code: Code, key: Key, ts: seq<Tree<Key, seq<Trgm>>>)
    requires Grown(code, ts) && ValidKey(key)
    requires forall j, i :: 0 <= j < |ts| && 0 <= i < SIGLENBIT && Bit(code, ts[j].key, i) ==> Bit(code, key, i)
    ensures IndexWellBuilt(code, Node(key, ts))
  {
    forall j, row | 0 <= j < |ts| && Over(code, ts[j].key, row) ensures Over(code, key, row) {
    }
    NodeIsWellBuilt(key, ts, LeafKey, (k, row) => Over(code, k, row));
  }

  function KeysOf(ts: seq<Tree<Key, seq<Trgm>>>): (keys: seq<Key>)
    ensures |keys| == |ts| && forall i :: 0 <= i < |ts| ==> keys[i] == ts[i].key
  {
    seq(|ts|, i requires 0 <= i < |ts| => ts[i].key)
  }

  /** The entry above a page: union of the keys, stored through compress. */
  method Above(code: Code, ts: seq<Tree<Key, seq<Trgm>>>) returns (t: Tree<Key, seq<Trgm>>)
    requires Grown(code, ts)
    ensures t.Node? && t.children == ts && Grown(code, [t])
  {
    var union := Union(code, KeysOf(ts));
    var sig := Sig.CompressInner(BITS, union.sig);
    var key := Signed(sig);
    forall j, i | 0 <= j < |ts| && 0 <= i < SIGLENBIT && Bit(code, ts[j].key, i) ensures Bit(code, key, i) {
      assert Bit(code, KeysOf(ts)[j], i);
      assert Bit(code, union, i);
    }
    NodeGrows(code, key, ts);
    t := Node(key, ts);
  }

  lemma ChosenGrows(code: Code, ts: seq<Tree<Key, seq<Trgm>>>, list: seq<nat>, cache: seq<Sig.Key>, datum: Sig.Key)
    requires Grown(code, ts) && Sig.ValidKey(BITS, datum) && Sig.ValidKeys(BITS, cache) && |cache| == |ts|
    requires forall j, i :: 0 <= j < |ts| && 0 <= i < SIGLENBIT && Bit(code, ts[j].key, i) ==> Sig.Bit(BITS, cache[j], i)
    requires Offsets(list, |ts|)
    requires forall i :: 0 <= i < BITS && Sig.ListedBit(BITS, cache, list, i) ==> Sig.Bit(BITS, datum, i)
    ensures IndexWellBuilt(code, Node(Signed(datum), Chosen(ts, list)))
  {
    var page := Chosen(ts, list);
    forall j, i | 0 <= j < |page| && 0 <= i < SIGLENBIT && Bit(code, page[j].key, i) ensures Bit(code, Signed(datum), i) {
      assert list[j] in list && Sig.Bit(BITS, cache[list[j]], i);
      assert Sig.ListedBit(BITS, cache, list, i);
    }
    NodeGrows(code, Signed(datum), page);
  }

  // The cache of signatures that picksplit works on.
  method FillAll(code: Code, ts: seq<Tree<Key, seq<Trgm>>>) returns (cache: seq<Sig.Key>)
    requires Grown(code, ts)
    ensures |cache| == |ts| && Sig.ValidKeys(BITS, cache)
    ensures forall j, i :: 0 <= j < |ts| && 0 <= i < SIGLENBIT && Bit(code, ts[j].key, i) ==> Sig.Bit(BITS, cache[j], i)
  {
    cache := [];
    var n := 0;
    while n < |ts|
      invariant 0 <= n <= |ts| && |cache| == n && Sig.ValidKeys(BITS, cache)
      invariant forall j, i :: 0 <= j < n && 0 <= i < SIGLENBIT && Bit(code, ts[j].key, i) ==> Sig.Bit(BITS, cache[j], i)
    {
      var sig := FillCache(code, ts[n].key);
      cache := cache + [sig];
      n := n + 1;
    }
  }

  /** A split page: two well built entries that share out the old ones. Offset 0 of the vector is unused. */
  method Split(code: Code, ts: seq<Tree<Key, seq<Trgm>>>, seed1: nat, seed2: nat, order: seq<nat>, goLeft: seq<bool>)
    returns (l: Tree<Key, seq<Trgm>>, r: Tree<Key, seq<Trgm>>, left: seq<nat>, right: seq<nat>)
    requires Grown(code, ts) && 1 <= seed1 < seed2 < |ts| && IsOrder(order, |ts|) && |goLeft| == |order|
    ensures Partition(left, right, |ts|)
    ensures l.Node? && l.children == Chosen(ts, left) && IndexWellBuilt(code, l)
    ensures r.Node? && r.children == Chosen(ts, right) && IndexWellBuilt(code, r)
  {
    var cache := FillAll(code, ts);
    var datumL, datumR;
    left, right, datumL, datumR := Sig.PickSplit(BITS, cache, seed1, seed2, order, goLeft);
    ChosenGrows(code, ts, left, cache, datumL);
    ChosenGrows(code, ts, right, cache, datumR);
    l, r := Node(Signed(datumL), Chosen(ts, left)), Node(Signed(datumR), Chosen(ts, right));
  }
}
