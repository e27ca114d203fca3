/** The hashed signatures of hstore's index. A key has a bit for every hash value that a key or a value
    below it may have; crc32 is any function from strings to numbers. */
module HStoreGist {
  import opened HStoreLayout
  import HStoreOp
  import opened Gist
  import opened Signature

  const SIGLENBIT := 128

  type Crc = string -> nat

  function HashVal(crc: Crc, w: string): nat {
    crc(w) % SIGLENBIT
  }

  // ----- Leaf keys -----

  // One of the first n pairs has a key or a value that hashes to bit i.
  ghost predicate Hashed(crc: Crc, ps: seq<Pair>, n: nat, i: nat)
    requires n <= |ps|
  {
    exists j :: 0 <= j < n && HashedBy(crc, ps[j], i)
  }

  predicate HashedBy(crc: Crc, p: Pair, i: nat) {
    i == HashVal(crc, p.key) || (p.val.Some? && i == HashVal(crc, p.val.value))
  }

  /** The key of a leaf has exactly the bits its pairs hash to. */
  ghost predicate IsLeafKey(crc: Crc, k: Key, h: HStore)
    requires Canonical(h)
  {
    k.Sign? && ValidKey(SIGLENBIT, k) && forall i :: 0 <= i < SIGLENBIT ==> (k.bits[i] <==> Hashed(crc, Pairs(h), |Pairs(h)|, i))
  }

  /** ghstore_compress on a row */
  method CompressLeaf(crc: Crc, h: HStore) returns (k: Key)
    requires Canonical(h)
    ensures IsLeafKey(crc, k, h)
  {
    ghost var ps := Pairs(h);
    var sign := new bool[SIGLENBIT](_ => false);
    var ptr := 0;
    while ptr < |h.entries|
      invariant 0 <= ptr <= |ps|
      invariant forall i :: 0 <= i < SIGLENBIT ==> (sign[i] <==> Hashed(crc, ps, ptr, i))
    {
      PackedBytes(h, ps, ptr);
      var e := h.entries[ptr];
      ghost var before := sign[..];
      sign[HashVal(crc, h.data[e.pos..e.pos + e.keylen])] := true;
      if !e.valisnull {
        sign[HashVal(crc, h.data[e.pos + e.keylen..e.pos + e.keylen + e.vallen])] := true;
      }
      forall i | 0 <= i < SIGLENBIT ensures sign[i] <==> Hashed(crc, ps, ptr + 1, i) {
        assert sign[i] <==> before[i] || HashedBy(crc, ps[ptr], i);
        HashedNext(crc, ps, ptr, i);
      }
      ptr := ptr + 1;
    }
    k := Sign(sign[..]);
  }

  lemma HashedNext(crc: Crc, ps: seq<Pair>, n: nat, i: nat)
    requires n < |ps|
    ensures Hashed(crc, ps, n + 1, i) <==> Hashed(crc, ps, n, i) || HashedBy(crc, ps[n], i)
  {
    if Hashed(crc, ps, n, i) {
      var j :| 0 <= j < n && HashedBy(crc, ps[j], i);
      assert 0 <= j < n + 1;
    }
  }

  // ----- Searching -----

  datatype Query = Contains(tmpl: HStore) | Exists(key: string)

  // The bits of pair p are set.
  predicate HasBits(crc: Crc, k: Key, p: Pair)
    requires ValidKey(SIGLENBIT, k)
  {
    && Bit(SIGLENBIT, k, HashVal(crc, p.key))
    && (p.val.Some? ==> Bit(SIGLENBIT, k, HashVal(crc, p.val.value)))
  }

  /** What the test on a key asks. */
  ghost predicate MayMatch(crc: Crc, k: Key, query: Query) {
    && ValidKey(SIGLENBIT, k)
    && match query
       case Contains(tmpl) => Canonical(tmpl) && forall i :: 0 <= i < |Pairs(tmpl)| ==> HasBits(crc, k, Pairs(tmpl)[i])
       case Exists(key) => Bit(SIGLENBIT, k, HashVal(crc, key))
  }

  /** ghstore_consistent */
  method Consistent(crc: Crc, k: Key, query: Query) returns (res: bool)
    requires ValidKey(SIGLENBIT, k) && (query.Contains? ==> Canonical(query.tmpl))
    ensures res <==> MayMatch(crc, k, query)
  {
    if k.AllTrue? {
      return true;
    }
    match query
    case Contains(tmpl) =>
      ghost var ts := Pairs(tmpl);
      res := true;
      var qe := 0;
      while res && qe < |tmpl.entries|
        invariant 0 <= qe <= |ts|
        invariant res ==> forall i :: 0 <= i < qe ==> HasBits(crc, k, ts[i])
        invariant !res ==> exists i :: 0 <= i < |ts| && !HasBits(crc, k, ts[i])
      {
        PackedBytes(tmpl, ts, qe);
        var e := tmpl.entries[qe];
        if k.bits[HashVal(crc, tmpl.data[e.pos..e.pos + e.keylen])] {
          if !e.valisnull {
            if !k.bits[HashVal(crc, tmpl.data[e.pos + e.keylen..e.pos + e.keylen + e.vallen])] {
              res := false;
            }
          }
        } else {
          res := false;
        }
        assert res == HasBits(crc, k, ts[qe]);
        qe := qe + 1;
      }
    case Exists(key) => res := k.bits[HashVal(crc, key)];
  }

  /** The operator a query stands for: @> or ?. */
  ghost predicate Accepts(query: Query, row: HStore) {
    && Canonical(row)
    && match query
       case Contains(tmpl) => Canonical(tmpl) && HStoreOp.Includes(row, tmpl)
       case Exists(key) => key in Contents(row)
  }

  // The key has every bit a pair of the row hashes to.
  ghost predicate Over(crc: Crc, k: Key, row: HStore) {
    ValidKey(SIGLENBIT, k) && Canonical(row) && forall i :: 0 <= i < |Pairs(row)| ==> HasBits(crc, k, Pairs(row)[i])
  }

  lemma LeafKeyIsOver(crc: Crc, k: Key, row: HStore)
    requires Canonical(row) && IsLeafKey(crc, k, row)
    ensures Over(crc, k, row)
  {
    var ps := Pairs(row);
    forall i | 0 <= i < |ps| ensures HasBits(crc, k, ps[i]) {
      assert HashedBy(crc, ps[i], HashVal(crc, ps[i].key));
      assert ps[i].val.Some? ==> HashedBy(crc, ps[i], HashVal(crc, ps[i].val.value));
    }
  }

  // A key that keeps every bit stays over the rows.
  lemma MoreBitsIsOver(crc: Crc, k: Key, more: Key, row: HStore)
    requires Over(crc, k, row) && ValidKey(SIGLENBIT, more)
    requires forall i :: 0 <= i < SIGLENBIT && Bit(SIGLENBIT, k, i) ==> Bit(SIGLENBIT, more, i)
    ensures Over(crc, more, row)
  {
    forall i | 0 <= i < |Pairs(row)| ensures HasBits(crc, more, Pairs(row)[i]) {
      assert HasBits(crc, k, Pairs(row)[i]);
    }
  }

  lemma PairBits(crc: Crc, k: Key, row: HStore, p: Pair)
    requires Over(crc, k, row) && HStoreOp.Has(Contents(row), p)
    ensures HasBits(crc, k, p)
  {
    var ps := Pairs(row);
    MapKeys(ps, p.key);
    var j :| 0 <= j < |ps| && ps[j].key == p.key;
    MapAt(ps, j);
    assert HasBits(crc, k, ps[j]);
  }

  /** No false negatives: a key over a row that the operator accepts passes the test. */
  lemma TestIsSound(crc: Crc, k: Key, query: Query, row: HStore)
    requires Over(crc, k, row) && Accepts(query, row)
    ensures MayMatch(crc, k, query)
  {
    match query
    case Contains(tmpl) =>
      HStoreOp.IncludesPairs(row, tmpl);
      forall i | 0 <= i < |Pairs(tmpl)| ensures HasBits(crc, k, Pairs(tmpl)[i]) {
        PairBits(crc, k, row, Pairs(tmpl)[i]);
      }
    case Exists(key) => PairBits(crc, k, row, Pair(key, Contents(row)[key]));
  }

  ghost predicate IndexWellBuilt(crc: Crc, t: Tree<Key, HStore>) {
    WellBuilt(t, (k, row) => Canonical(row) && IsLeafKey(crc, k, row), (k, row) => Over(crc, k, row))
  }

  ghost function IndexScan(crc: Crc, t: Tree<Key, HStore>, query: Query): (rows: seq<HStore>) {
    Scan(t, k => MayMatch(crc, k, query), (k, row) => MayMatch(crc, k, query) && Accepts(query, row))
  }

  /** For every tree and every hash function, an index scan with recheck returns exactly the rows that a
      sequential scan with the operator returns, in order. */
  lemma IndexScanIsSeqScan(crc: Crc, t: Tree<Key, HStore>, query: Query)
    requires IndexWellBuilt(crc, t)
    ensures IndexScan(crc, t, query) == Where(t, row => Accepts(query, row))
  {
    forall k, row | Over(crc, k, row) && Accepts(query, row) ensures MayMatch(crc, k, query) {
      TestIsSound(crc, k, query, row);
    }
    ScanIsWhere(t, (k, row) => Canonical(row) && IsLeafKey(crc, k, row), (k, row) => Over(crc, k, row),
                k => MayMatch(crc, k, query), (k, row) => MayMatch(crc, k, query) && Accepts(query, row),
                row => Accepts(query, row));
  }

  // ----- Growing a tree -----

  /** The entry of a row. */
  method Plant(crc: Crc, row: HStore) returns (t: Tree<Key, HStore>)
    requires Canonical(row)
    ensures t.Leaf? && t.row == row && ValidKey(SIGLENBIT, t.key) && IndexWellBuilt(crc, t)
  {
    var key := CompressLeaf(crc, row);
    LeafKeyIsOver(crc, key, row);
    t := Leaf(key, row);
  }

  ghost predicate Grown(crc: Crc, ts: seq<Tree<Key, HStore>>) {
    forall i :: 0 <= i < |ts| ==> ValidKey(SIGLENBIT, ts[i].key) && IndexWellBuilt(crc, ts[i])
  }

  lemma NodeGrows(crc: Crc, key: Key, ts: seq<Tree<Key, HStore>>)
    requires Grown(crc, ts) && ValidKey(SIGLENBIT, key)
    requires forall j, i :: 0 <= j < |ts| && 0 <= i < SIGLENBIT && Bit(SIGLENBIT, ts[j].key, i) ==> Bit(SIGLENBIT, key, i)
    ensures IndexWellBuilt(crc, Node(key, ts))
  {
    forall j, row | 0 <= j < |ts| && Over(crc, ts[j].key, row) ensures Over(crc, key, row) {
      MoreBitsIsOver(crc, ts[j].key, key, row);
    }
    NodeIsWellBuilt(key, ts, (k, row) => Canonical(row) && IsLeafKey(crc, k, row), (k, row) => Over(crc, k, row));
  }

  /** The entry above a page: union of the keys, stored through compress. */
  method Above(crc: Crc, ts: seq<Tree<Key, HStore>>) returns (t: Tree<Key, HStore>)
    requires Grown(crc, ts)
    ensures t.Node? && t.children == ts && ValidKey(SIGLENBIT, t.key) && IndexWellBuilt(crc, t)
  {
    var keys := seq(|ts|, i requires 0 <= i < |ts| => ts[i].key);
    var union := Union(SIGLENBIT, keys);
    var key := CompressInner(SIGLENBIT, union);
    forall j, i | 0 <= j < |ts| && 0 <= i < SIGLENBIT && Bit(SIGLENBIT, ts[j].key, i) ensures Bit(SIGLENBIT, key, i) {
      assert keys[j] == ts[j].key;
      assert AnyBit(SIGLENBIT, keys, i);
    }
    NodeGrows(crc, key, ts);
    t := Node(key, ts);
  }

  lemma ChosenGrows(crc: Crc, ts: seq<Tree<Key, HStore>>, list: seq<nat>, keys: seq<Key>, datum: Key)
    requires Grown(crc, ts) && ValidKey(SIGLENBIT, datum) && ValidKeys(SIGLENBIT, keys) && |keys| == |ts|
    requires forall i :: 0 <= i < |ts| ==> keys[i] == ts[i].key
    requires Offsets(list, |ts|)
    requires forall i :: 0 <= i < SIGLENBIT && ListedBit(SIGLENBIT, keys, list, i) ==> Bit(SIGLENBIT, datum, i)
    ensures IndexWellBuilt(crc, Node(datum, Chosen(ts, list)))
  {
    var page := Chosen(ts, list);
    forall j, i | 0 <= j < |page| && 0 <= i < SIGLENBIT && Bit(SIGLENBIT, page[j].key, i) ensures Bit(SIGLENBIT, datum, i) {
      assert list[j] in list && Bit(SIGLENBIT, keys[list[j]], i);
    }
    NodeGrows(crc, datum, page);
  }

  /** A split page: two well built entries that share out the old ones. Offset 0 of the vector is unused. */
  method Split(crc: Crc, ts: seq<Tree<Key, HStore>>, seed1: nat, seed2: nat, order: seq<nat>, goLeft: seq<bool>)
    returns (l: Tree<Key, HStore>, r: Tree<Key, HStore>, left: seq<nat>, right: seq<nat>)
    requires Grown(crc, ts) && 1 <= seed1 < seed2 < |ts| && IsOrder(order, |ts|) && |goLeft| == |order|
    ensures Partition(left, right, |ts|)
    ensures l.Node? && l.children == Chosen(ts, left) && IndexWellBuilt(crc, l)
    ensures r.Node? && r.children == Chosen(ts, right) && IndexWellBuilt(crc, r)
  {
    var keys := seq(|ts|, i requires 0 <= i < |ts| => ts[i].key);
    var datumL, datumR;
    left, right, datumL, datumR := PickSplit(SIGLENBIT, keys, seed1, seed2, order, goLeft);
    ChosenGrows(crc, ts, left, keys, datumL);
    ChosenGrows(crc, ts, right, keys, datumR);
    l, r := Node(datumL, Chosen(ts, left)), Node(datumR, Chosen(ts, right));
  }
}
