/** Signatures: bit vectors of n bits that index keys keep of everything below them, with a short form for
    the vector whose bits are all set. */
module Signature {
  import opened Gist

  // An index key: ALLISTRUE, or the bits of the signature.
  datatype Key = AllTrue | Sign(bits: seq<bool>)

  predicate ValidKey(n: nat, k: Key) {
    k.Sign? ==> |k.bits| == n
  }

  predicate Bit(n: nat, k: Key, i: nat)
    requires ValidKey(n, k) && i < n
  {
    k.AllTrue? || k.bits[i]
  }

  // ----- Inner keys -----

  /** ghstore_compress and gtrgm_compress on an inner key: only the way an all-true key is stored changes. */
  method CompressInner(n: nat, k: Key) returns (r: Key)
    requires ValidKey(n, k)
    ensures ValidKey(n, r) && forall i :: 0 <= i < n ==> Bit(n, r, i) == Bit(n, k, i)
  {
    if k.AllTrue? {
      return k;
    }
    var i := 0;
    while i < n
      invariant 0 <= i <= n && forall j :: 0 <= j < i ==> k.bits[j]
    {
      if !k.bits[i] {
        return k;
      }
      i := i + 1;
    }
    return AllTrue;
  }

  // unionkey
  method UnionKey(n: nat, sbase: array<bool>, add: Key) returns (flag: bool)
    requires sbase.Length == n && ValidKey(n, add)
    modifies sbase
    ensures flag == add.AllTrue?
    ensures forall i :: 0 <= i < n ==> (sbase[i] <==> old(sbase[i]) || (!flag && Bit(n, add, i)))
  {
    if add.AllTrue? {
      return true;
    }
    var i := 0;
    while i < n
      invariant 0 <= i <= n
      invariant forall j :: 0 <= j < n ==> (sbase[j] <==> old(sbase[j]) || (j < i && Bit(n, add, j)))
    {
      sbase[i] := sbase[i] || add.bits[i];
      i := i + 1;
    }
    return false;
  }

  predicate ValidKeys(n: nat, keys: seq<Key>) {
    forall j :: 0 <= j < |keys| ==> ValidKey(n, keys[j])
  }

  // Some key has bit i.
  ghost predicate AnyBit(n: nat, keys: seq<Key>, i: nat)
    requires ValidKeys(n, keys) && i < n
  {
    exists j :: 0 <= j < |keys| && Bit(n, keys[j], i)
  }

  lemma AnyBitSnoc(n: nat, keys: seq<Key>, k: Key, i: nat)
    requires ValidKeys(n, keys) && ValidKey(n, k) && i < n
    ensures AnyBit(n, keys + [k], i) <==> AnyBit(n, keys, i) || Bit(n, k, i)
  {
    if AnyBit(n, keys, i) {
      var j :| 0 <= j < |keys| && Bit(n, keys[j], i);
      assert (keys + [k])[j] == keys[j];
    }
    assert (keys + [k])[|keys|] == k;
  }

  /** ghstore_union and gtrgm_union: exactly the bits of the keys. */
  method Union(n: nat, keys: seq<Key>) returns (r: Key)
    requires ValidKeys(n, keys)
    ensures ValidKey(n, r) && forall i :: 0 <= i < n ==> (Bit(n, r, i) <==> AnyBit(n, keys, i))
  {
    var base := new bool[n](_ => false);
    var i := 0;
    while i < |keys|
      invariant 0 <= i <= |keys|
      invariant forall j :: 0 <= j < n ==> (base[j] <==> AnyBit(n, keys[..i], j))
    {
      var flag := UnionKey(n, base, keys[i]);
      if flag {
        return AllTrue;
      }
      assert keys[..i + 1] == keys[..i] + [keys[i]];
      forall j | 0 <= j < n ensures base[j] <==> AnyBit(n, keys[..i + 1], j) {
        AnyBitSnoc(n, keys[..i], keys[i], j);
      }
      i := i + 1;
    }
    assert keys[..i] == keys;
    r := Sign(base[..]);
  }

  // ----- Splitting a page -----

  // One key added to the key of a page under construction.
  method AddTo(n: nat, datum: Key, add: Key) returns (r: Key)
    requires ValidKey(n, datum) && ValidKey(n, add)
    ensures ValidKey(n, r) && forall i :: 0 <= i < n ==> (Bit(n, r, i) <==> Bit(n, datum, i) || Bit(n, add, i))
  {
    if datum.AllTrue? {
      return datum;
    }
    if add.AllTrue? {
      return Sign(seq(n, _ => true));
    }
    var union := new bool[n](i requires 0 <= i < n => datum.bits[i]);
    var flag := UnionKey(n, union, add);
    r := Sign(union[..]);
  }

  // datum has the bits of the seed and of the entries listed, and no others.
  ghost predicate SideKey(n: nat, datum: Key, entries: seq<Key>, list: seq<nat>, seed: nat) {
    && ValidKey(n, datum) && ValidKeys(n, entries) && seed < |entries|
    && (forall j :: j in list ==> j < |entries|)
    && forall i :: 0 <= i < n ==> (Bit(n, datum, i) <==> Bit(n, entries[seed], i) || ListedBit(n, entries, list, i))
  }

  ghost predicate ListedBit(n: nat, entries: seq<Key>, list: seq<nat>, i: nat)
    requires ValidKeys(n, entries) && i < n && forall j :: j in list ==> j < |entries|
  {
    exists j :: j in list && Bit(n, entries[j], i)
  }

  lemma ListedSnoc(n: nat, entries: seq<Key>, list: seq<nat>, j: nat, i: nat)
    requires ValidKeys(n, entries) && i < n && j < |entries| && forall j' :: j' in list ==> j' < |entries|
    ensures forall j' :: j' in list + [j] ==> j' < |entries|
    ensures ListedBit(n, entries, list + [j], i) <==> ListedBit(n, entries, list, i) || Bit(n, entries[j], i)
  {
    if ListedBit(n, entries, list, i) {
      var j' :| j' in list && Bit(n, entries[j'], i);
      assert j' in list + [j];
    }
    assert j in list + [j];
  }

  // Puts entry j on a side: its bits are added, unless it is the seed, whose bits are there.
  method PutOn(n: nat, datum: Key, entries: seq<Key>, list: seq<nat>, seed: nat, j: nat) returns (datum': Key)
    requires SideKey(n, datum, entries, list, seed) && j < |entries|
    ensures SideKey(n, datum', entries, list + [j], seed)
  {
    datum' := datum;
    if j != seed {
      datum' := AddTo(n, datum, entries[j]);
    }
    forall i | 0 <= i < n
      ensures Bit(n, datum', i) <==> Bit(n, entries[seed], i) || ListedBit(n, entries, list + [j], i)
    {
      ListedSnoc(n, entries, list, j, i);
    }
  }

  /** ghstore_picksplit and gtrgm_picksplit, for any two seeds, any order of the costs and any choice of
      sides: the offsets are partitioned, and each new key has exactly the bits of the entries on its page. */
  method PickSplit(n: nat, entries: seq<Key>, seed1: nat, seed2: nat, order: seq<nat>, goLeft: seq<bool>)
    returns (left: seq<nat>, right: seq<nat>, datumL: Key, datumR: Key)
    requires ValidKeys(n, entries) && 1 <= seed1 < seed2 < |entries|
    requires IsOrder(order, |entries|) && |goLeft| == |order|
    ensures Partition(left, right, |entries|) && ValidKey(n, datumL) && ValidKey(n, datumR)
    ensures forall i :: 0 <= i < n ==> (Bit(n, datumL, i) <==> ListedBit(n, entries, left, i))
    ensures forall i :: 0 <= i < n ==> (Bit(n, datumR, i) <==> ListedBit(n, entries, right, i))
  {
    left, right, datumL, datumR := [], [], entries[seed1], entries[seed2];
    var k := 0;
    while k < |order|
      invariant 0 <= k <= |order| && Assigned(left, right, order, k, seed1, seed2)
      invariant SideKey(n, datumL, entries, left, seed1) && SideKey(n, datumR, entries, right, seed2)
    {
      var j := order[k];
      AssignNext(left, right, order, k, seed1, seed2);
      if j == seed1 || (j != seed2 && goLeft[k]) {
        datumL := PutOn(n, datumL, entries, left, seed1, j);
        left := left + [j];
      } else {
        datumR := PutOn(n, datumR, entries, right, seed2, j);
        right := right + [j];
      }
      k := k + 1;
    }
    AssignedAll(left, right, order, |entries|, seed1, seed2);
  }
}
