/** The hstore operators: look-up by binary search, removal, concatenation and containment, on the packed
    layout. */
module HStoreOp {
  import opened Basics
  import opened CString
  import opened HStoreLayout

  // ----- Look-up -----

  /** findkey: the entry with the key, exactly when the map has the key. */
  method FindKey(h: HStore, key: string) returns (r: Option<nat>)
    requires Canonical(h) && NoNul(key)
    ensures r.Some? <==> key in Contents(h)
    ensures r.Some? ==> r.value < |Pairs(h)| && Pairs(h)[r.value] == Pair(key, Contents(h)[key])
  {
    ghost var ps := Pairs(h);
    var stopLow, stopHigh := 0, |h.entries|;
    while stopLow < stopHigh
      invariant 0 <= stopLow <= stopHigh <= |ps|
      invariant forall i :: 0 <= i < stopLow ==> Before(ps[i].key, key)
      invariant forall i :: stopHigh <= i < |ps| ==> Before(key, ps[i].key)
    {
      var stopMiddle := stopLow + (stopHigh - stopLow) / 2;
      var e := h.entries[stopMiddle];
      PackedBytes(h, ps, stopMiddle);
      var difference := if e.keylen == |key| then Strncmp(h.data[e.pos..e.pos + e.keylen], key)
                        else if e.keylen > |key| then 1 else -1;
      ghost var middle := ps[stopMiddle].key;
      KeyOrderIsTotal(middle, key, "");
      if difference == 0 {
        MapAt(ps, stopMiddle);
        return Some(stopMiddle);
      } else if difference < 0 {
        forall i | 0 <= i < stopMiddle ensures Before(ps[i].key, key) {
          SortedAt(ps, i, stopMiddle);
          KeyOrderIsTotal(ps[i].key, middle, key);
        }
        stopLow := stopMiddle + 1;
      } else {
        forall i | stopMiddle < i < |ps| ensures Before(key, ps[i].key) {
          SortedAt(ps, stopMiddle, i);
          KeyOrderIsTotal(key, middle, ps[i].key);
        }
        stopHigh := stopMiddle;
      }
    }
    NotBetween(ps, key, stopLow);
    return None;
  }

  lemma NotBetween(ps: seq<Pair>, key: string, n: nat)
    requires n <= |ps| && NoNul(key) && AllWellSized(ps)
    requires forall i :: 0 <= i < n ==> Before(ps[i].key, key)
    requires forall i :: n <= i < |ps| ==> Before(key, ps[i].key)
    ensures key !in ToMap(ps)
  {
    MapKeys(ps, key);
    forall i | 0 <= i < |ps| ensures ps[i].key != key {
      KeyOrderIsTotal(ps[i].key, key, "");
    }
  }

  /** hs -> key: the value, or NULL for an absent key and for a NULL value alike. */
  method FetchVal(h: HStore, key: string) returns (r: Option<string>)
    requires Canonical(h) && NoNul(key)
    ensures r == if key in Contents(h) then Contents(h)[key] else None
  {
    var entry := FindKey(h, key);
    if entry.None? {
      return None;
    }
    PackedBytes(h, Pairs(h), entry.value);
    if h.entries[entry.value].valisnull {
      return None;
    }
    var e := h.entries[entry.value];
    return Some(h.data[e.pos + e.keylen..e.pos + e.keylen + e.vallen]);
  }

  /** hs ? key */
  method Exists(h: HStore, key: string) returns (r: bool)
    requires Canonical(h) && NoNul(key)
    ensures r <==> key in Contents(h)
  {
    var entry := FindKey(h, key);
    return entry.Some?;
  }

  method Defined(h: HStore, key: string) returns (r: bool)
    requires Canonical(h) && NoNul(key)
    ensures r <==> key in Contents(h) && Contents(h)[key].Some?
  {
    var entry := FindKey(h, key);
    if entry.Some? {
      PackedBytes(h, Pairs(h), entry.value);
    }
    return entry.Some? && !h.entries[entry.value].valisnull;
  }

  // The values of an entry and of the entry that was looked up for it are the same.
  predicate SameValue(val: HStore, entry: HEntry, tmpl: HStore, te: HEntry)
    requires !entry.valisnull ==> entry.pos + entry.keylen + entry.vallen <= |val.data|
    requires !te.valisnull ==> te.pos + te.keylen + te.vallen <= |tmpl.data|
  {
    if te.valisnull || entry.valisnull then te.valisnull && entry.valisnull
    else te.vallen == entry.vallen
         && Strncmp(val.data[entry.pos + entry.keylen..entry.pos + entry.keylen + te.vallen],
                    tmpl.data[te.pos + te.keylen..te.pos + te.keylen + te.vallen]) == 0
  }

  lemma SameValueIsEqual(val: HStore, vs: seq<Pair>, i: nat, tmpl: HStore, ts: seq<Pair>, j: nat)
    requires PacksSorted(val, vs) && i < |vs| && PacksSorted(tmpl, ts) && j < |ts|
    ensures !val.entries[i].valisnull ==>
              val.entries[i].pos + val.entries[i].keylen + val.entries[i].vallen <= |val.data|
    ensures !tmpl.entries[j].valisnull ==>
              tmpl.entries[j].pos + tmpl.entries[j].keylen + tmpl.entries[j].vallen <= |tmpl.data|
    ensures SameValue(val, val.entries[i], tmpl, tmpl.entries[j]) <==> vs[i].val == ts[j].val
  {
    PackedBytes(val, vs, i);
    PackedBytes(tmpl, ts, j);
    if vs[i].val.Some? && ts[j].val.Some? && |vs[i].val.value| == |ts[j].val.value| {
      StrncmpZero(vs[i].val.value, ts[j].val.value);
    }
  }

  /** val contains tmpl as maps: every key of tmpl, with an equal value; NULL equals only NULL. */
  ghost predicate Includes(val: HStore, tmpl: HStore)
    requires Canonical(val) && Canonical(tmpl)
  {
    forall k :: k in Contents(tmpl) ==> k in Contents(val) && Contents(val)[k] == Contents(tmpl)[k]
  }

  // The map has the pair.
  ghost predicate Has(m: map<string, Option<string>>, p: Pair) {
    p.key in m && m[p.key] == p.val
  }

  lemma IncludesPairs(val: HStore, tmpl: HStore)
    requires Canonical(val) && Canonical(tmpl)
    ensures var ts := Pairs(tmpl);
            Includes(val, tmpl) <==> forall i :: 0 <= i < |ts| ==> Has(Contents(val), ts[i])
  {
    var ts := Pairs(tmpl);
    forall i | 0 <= i < |ts| ensures Has(Contents(tmpl), ts[i]) {
      MapAt(ts, i);
    }
    if forall i :: 0 <= i < |ts| ==> Has(Contents(val), ts[i]) {
      forall k | k in Contents(tmpl) ensures k in Contents(val) && Contents(val)[k] == Contents(tmpl)[k] {
        MapKeys(ts, k);
        var i :| 0 <= i < |ts| && ts[i].key == k;
        assert Has(Contents(tmpl), ts[i]);
      }
    }
  }

  // Whether val has the pair of entry te of tmpl.
  method HasEntry(val: HStore, tmpl: HStore, te: nat) returns (res: bool)
    requires Canonical(val) && Canonical(tmpl) && te < |tmpl.entries|
    ensures te < |Pairs(tmpl)| && (res <==> Has(Contents(val), Pairs(tmpl)[te]))
  {
    PackedBytes(tmpl, Pairs(tmpl), te);
    var t := tmpl.entries[te];
    var entry := FindKey(val, tmpl.data[t.pos..t.pos + t.keylen]);
    if entry.None? {
      return false;
    }
    SameValueIsEqual(val, Pairs(val), entry.value, tmpl, Pairs(tmpl), te);
    return SameValue(val, val.entries[entry.value], tmpl, t);
  }

  /** val @> tmpl */
  method HsContains(val: HStore, tmpl: HStore) returns (res: bool)
    requires Canonical(val) && Canonical(tmpl)
    ensures res <==> Includes(val, tmpl)
  {
    res := true;
    var te := 0;
    IncludesPairs(val, tmpl);
    while res && te < |tmpl.entries|
      invariant 0 <= te <= |tmpl.entries| == |Pairs(tmpl)|
      invariant res ==> forall i :: 0 <= i < te ==> Has(Contents(val), Pairs(tmpl)[i])
      invariant !res ==> exists i :: 0 <= i < |Pairs(tmpl)| && !Has(Contents(val), Pairs(tmpl)[i])
    {
      res := HasEntry(val, tmpl, te);
      te := te + 1;
    }
  }
}
