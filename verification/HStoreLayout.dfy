/** The packed layout of an hstore: an array of entries and, right after it, the bytes of every key and
    value. A layout packs a list of pairs; a canonical one has its keys in strictly increasing order and
    so stands for a finite map from keys to optional values. */
module HStoreLayout {
  import opened Basics
  import opened CString

  // A key with its value, or with no value for NULL.
  datatype Pair = Pair(key: string, val: Option<string>)

  datatype HEntry = HEntry(keylen: nat, vallen: nat, valisnull: bool, pos: nat)

  datatype HStore = HStore(entries: seq<HEntry>, data: string)

  const HSTORE_MAX_KEY_LEN := 65535
  const HSTORE_MAX_VALUE_LEN := 65535
  const HEADER_SIZE := 8
  const ENTRY_SIZE := 8

  // CALCDATASIZE
  function DataSize(n: nat, bytes: nat): nat {
    n * ENTRY_SIZE + HEADER_SIZE + bytes
  }

  // VARSIZE
  function VarSize(h: HStore): nat {
    DataSize(|h.entries|, |h.data|)
  }

  // ----- The order of the keys -----

  // The sign of the key comparison: shorter keys first, then byte by byte.
  function Difference(a: string, b: string): int {
    if |a| == |b| then Strncmp(a, b) else if |a| > |b| then 1 else -1
  }

  predicate Before(a: string, b: string) {
    Difference(a, b) < 0
  }

  /** The key comparison is a strict total order on strings without NUL. */
  lemma KeyOrderIsTotal(a: string, b: string, c: string)
    requires NoNul(a) && NoNul(b)
    ensures Difference(a, b) == 0 <==> a == b
    ensures a != b ==> (Before(a, b) <==> !Before(b, a))
    ensures Before(a, b) && Before(b, c) ==> Before(a, c)
    ensures Difference(a, b) > 0 <==> Before(b, a)
  {
    if |a| == |b| {
      StrncmpZero(a, b);
      StrncmpFlips(a, b);
    }
    if |a| == |b| == |c| && Before(a, b) && Before(b, c) {
      StrncmpChains(a, b, c);
    }
  }

  // ----- Lists of pairs -----

  predicate WellSized(p: Pair) {
    && |p.key| <= HSTORE_MAX_KEY_LEN && NoNul(p.key)
    && (p.val.Some? ==> |p.val.value| <= HSTORE_MAX_VALUE_LEN && NoNul(p.val.value))
  }

  predicate AllWellSized(ps: seq<Pair>) {
    forall i :: 0 <= i < |ps| ==> WellSized(ps[i])
  }

  // Every key of ps comes after k.
  predicate Above(k: string, ps: seq<Pair>) {
    forall i :: 0 <= i < |ps| ==> Before(k, ps[i].key)
  }

  predicate Sorted(ps: seq<Pair>) {
    ps == [] || (Above(ps[0].key, ps[1..]) && Sorted(ps[1..]))
  }

  function ToMap(ps: seq<Pair>): map<string, Option<string>> {
    if ps == [] then map[] else ToMap(ps[1..])[ps[0].key := ps[0].val]
  }

  lemma {:induction false} SortedAt(ps: seq<Pair>, i: nat, j: nat)
    requires Sorted(ps) && i < j < |ps|
    ensures Before(ps[i].key, ps[j].key)
  {
    if i == 0 {
      assert ps[j] == ps[1..][j - 1];
    } else {
      SortedAt(ps[1..], i - 1, j - 1);
    }
  }

  lemma {:induction false} MapKeys(ps: seq<Pair>, k: string)
    ensures k in ToMap(ps) <==> exists i :: 0 <= i < |ps| && ps[i].key == k
  {
    if ps != [] {
      MapKeys(ps[1..], k);
      assert forall i :: 1 <= i < |ps| ==> ps[i] == ps[1..][i - 1];
      if i :| 0 <= i < |ps[1..]| && ps[1..][i].key == k {
        assert ps[i + 1].key == k;
      }
    }
  }

  lemma {:induction false} MapAt(ps: seq<Pair>, i: nat)
    requires Sorted(ps) && AllWellSized(ps) && i < |ps|
    ensures ps[i].key in ToMap(ps) && ToMap(ps)[ps[i].key] == ps[i].val
  {
    if i > 0 {
      SortedAt(ps, 0, i);
      KeyOrderIsTotal(ps[0].key, ps[i].key, "");
      MapAt(ps[1..], i - 1);
    }
  }

  lemma AboveIsAbsent(k: string, ps: seq<Pair>)
    requires NoNul(k) && AllWellSized(ps) && Above(k, ps)
    ensures k !in ToMap(ps)
  {
    MapKeys(ps, k);
    forall i | 0 <= i < |ps| ensures ps[i].key != k {
      KeyOrderIsTotal(k, ps[i].key, "");
    }
  }

  lemma AboveChains(k: string, m: string, ps: seq<Pair>)
    requires NoNul(k) && NoNul(m) && AllWellSized(ps) && Before(k, m) && Above(m, ps)
    ensures Above(k, ps)
  {
    forall i | 0 <= i < |ps| ensures Before(k, ps[i].key) {
      KeyOrderIsTotal(k, m, ps[i].key);
    }
  }

  lemma TailMap(ps: seq<Pair>)
    requires ps != [] && Sorted(ps) && AllWellSized(ps)
    ensures ToMap(ps[1..]) == ToMap(ps) - {ps[0].key}
  {
    AboveIsAbsent(ps[0].key, ps[1..]);
  }

  // No key of ps comes before the first one.
  lemma FirstIsLeast(ps: seq<Pair>, k: string)
    requires ps != [] && Sorted(ps) && AllWellSized(ps) && NoNul(k) && k in ToMap(ps)
    ensures k == ps[0].key || Before(ps[0].key, k)
  {
    MapKeys(ps, k);
    var i :| 0 <= i < |ps| && ps[i].key == k;
    if i > 0 {
      SortedAt(ps, 0, i);
    }
  }

  /** A map has one list of pairs in order: the canonical form is unique. */
  lemma {:induction false} MapDeterminesPairs(ps: seq<Pair>, qs: seq<Pair>)
    requires Sorted(ps) && AllWellSized(ps) && Sorted(qs) && AllWellSized(qs) && ToMap(ps) == ToMap(qs)
    ensures ps == qs
  {
    if ps != [] {
      MapAt(ps, 0);
    }
    if qs != [] {
      MapAt(qs, 0);
    }
    if ps != [] && qs != [] {
      FirstIsLeast(ps, qs[0].key);
      FirstIsLeast(qs, ps[0].key);
      KeyOrderIsTotal(ps[0].key, qs[0].key, "");
      TailMap(ps);
      TailMap(qs);
      MapDeterminesPairs(ps[1..], qs[1..]);
      assert ps == [ps[0]] + ps[1..] && qs == [qs[0]] + qs[1..];
    }
  }

  // ----- The bytes -----

  // The bytes kept for one pair: the key, then the value if there is one.
  function Flat(p: Pair): string {
    p.key + if p.val.Some? then p.val.value else ""
  }

  function FlatAll(ps: seq<Pair>): string {
    if ps == [] then "" else FlatAll(ps[..|ps| - 1]) + Flat(ps[|ps| - 1])
  }

  // Where the bytes of pair i begin.
  function At(ps: seq<Pair>, i: nat): nat
    requires i <= |ps|
  {
    |FlatAll(ps[..i])|
  }

  lemma FlatSnoc(ps: seq<Pair>, p: Pair)
    ensures FlatAll(ps + [p]) == FlatAll(ps) + Flat(p)
  {
    assert (ps + [p])[..|ps|] == ps;
  }

  lemma {:induction false} FlatPrefix(ps: seq<Pair>, i: nat)
    requires i <= |ps|
    ensures FlatAll(ps[..i]) <= FlatAll(ps)
    decreases |ps| - i
  {
    if i == |ps| {
      assert ps[..i] == ps;
    } else {
      assert ps[..i + 1][..i] == ps[..i];
      FlatPrefix(ps, i + 1);
    }
  }

  // Pair i occupies its own stretch of the bytes.
  lemma FlatAt(ps: seq<Pair>, i: nat)
    requires i < |ps|
    ensures At(ps, i + 1) == At(ps, i) + |Flat(ps[i])| <= |FlatAll(ps)|
    ensures FlatAll(ps)[At(ps, i)..At(ps, i + 1)] == Flat(ps[i])
  {
    FlatPrefix(ps, i + 1);
    assert ps[..i + 1][..i] == ps[..i];
  }

  // e describes p, whose bytes begin at pos. The length of a NULL value means nothing.
  predicate Fits(e: HEntry, p: Pair, pos: nat) {
    && e.keylen == |p.key| && e.pos == pos && e.valisnull == p.val.None?
    && (p.val.Some? ==> e.vallen == |p.val.value|)
  }

  predicate EntryFits(es: seq<HEntry>, ps: seq<Pair>, i: nat)
    requires i < |ps| <= |es|
  {
    Fits(es[i], ps[i], At(ps, i))
  }

  /** h packs ps: entries in order, bytes one after the other from the start of the string area. Spare
      bytes may follow. */
  predicate Packs(h: HStore, ps: seq<Pair>) {
    && |h.entries| == |ps| && FlatAll(ps) <= h.data
    && forall i :: 0 <= i < |ps| ==> EntryFits(h.entries, ps, i)
  }

  lemma Cut(s: string, at: nat, a: string, b: string)
    requires at + |a| + |b| <= |s| && s[at..at + |a + b|] == a + b
    ensures s[at..at + |a|] == a && s[at + |a|..at + |a| + |b|] == b
  {
    assert (a + b)[..|a|] == a && (a + b)[|a|..] == b;
    assert s[at..at + |a + b|][..|a|] == s[at..at + |a|];
    assert s[at..at + |a + b|][|a|..] == s[at + |a|..at + |a| + |b|];
  }

  lemma PackedBytes(h: HStore, ps: seq<Pair>, i: nat)
    requires Packs(h, ps) && i < |ps|
    ensures Fits(h.entries[i], ps[i], h.entries[i].pos)
    ensures var e := h.entries[i];
            e.pos + e.keylen <= |h.data| && h.data[e.pos..e.pos + e.keylen] == ps[i].key
    ensures var e := h.entries[i]; var v := e.pos + e.keylen;
            !e.valisnull ==> v + e.vallen <= |h.data| && Some(h.data[v..v + e.vallen]) == ps[i].val
  {
    var e := h.entries[i];
    assert EntryFits(h.entries, ps, i);
    FlatAt(ps, i);
    Cut(h.data, At(ps, i), ps[i].key, if ps[i].val.Some? then ps[i].val.value else "");
  }

  /** The bytes determine the pairs: nothing else can be read from a layout. */
  lemma PackingIsUnique(h: HStore, ps: seq<Pair>, qs: seq<Pair>)
    requires Packs(h, ps) && Packs(h, qs)
    ensures ps == qs
  {
    forall i | 0 <= i < |ps| ensures ps[i] == qs[i] {
      PackedBytes(h, ps, i);
      PackedBytes(h, qs, i);
    }
  }

  ghost predicate PacksSorted(h: HStore, ps: seq<Pair>) {
    Packs(h, ps) && Sorted(ps) && AllWellSized(ps)
  }

  /** The layouts every operation is given and must give back. */
  ghost predicate Canonical(h: HStore) {
    exists ps :: PacksSorted(h, ps)
  }

  ghost function Pairs(h: HStore): (ps: seq<Pair>)
    requires Canonical(h)
    ensures PacksSorted(h, ps)
  {
    var ps :| PacksSorted(h, ps);
    ps
  }

  /** The map an hstore stands for. */
  ghost function Contents(h: HStore): map<string, Option<string>>
    requires Canonical(h)
  {
    ToMap(Pairs(h))
  }

  lemma ContentsOf(h: HStore, ps: seq<Pair>)
    requires PacksSorted(h, ps)
    ensures Canonical(h) && Pairs(h) == ps && Contents(h) == ToMap(ps)
  {
    PackingIsUnique(h, ps, Pairs(h));
  }
}
