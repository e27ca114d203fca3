/** The hstore operators that build a new layout in a buffer: delete, hs_concat and tconvert. The buffer
    is one stretch of bytes whose first size * ENTRY_SIZE belong to the entries; the string area starts
    right after them, so it starts lower once size shrinks. */
module HStoreBuild {
  import opened Basics
  import opened CString
  import opened HStoreLayout

  // done has been written: its entries first, its bytes from base on.
  ghost predicate Written(es: seq<HEntry>, mem: string, base: nat, done: seq<Pair>) {
    && |done| <= |es| && base + |FlatAll(done)| <= |mem|
    && mem[base..base + |FlatAll(done)|] == FlatAll(done)
    && forall i :: 0 <= i < |done| ==> EntryFits(es, done, i)
  }

  // The bytes at p of data are those of pair q, and e describes it.
  ghost predicate Source(data: string, p: nat, e: HEntry, q: Pair) {
    && Fits(e, q, p) && p + |Flat(q)| <= |data| && data[p..p + |Flat(q)|] == Flat(q)
  }

  lemma SourceOf(h: HStore, ps: seq<Pair>, i: nat)
    requires Packs(h, ps) && i < |ps|
    ensures Source(h.data, At(ps, i), h.entries[i], ps[i])
    ensures At(ps, i + 1) == At(ps, i) + |Flat(ps[i])| <= |h.data|
  {
    assert EntryFits(h.entries, ps, i);
    FlatAt(ps, i);
  }

  lemma EntriesStay(es: seq<HEntry>, es': seq<HEntry>, done: seq<Pair>, p: Pair)
    requires |done| < |es| == |es'| && es'[..|done|] == es[..|done|]
    requires forall i :: 0 <= i < |done| ==> EntryFits(es, done, i)
    requires Fits(es'[|done|], p, |FlatAll(done)|)
    ensures forall i :: 0 <= i < |done + [p]| ==> EntryFits(es', done + [p], i)
  {
    var done' := done + [p];
    forall i | 0 <= i < |done'| ensures EntryFits(es', done', i) {
      if i < |done| {
        assert EntryFits(es, done, i);
        assert done'[..i] == done[..i];
        assert es'[..|done|][i] == es[..|done|][i];
      } else {
        assert done'[..i] == done;
      }
    }
  }

  // The number of bytes an entry takes in the string area.
  function EntryBytes(e: HEntry): nat {
    e.keylen + if e.valisnull then 0 else e.vallen
  }

  // Where the string area of the buffer starts before size shrinks.
  function Base(ents: array<HEntry>): nat {
    ents.Length * ENTRY_SIZE
  }

  // done has been written, ed and pd are where the next pair goes, and at most used bytes were copied.
  ghost predicate Filled(ents: array<HEntry>, ed: nat, mem: array<char>, pd: nat, done: seq<Pair>, used: nat)
    reads ents, mem
  {
    && Written(ents[..], mem[..], Base(ents), done)
    && ed == |done| && pd == Base(ents) + |FlatAll(done)| && |FlatAll(done)| <= used
  }

  method Memcpy(mem: array<char>, pd: nat, data: string, p: nat, n: nat)
    requires pd + n <= mem.Length && p + n <= |data|
    modifies mem
    ensures mem[..] == old(mem[..pd]) + data[p..p + n] + old(mem[pd + n..])
  {
    forall i | 0 <= i < n {
      mem[pd + i] := data[p + i];
    }
  }

  lemma BytesSnoc(m: string, base: nat, f: string, g: string, m': string)
    requires base + |f| + |g| <= |m| && m[base..base + |f|] == f
    requires m' == m[..base + |f|] + g + m[base + |f| + |g|..]
    ensures |m'| == |m| && m'[base..base + |f| + |g|] == f + g
  {
    assert m'[base..base + |f|] == f;
    assert m'[base + |f|..base + |f| + |g|] == g;
    assert m'[base..base + |f| + |g|] == m'[base..base + |f|] + m'[base + |f|..base + |f| + |g|];
  }

  // Writes one entry, with its new position, and copies its bytes.
  method Emit(data: string, p: nat, e: HEntry, ents: array<HEntry>, ed: nat, mem: array<char>, pd: nat,
              ghost done: seq<Pair>, ghost used: nat, ghost q: Pair) returns (ed': nat, pd': nat)
    requires Filled(ents, ed, mem, pd, done, used) && Source(data, p, e, q)
    requires ed < ents.Length && Base(ents) + used + |Flat(q)| <= mem.Length
    modifies ents, mem
    ensures Filled(ents, ed', mem, pd', done + [q], used + |Flat(q)|)
  {
    ghost var es0, mem0 := ents[..], mem[..];
    var n := EntryBytes(e);
    ents[ed] := e.(pos := pd - Base(ents));
    Memcpy(mem, pd, data, p, n);
    FlatSnoc(done, q);
    EntriesStay(es0, ents[..], done, q);
    BytesSnoc(mem0, Base(ents), FlatAll(done), Flat(q), mem[..]);
    return ed + 1, pd + n;
  }

  method Memmove(mem: array<char>, to: nat, from: nat, n: nat)
    requires to <= from && from + n <= mem.Length
    modifies mem
    ensures mem[to..to + n] == old(mem[from..from + n])
  {
    forall i | 0 <= i < n {
      mem[to + i] := mem[from + i];
    }
  }

  lemma EntriesPrefix(es: seq<HEntry>, done: seq<Pair>)
    requires |done| <= |es| && forall i :: 0 <= i < |done| ==> EntryFits(es, done, i)
    ensures forall i :: 0 <= i < |done| ==> EntryFits(es[..|done|], done, i)
  {
    forall i | 0 <= i < |done| ensures EntryFits(es[..|done|], done, i) {
      assert EntryFits(es, done, i);
    }
  }

  // size becomes ed, and the string area moves down to where it now starts.
  method Close(ents: array<HEntry>, ed: nat, mem: array<char>, pd: nat, ghost done: seq<Pair>) returns (out: HStore)
    requires exists used :: Filled(ents, ed, mem, pd, done, used)
    modifies mem
    ensures Packs(out, done)
    ensures ed < ents.Length ==> |out.data| == |FlatAll(done)|
    ensures ed == ents.Length ==> VarSize(out) == HEADER_SIZE + mem.Length
  {
    var base := Base(ents);
    EntriesPrefix(ents[..], done);
    assert ents[..][..ed] == ents[..ed];
    if ed != ents.Length {
      var buflen := pd - base;
      var strptr := ed * ENTRY_SIZE;
      assert mem[base..base + buflen] == FlatAll(done);
      Memmove(mem, strptr, base, buflen);
      out := HStore(ents[..ed], mem[strptr..strptr + buflen]);
    } else {
      assert mem[base..][..|FlatAll(done)|] == FlatAll(done);
      out := HStore(ents[..ed], mem[base..]);
    }
  }

  // Entry es of h is next, and its bytes are at p.
  ghost predicate Reading(h: HStore, ps: seq<Pair>, es: nat, p: nat) {
    es <= |ps| == |h.entries| && p == At(ps, es) <= |h.data|
  }

  // ----- delete -----

  function Without(ps: seq<Pair>, key: string): seq<Pair> {
    if ps == [] then []
    else if ps[0].key == key then Without(ps[1..], key)
    else [ps[0]] + Without(ps[1..], key)
  }

  lemma {:induction false} WithoutIsRemoval(ps: seq<Pair>, key: string)
    requires Sorted(ps) && AllWellSized(ps)
    ensures Sorted(Without(ps, key)) && AllWellSized(Without(ps, key))
    ensures ToMap(Without(ps, key)) == ToMap(ps) - {key}
    ensures forall k :: Above(k, ps) ==> Above(k, Without(ps, key))
  {
    if ps != [] {
      WithoutIsRemoval(ps[1..], key);
      AboveIsAbsent(ps[0].key, ps[1..]);
      var rest := Without(ps[1..], key);
      assert Above(ps[0].key, rest);
      assert ([ps[0]] + rest)[1..] == rest;
      forall k | Above(k, ps) ensures Above(k, ps[1..]) && Before(k, ps[0].key) {
        assert forall i :: 0 <= i < |ps[1..]| ==> ps[1..][i] == ps[i + 1];
      }
    }
  }

  lemma WithoutStep(done: seq<Pair>, ps: seq<Pair>, i: nat, key: string)
    requires i < |ps|
    ensures done + Without(ps[i..], key)
            == (if ps[i].key == key then done else done + [ps[i]]) + Without(ps[i + 1..], key)
  {
    assert ps[i..][1..] == ps[i + 1..];
  }

  // The key of the entry whose bytes are at p is key.
  predicate HasKey(data: string, p: nat, e: HEntry, key: string)
    requires p + e.keylen <= |data|
  {
    e.keylen == |key| && Strncmp(data[p..p + e.keylen], key) == 0
  }

  lemma SourceKey(data: string, p: nat, e: HEntry, q: Pair, key: string)
    requires Source(data, p, e, q) && WellSized(q) && NoNul(key)
    ensures p + e.keylen <= |data| && data[p..p + e.keylen] == q.key && EntryBytes(e) == |Flat(q)|
    ensures HasKey(data, p, e, key) <==> q.key == key
  {
    assert Flat(q)[..|q.key|] == q.key;
    assert data[p..p + |Flat(q)|][..|q.key|] == data[p..p + e.keylen];
    if |q.key| == |key| {
      StrncmpZero(q.key, key);
    }
  }

  // The buffer, with room for n entries and the given number of bytes.
  method Palloc(n: nat, bytes: nat) returns (ents: array<HEntry>, mem: array<char>)
    ensures fresh(ents) && fresh(mem) && ents.Length == n && mem.Length == n * ENTRY_SIZE + bytes
    ensures Filled(ents, 0, mem, Base(ents), [], 0)
  {
    ents := new HEntry[n](_ => HEntry(0, 0, false, 0));
    mem := new char[n * ENTRY_SIZE + bytes](_ => '\0');
  }

  method DeleteLoop(h: HStore, key: string, ents: array<HEntry>, mem: array<char>, ghost ps: seq<Pair>)
    returns (ed: nat, ptrd: nat, ghost done: seq<Pair>)
    requires Packs(h, ps) && AllWellSized(ps) && NoNul(key)
    requires Filled(ents, 0, mem, Base(ents), [], 0)
    requires |ps| <= ents.Length && Base(ents) + |h.data| <= mem.Length
    modifies ents, mem
    ensures Filled(ents, ed, mem, ptrd, done, |h.data|) && done == Without(ps, key)
  {
    done := [];
    ed, ptrd := 0, Base(ents);
    var es, ptrs: nat := 0, 0;
    while es < |h.entries|
      invariant 0 <= es && Reading(h, ps, es, ptrs) && ed <= es
      invariant Filled(ents, ed, mem, ptrd, done, ptrs)
      invariant done + Without(ps[es..], key) == Without(ps, key)
    {
      SourceOf(h, ps, es);
      var e := h.entries[es];
      SourceKey(h.data, ptrs, e, ps[es], key);
      WithoutStep(done, ps, es, key);
      if !HasKey(h.data, ptrs, e, key) {
        ed, ptrd := Emit(h.data, ptrs, e, ents, ed, mem, ptrd, done, ptrs, ps[es]);
        done := done + [ps[es]];
      }
      ptrs := ptrs + EntryBytes(e);
      es := es + 1;
    }
  }

  /** hs - key */
  method Delete(h: HStore, key: string) returns (out: HStore)
    requires Canonical(h) && NoNul(key)
    ensures Canonical(out) && Contents(out) == Contents(h) - {key}
    ensures VarSize(out) <= VarSize(h)
  {
    ghost var ps := Pairs(h);
    var ents, mem := Palloc(|h.entries|, |h.data|);
    var ed, ptrd, done := DeleteLoop(h, key, ents, mem, ps);
    out := Close(ents, ed, mem, ptrd, done);
    WithoutIsRemoval(ps, key);
    ContentsOf(out, done);
  }

  // ----- hs_concat -----

  function Merge(p: seq<Pair>, q: seq<Pair>): seq<Pair> {
    if p == [] then q
    else if q == [] then p
    else if p[0].key == q[0].key then [q[0]] + Merge(p[1..], q[1..])
    else if Before(q[0].key, p[0].key) then [q[0]] + Merge(p, q[1..])
    else [p[0]] + Merge(p[1..], q)
  }

  lemma {:induction false} MergeAbove(k: string, p: seq<Pair>, q: seq<Pair>)
    requires Above(k, p) && Above(k, q) && AllWellSized(p) && AllWellSized(q)
    ensures Above(k, Merge(p, q)) && AllWellSized(Merge(p, q))
  {
    if p != [] && q != [] {
      var p', q' := if p[0].key == q[0].key || !Before(q[0].key, p[0].key) then p[1..] else p,
                    if p[0].key == q[0].key || Before(q[0].key, p[0].key) then q[1..] else q;
      MergeAbove(k, p', q');
    }
  }

  lemma SortedCons(x: Pair, ps: seq<Pair>)
    requires WellSized(x) && Above(x.key, ps) && Sorted(ps) && AllWellSized(ps)
    ensures Sorted([x] + ps) && AllWellSized([x] + ps) && ToMap([x] + ps) == ToMap(ps)[x.key := x.val]
  {
    assert ([x] + ps)[1..] == ps;
  }

  lemma AboveHead(k: string, ps: seq<Pair>)
    requires NoNul(k) && ps != [] && Sorted(ps) && AllWellSized(ps) && Before(k, ps[0].key)
    ensures Above(k, ps)
  {
    AboveChains(k, ps[0].key, ps[1..]);
    forall i | 0 <= i < |ps| ensures Before(k, ps[i].key) {
      if i > 0 {
        assert ps[1..][i - 1] == ps[i];
      }
    }
  }

  lemma {:induction false} MergeIsSorted(p: seq<Pair>, q: seq<Pair>)
    requires Sorted(p) && AllWellSized(p) && Sorted(q) && AllWellSized(q)
    ensures Sorted(Merge(p, q)) && AllWellSized(Merge(p, q))
  {
    if p != [] && q != [] {
      KeyOrderIsTotal(p[0].key, q[0].key, "");
      if p[0].key == q[0].key {
        MergeIsSorted(p[1..], q[1..]);
        MergeAbove(q[0].key, p[1..], q[1..]);
        SortedCons(q[0], Merge(p[1..], q[1..]));
      } else if Before(q[0].key, p[0].key) {
        MergeIsSorted(p, q[1..]);
        AboveHead(q[0].key, p);
        MergeAbove(q[0].key, p, q[1..]);
        SortedCons(q[0], Merge(p, q[1..]));
      } else {
        MergeIsSorted(p[1..], q);
        AboveHead(p[0].key, q);
        MergeAbove(p[0].key, p[1..], q);
        SortedCons(p[0], Merge(p[1..], q));
      }
    }
  }

  lemma UnionCons(m: map<string, Option<string>>, n: map<string, Option<string>>, p: Pair, v: Option<string>)
    ensures m + n[p.key := p.val] == (m + n)[p.key := p.val]
    ensures p.key !in n ==> m[p.key := p.val] + n == (m + n)[p.key := p.val]
    ensures m[p.key := v] + n[p.key := p.val] == (m + n)[p.key := p.val]
  {
  }

  lemma ToMapCons(x: Pair, ps: seq<Pair>)
    ensures ToMap([x] + ps) == ToMap(ps)[x.key := x.val]
  {
    assert ([x] + ps)[1..] == ps;
  }

  /** Merging lets the right operand win: the union of the maps. */
  lemma {:induction false} MergeIsUnion(p: seq<Pair>, q: seq<Pair>)
    requires Sorted(p) && AllWellSized(p) && Sorted(q) && AllWellSized(q)
    ensures ToMap(Merge(p, q)) == ToMap(p) + ToMap(q)
  {
    if p != [] && q != [] {
      if p[0].key == q[0].key {
        MergeIsUnion(p[1..], q[1..]);
        ToMapCons(q[0], Merge(p[1..], q[1..]));
        UnionCons(ToMap(p[1..]), ToMap(q[1..]), q[0], p[0].val);
      } else if Before(q[0].key, p[0].key) {
        MergeIsUnion(p, q[1..]);
        ToMapCons(q[0], Merge(p, q[1..]));
        UnionCons(ToMap(p), ToMap(q[1..]), q[0], None);
      } else {
        MergeIsUnion(p[1..], q);
        ToMapCons(p[0], Merge(p[1..], q));
        KeyOrderIsTotal(p[0].key, q[0].key, "");
        AboveHead(p[0].key, q);
        AboveIsAbsent(p[0].key, q);
        UnionCons(ToMap(p[1..]), ToMap(q), p[0], None);
      }
    }
  }

  lemma MergeStep(done: seq<Pair>, p: seq<Pair>, i: nat, q: seq<Pair>, j: nat)
    requires i < |p| && j < |q|
    ensures var m := done + Merge(p[i..], q[j..]);
            if p[i].key == q[j].key then m == (done + [q[j]]) + Merge(p[i + 1..], q[j + 1..])
            else if Before(q[j].key, p[i].key) then m == (done + [q[j]]) + Merge(p[i..], q[j + 1..])
            else m == (done + [p[i]]) + Merge(p[i + 1..], q[j..])
  {
    assert p[i..][1..] == p[i + 1..] && q[j..][1..] == q[j + 1..];
  }

  // Moves past entry es without copying it.
  method Skip(h: HStore, es: nat, p: nat, ghost ps: seq<Pair>) returns (p': nat)
    requires Packs(h, ps) && Reading(h, ps, es, p) && es < |h.entries|
    ensures Reading(h, ps, es + 1, p') && p <= p'
  {
    SourceOf(h, ps, es);
    p' := p + EntryBytes(h.entries[es]);
  }

  // Copies entry es and moves past it.
  method CopyOne(h: HStore, es: nat, p: nat, ents: array<HEntry>, ed: nat, mem: array<char>, pd: nat,
                 ghost ps: seq<Pair>, ghost done: seq<Pair>, ghost used: nat) returns (p': nat, ed': nat, pd': nat)
    requires Packs(h, ps) && Reading(h, ps, es, p) && es < |h.entries|
    requires Filled(ents, ed, mem, pd, done, used + p)
    requires ed < ents.Length && Base(ents) + used + |h.data| <= mem.Length
    modifies ents, mem
    ensures Reading(h, ps, es + 1, p') && Filled(ents, ed', mem, pd', done + [ps[es]], used + p')
  {
    SourceOf(h, ps, es);
    ed', pd' := Emit(h.data, p, h.entries[es], ents, ed, mem, pd, done, used + p, ps[es]);
    p' := p + EntryBytes(h.entries[es]);
  }

  // Copies the entries from i on.
  method CopyRest(h: HStore, i: nat, ptr: nat, ents: array<HEntry>, ed: nat, mem: array<char>, pd: nat,
                  ghost ps: seq<Pair>, ghost done: seq<Pair>, ghost used: nat) returns (ed': nat, pd': nat)
    requires Packs(h, ps) && Reading(h, ps, i, ptr)
    requires Filled(ents, ed, mem, pd, done, used + ptr)
    requires ed + |ps| - i <= ents.Length && Base(ents) + used + |h.data| <= mem.Length
    modifies ents, mem
    ensures Filled(ents, ed', mem, pd', done + ps[i..], used + |h.data|)
  {
    var es, p := i, ptr;
    ghost var copied := done;
    ed', pd' := ed, pd;
    while es < |h.entries|
      invariant i <= es && Reading(h, ps, es, p)
      invariant Filled(ents, ed', mem, pd', copied, used + p) && copied == done + ps[i..es]
    {
      p, ed', pd' := CopyOne(h, es, p, ents, ed', mem, pd', ps, copied, used);
      copied := copied + [ps[es]];
      es := es + 1;
    }
    assert ps[i..es] == ps[i..];
  }

  // One step of the merge loop.
  method MergeOne(s1: HStore, s2: HStore, ents: array<HEntry>, mem: array<char>,
                  es1: nat, es2: nat, ps1: nat, ps2: nat, ed: nat, pd: nat,
                  ghost p1: seq<Pair>, ghost p2: seq<Pair>, ghost done: seq<Pair>)
    returns (es1': nat, es2': nat, ps1': nat, ps2': nat, ed': nat, pd': nat, ghost done': seq<Pair>)
    requires Packs(s1, p1) && AllWellSized(p1) && Packs(s2, p2) && AllWellSized(p2)
    requires |p1| + |p2| <= ents.Length && Base(ents) + |s1.data| + |s2.data| <= mem.Length
    requires Reading(s1, p1, es1, ps1) && Reading(s2, p2, es2, ps2) && ed <= es1 + es2
    requires es1 < |s1.entries| && es2 < |s2.entries|
    requires Filled(ents, ed, mem, pd, done, ps1 + ps2)
    modifies ents, mem
    ensures Reading(s1, p1, es1', ps1') && Reading(s2, p2, es2', ps2') && ed' <= es1' + es2'
    ensures Filled(ents, ed', mem, pd', done', ps1' + ps2') && es1' + es2' > es1 + es2
    ensures done' + Merge(p1[es1'..], p2[es2'..]) == done + Merge(p1[es1..], p2[es2..])
  {
    var e1, e2 := s1.entries[es1], s2.entries[es2];
    SourceOf(s1, p1, es1);
    SourceOf(s2, p2, es2);
    MergeStep(done, p1, es1, p2, es2);
    var difference := CompareKeys(s1.data, ps1, e1, s2.data, ps2, e2, p1[es1], p2[es2]);
    if difference == 0 {
      ps2', ed', pd' := CopyOne(s2, es2, ps2, ents, ed, mem, pd, p2, done, ps1);
      done', es2' := done + [p2[es2]], es2 + 1;
      ps1' := Skip(s1, es1, ps1, p1);
      es1' := es1 + 1;
    } else if difference > 0 {
      ps2', ed', pd' := CopyOne(s2, es2, ps2, ents, ed, mem, pd, p2, done, ps1);
      done', es2' := done + [p2[es2]], es2 + 1;
      ps1', es1' := ps1, es1;
    } else {
      ps1', ed', pd' := CopyOne(s1, es1, ps1, ents, ed, mem, pd, p1, done, ps2);
      done', es1' := done + [p1[es1]], es1 + 1;
      ps2', es2' := ps2, es2;
    }
  }

  // The merge loop, until one operand is used up.
  method MergeLoop(s1: HStore, s2: HStore, ents: array<HEntry>, mem: array<char>, ghost p1: seq<Pair>, ghost p2: seq<Pair>)
    returns (es1: nat, es2: nat, ps1: nat, ps2: nat, ed: nat, pd: nat, ghost done: seq<Pair>)
    requires Packs(s1, p1) && AllWellSized(p1) && Packs(s2, p2) && AllWellSized(p2)
    requires Filled(ents, 0, mem, Base(ents), [], 0)
    requires |p1| + |p2| <= ents.Length && Base(ents) + |s1.data| + |s2.data| <= mem.Length
    modifies ents, mem
    ensures Reading(s1, p1, es1, ps1) && Reading(s2, p2, es2, ps2) && ed <= es1 + es2
    ensures es1 == |p1| || es2 == |p2|
    ensures Filled(ents, ed, mem, pd, done, ps1 + ps2)
    ensures done + Merge(p1[es1..], p2[es2..]) == Merge(p1, p2)
  {
    done := [];
    es1, es2, ps1, ps2, ed, pd := 0, 0, 0, 0, 0, Base(ents);
    while es1 < |s1.entries| && es2 < |s2.entries|
      invariant Reading(s1, p1, es1, ps1) && Reading(s2, p2, es2, ps2) && ed <= es1 + es2
      invariant Filled(ents, ed, mem, pd, done, ps1 + ps2)
      invariant done + Merge(p1[es1..], p2[es2..]) == Merge(p1, p2)
      decreases |p1| + |p2| - es1 - es2
    {
      es1, es2, ps1, ps2, ed, pd, done :=
        MergeOne(s1, s2, ents, mem, es1, es2, ps1, ps2, ed, pd, p1, p2, done);
    }
  }

  /** s1 || s2 */
  method HsConcat(s1: HStore, s2: HStore) returns (out: HStore)
    requires Canonical(s1) && Canonical(s2)
    ensures Canonical(out) && Contents(out) == Contents(s1) + Contents(s2)
    ensures VarSize(out) <= VarSize(s1) + VarSize(s2)
  {
    ghost var p1, p2 := Pairs(s1), Pairs(s2);
    var ents, mem := Palloc(|s1.entries| + |s2.entries|, |s1.data| + |s2.data| + HEADER_SIZE);
    var es1, es2, ps1, ps2, ed, pd, done := MergeLoop(s1, s2, ents, mem, p1, p2);
    ghost var rest1, rest2 := p1[es1..], p2[es2..];
    ed, pd := CopyRest(s1, es1, ps1, ents, ed, mem, pd, p1, done, ps2);
    ed, pd := CopyRest(s2, es2, ps2, ents, ed, mem, pd, p2, done + rest1, |s1.data|);
    assert done + rest1 + rest2 == Merge(p1, p2);
    out := Close(ents, ed, mem, pd, done + rest1 + rest2);
    MergeIsSorted(p1, p2);
    MergeIsUnion(p1, p2);
    ContentsOf(out, Merge(p1, p2));
  }

  // The comparison of the keys two entries have at their places in the string areas.
  method CompareKeys(d1: string, ps1: nat, e1: HEntry, d2: string, ps2: nat, e2: HEntry, ghost q1: Pair, ghost q2: Pair)
    returns (difference: int)
    requires Source(d1, ps1, e1, q1) && WellSized(q1) && Source(d2, ps2, e2, q2) && WellSized(q2)
    ensures difference == 0 <==> q1.key == q2.key
    ensures difference > 0 <==> Before(q2.key, q1.key)
  {
    SourceKey(d1, ps1, e1, q1, q2.key);
    SourceKey(d2, ps2, e2, q2, q1.key);
    KeyOrderIsTotal(q1.key, q2.key, "");
    difference := if e1.keylen == e2.keylen
    then Strncmp(d1[ps1..ps1 + e1.keylen], d2[ps2..ps2 + e1.keylen])
    else if e1.keylen > e2.keylen then 1 else -1;
  }

  // ----- tconvert -----

  datatype Made = Null | KeyTooLong | ValueTooLong | Made(h: HStore)

  /** key => val, where a NULL key gives NULL and a NULL value is kept. */
  method TConvert(key: Option<string>, val: Option<string>) returns (r: Made)
    requires key.Some? ==> NoNul(key.value)
    requires val.Some? ==> NoNul(val.value)
    ensures r.Null? <==> key.None?
    ensures r.KeyTooLong? <==> key.Some? && |key.value| > HSTORE_MAX_KEY_LEN
    ensures r.ValueTooLong? <==> key.Some? && |key.value| <= HSTORE_MAX_KEY_LEN && val.Some? && |val.value| > HSTORE_MAX_VALUE_LEN
    ensures r.Made? ==> Canonical(r.h) && Contents(r.h) == map[key.value := val]
  {
    if key.None? {
      return Null;
    }
    if |key.value| > HSTORE_MAX_KEY_LEN {
      return KeyTooLong;
    }
    var p := Pair(key.value, val);
    var h: HStore;
    if val.None? {
      // Room for the length word of the key as well.
      h := HStore([HEntry(|key.value|, 0, true, 0)], key.value + ['\0', '\0', '\0', '\0']);
    } else {
      if |val.value| > HSTORE_MAX_VALUE_LEN {
        return ValueTooLong;
      }
      h := HStore([HEntry(|key.value|, |val.value|, false, 0)], key.value + val.value);
    }
    assert EntryFits(h.entries, [p], 0);
    FlatSnoc([], p);
    assert [] + [p] == [p];
    assert ToMap([p]) == map[key.value := val];
    ContentsOf(h, [p]);
    return Made(h);
  }
}
