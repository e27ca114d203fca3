/** hstore_out: the printer, writing into a buffer whose size was computed beforehand. */
module HStoreOut {
  import opened Basics
  import opened CString
  import opened HStoreLayout
  import opened HStoreText

  // ----- The size of the buffer -----

  // What the buffer keeps for one pair: quotes, arrow or NULL, and two characters for every byte.
  function Room(p: Pair): nat {
    (if p.val.None? then 8 else 6) + 2 * |Flat(p)|
  }

  // What it keeps for the pairs from i on, with their separators.
  function RoomFrom(ps: seq<Pair>, i: nat): nat
    requires i <= |ps|
    decreases |ps| - i
  {
    if i == |ps| then 0 else Room(ps[i]) + (if i + 1 == |ps| then 0 else 2) + RoomFrom(ps, i + 1)
  }

  function NullsFrom(ps: seq<Pair>, i: nat): nat
    requires i <= |ps|
    decreases |ps| - i
  {
    if i == |ps| then 0 else (if ps[i].val.None? then 1 else 0) + NullsFrom(ps, i + 1)
  }

  lemma {:induction false} RoomCounts(ps: seq<Pair>, i: nat)
    requires i < |ps|
    ensures RoomFrom(ps, i) == 6 * (|ps| - i - NullsFrom(ps, i)) + 8 * NullsFrom(ps, i)
                               + 2 * (|ps| - i - 1) + 2 * (|FlatAll(ps)| - |FlatAll(ps[..i])|)
    decreases |ps| - i
  {
    FlatAt(ps, i);
    assert ps[..|ps|] == ps;
    if i + 1 < |ps| {
      RoomCounts(ps, i + 1);
    }
  }

  lemma {:induction false} EscapeLength(w: string)
    ensures |w| <= |Escape(w)| <= 2 * |w|
  {
    if w != "" {
      EscapeLength(w[1..]);
    }
  }

  lemma PairFits(p: Pair)
    ensures |PrintPair(p)| <= Room(p)
  {
    EscapeLength(p.key);
    if p.val.Some? {
      EscapeLength(p.val.value);
    }
  }

  // ----- Writing -----

  method Put(out: array<char>, ptr: nat, t: string) returns (ptr': nat)
    requires ptr + |t| <= out.Length
    modifies out
    ensures ptr' == ptr + |t| && out[..ptr'] == old(out[..ptr]) + t
  {
    forall i | 0 <= i < |t| {
      out[ptr + i] := t[i];
    }
    ptr' := ptr + |t|;
  }

  /** cpw: a backslash goes in front of every quote and every backslash. */
  method Cpw(out: array<char>, dst: nat, src: string) returns (dst': nat)
    requires dst + |Escape(src)| <= out.Length
    modifies out
    ensures dst' == dst + |Escape(src)| && out[..dst'] == old(out[..dst]) + Escape(src)
  {
    var ptr := 0;
    dst' := dst;
    assert src[0..] == src;
    while ptr < |src|
      invariant 0 <= ptr <= |src| && dst <= dst' && dst' + |Escape(src[ptr..])| == dst + |Escape(src)|
      invariant out[..dst'] + Escape(src[ptr..]) == old(out[..dst]) + Escape(src)
    {
      assert src[ptr..][1..] == src[ptr + 1..];
      if src[ptr] == '"' || src[ptr] == '\\' {
        dst' := Put(out, dst', ['\\', src[ptr]]);
      } else {
        dst' := Put(out, dst', [src[ptr]]);
      }
      ptr := ptr + 1;
    }
  }

  method PutQuoted(out: array<char>, ptr: nat, src: string) returns (ptr': nat)
    requires ptr + |Quote(src)| <= out.Length
    modifies out
    ensures ptr' == ptr + |Quote(src)| && out[..ptr'] == old(out[..ptr]) + Quote(src)
  {
    ptr' := Put(out, ptr, "\"");
    ptr' := Cpw(out, ptr', src);
    ptr' := Put(out, ptr', "\"");
  }

  lemma Assoc(a: string, b: string, c: string)
    ensures (a + b) + c == a + (b + c)
  {
  }

  method PutVal(out: array<char>, ptr: nat, val: Option<string>) returns (ptr': nat)
    requires ptr + |PrintVal(val)| <= out.Length
    modifies out
    ensures ptr' == ptr + |PrintVal(val)| && out[..ptr'] == old(out[..ptr]) + PrintVal(val)
  {
    if val.None? {
      ptr' := Put(out, ptr, "NULL");
    } else {
      ptr' := PutQuoted(out, ptr, val.value);
    }
  }

  method PutPair(out: array<char>, ptr: nat, p: Pair) returns (ptr': nat)
    requires ptr + |PrintPair(p)| <= out.Length
    modifies out
    ensures ptr' == ptr + |PrintPair(p)| && out[..ptr'] == old(out[..ptr]) + PrintPair(p)
  {
    ghost var pre := out[..ptr];
    ptr' := PutQuoted(out, ptr, p.key);
    ptr' := Put(out, ptr', "=>");
    Assoc(pre, Quote(p.key), "=>");
    ptr' := PutVal(out, ptr', p.val);
    Assoc(pre, Quote(p.key) + "=>", PrintVal(p.val));
  }

  // Entry i of h, read through its position and lengths.
  method ReadEntry(h: HStore, i: nat, ghost ps: seq<Pair>) returns (p: Pair)
    requires Packs(h, ps) && i < |ps|
    ensures p == ps[i]
  {
    PackedBytes(h, ps, i);
    var e := h.entries[i];
    var v := e.pos + e.keylen;
    p := Pair(h.data[e.pos..v], if e.valisnull then None else Some(h.data[v..v + e.vallen]));
  }

  method CountNulls(h: HStore, ghost ps: seq<Pair>) returns (nnulls: nat)
    requires Packs(h, ps)
    ensures nnulls == NullsFrom(ps, 0) <= |ps|
  {
    nnulls := 0;
    var i := 0;
    while i < |h.entries|
      invariant 0 <= i <= |ps| && nnulls <= i && nnulls + NullsFrom(ps, i) == NullsFrom(ps, 0)
    {
      PackedBytes(h, ps, i);
      if h.entries[i].valisnull {
        nnulls := nnulls + 1;
      }
      i := i + 1;
    }
  }

  /** The buffer length hstore_out computes is exactly what the pairs may need, plus the spare bytes of
      the layout twice over, plus the terminator. */
  method BufferLength(h: HStore, ghost ps: seq<Pair>) returns (buflen: nat)
    requires Packs(h, ps) && |h.entries| > 0
    ensures buflen == RoomFrom(ps, 0) + 2 * (|h.data| - |FlatAll(ps)|) + 1
  {
    var size := |h.entries|;
    var nnulls := CountNulls(h, ps);
    RoomCounts(ps, 0);
    buflen := (4 + 2) * (size - nnulls) + (2 + 2 + 4) * nnulls + 2 * (size - 1)
              + 2 * (VarSize(h) - DataSize(size, 0)) + 1;
  }

  lemma JoinMoves(pre: string, items: seq<string>, i: nat)
    requires i < |items|
    ensures i + 1 == |items| ==> (pre + items[i]) + Join(items, ", ", i + 1) == pre + Join(items, ", ", i)
    ensures i + 1 < |items| ==> ((pre + items[i]) + ", ") + Join(items, ", ", i + 1) == pre + Join(items, ", ", i)
  {
    if i + 1 == |items| {
      assert (pre + items[i]) + "" == pre + items[i];
    } else {
      Assoc(pre + items[i], ", ", Join(items, ", ", i + 1));
      Assoc(pre, items[i], ", " + Join(items, ", ", i + 1));
      Assoc(items[i], ", ", Join(items, ", ", i + 1));
    }
  }

  // The item of entry i and the separator after it.
  method WriteOne(out: array<char>, ptr: nat, h: HStore, i: nat, ghost ps: seq<Pair>, ghost items: seq<string>)
    returns (ptr': nat)
    requires Packs(h, ps) && i < |ps| == |items| && items[i] == PrintPair(ps[i])
    requires ptr + RoomFrom(ps, i) < out.Length
    modifies out
    ensures ptr' + RoomFrom(ps, i + 1) < out.Length
    ensures out[..ptr'] + Join(items, ", ", i + 1) == old(out[..ptr]) + Join(items, ", ", i)
  {
    JoinMoves(out[..ptr], items, i);
    PairFits(ps[i]);
    var p := ReadEntry(h, i, ps);
    ptr' := PutPair(out, ptr, p);
    if i + 1 != |h.entries| {
      ptr' := Put(out, ptr', ", ");
    }
  }

  method WriteAll(out: array<char>, h: HStore, ghost ps: seq<Pair>) returns (ptr: nat)
    requires Packs(h, ps) && RoomFrom(ps, 0) < out.Length
    modifies out
    ensures ptr < out.Length && out[..ptr] == Print(ps)
  {
    ghost var items := Items(ps);
    ptr := 0;
    var i := 0;
    assert out[..0] + Join(items, ", ", 0) == Print(ps);
    while i < |h.entries|
      invariant 0 <= i <= |ps| && ptr + RoomFrom(ps, i) < out.Length
      invariant out[..ptr] + Join(items, ", ", i) == Print(ps)
    {
      ptr := WriteOne(out, ptr, h, i, ps, items);
      i := i + 1;
    }
    assert out[..ptr] + "" == out[..ptr];
  }

  /** hstore_out prints the pairs in order. Every character, and the terminator, falls inside the buffer:
      its index is checked against the precomputed length. */
  method Out(h: HStore) returns (text: string)
    requires Canonical(h)
    ensures text == Print(Pairs(h))
  {
    if |h.entries| == 0 {
      return "";
    }
    ghost var ps := Pairs(h);
    var buflen := BufferLength(h, ps);
    var out := new char[buflen](_ => '\0');
    var ptr := WriteAll(out, h, ps);
    out[ptr] := '\0';
    text := out[..ptr];
  }
}
