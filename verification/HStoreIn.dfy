/** hstore_in: the parser with its moving cursor, the removal of repeated keys, the packing, and the round
    trip through hstore_out. */
module HStoreIn {
  import opened Basics
  import opened CString
  import opened HStoreLayout
  import opened HStoreText
  import opened HStoreGrammar
  import Build = HStoreBuild

  // ----- Parsing -----

  datatype Status = Found | NotFound | Failed(error: Error)

  class HSParser {
    const begin: string
    var ptr: int
    var word: string
    var pairs: seq<Pair>

    constructor (text: string)
      ensures begin == text && ptr == 0 && word == "" && pairs == []
    {
      begin := text;
      ptr, word, pairs := 0, "", [];
    }

    // get_val leaves the word and the cursor where the state machine says.
    method GetVal(ignoreeq: bool) returns (r: Status, escaped: bool)
      requires NoNul(begin) && 0 <= ptr <= |begin|
      modifies this`ptr, this`word
      ensures var g := HStoreText.GetVal(begin, old(ptr), WaitVal, "", false, ignoreeq);
              match r
              case Found => 0 <= ptr && g == Got(word, escaped, ptr)
              case NotFound => g == NoVal
              case Failed(e) => g == Bad(e)
    {
      var st := WaitVal;
      word, escaped := "", false;
      while true
        invariant 0 <= ptr <= |begin| && (st == InVal ==> ptr > 0)
        invariant HStoreText.GetVal(begin, ptr, st, word, escaped, ignoreeq)
               == HStoreText.GetVal(begin, old(ptr), WaitVal, "", false, ignoreeq)
        decreases |begin| - ptr
      {
        var c := CharAt(begin, ptr);
        match st {
          case WaitVal =>
            if c == '"' {
              escaped := true;
              st := InEscVal;
            } else if c == '\0' {
              return NotFound, escaped;
            } else if c == '=' && !ignoreeq {
              return Failed(SyntaxError(c, ptr)), escaped;
            } else if c == '\\' {
              st := WaitEscIn;
            } else if !IsSpace(c) {
              word := word + [c];
              st := InVal;
            }
          case InVal =>
            if c == '\\' {
              st := WaitEscIn;
            } else if c == '=' && !ignoreeq {
              ptr := ptr - 1;
              return Found, escaped;
            } else if c == ',' && ignoreeq {
              ptr := ptr - 1;
              return Found, escaped;
            } else if IsSpace(c) {
              return Found, escaped;
            } else if c == '\0' {
              ptr := ptr - 1;
              return Found, escaped;
            } else {
              word := word + [c];
            }
          case InEscVal =>
            if c == '\\' {
              st := WaitEscEscIn;
            } else if c == '"' {
              return Found, escaped;
            } else if c == '\0' {
              return Failed(UnexpectedEnd), escaped;
            } else {
              word := word + [c];
            }
          case WaitEscIn =>
            if c == '\0' {
              return Failed(UnexpectedEnd), escaped;
            }
            word := word + [c];
            st := InVal;
          case WaitEscEscIn =>
            if c == '\0' {
              return Failed(UnexpectedEnd), escaped;
            }
            word := word + [c];
            st := InEscVal;
        }
        ptr := ptr + 1;
      }
    }

    method ParseHStore() returns (r: Parsed)
      requires NoNul(begin) && ptr == 0 && pairs == []
      modifies this
      ensures r == Parse(begin, 0, WKey, [])
      ensures r.Ok? ==> r.pairs == pairs
    {
      var st := WKey;
      while true
        invariant 0 <= ptr <= |begin|
        invariant Parse(begin, ptr, st, pairs) == Parse(begin, 0, WKey, [])
        decreases |begin| - ptr
      {
        if st.WKey? {
          var got, escaped := GetVal(false);
          if got.Failed? {
            return Fail(got.error);
          } else if got.NotFound? {
            return Ok(pairs);
          }
          if |word| > HSTORE_MAX_KEY_LEN {
            return Fail(KeyTooLong);
          }
          st := WEq(word);
        } else if st.WVal? {
          var got, escaped := GetVal(true);
          if got.Failed? {
            return Fail(got.error);
          } else if got.NotFound? {
            return Fail(UnexpectedEnd);
          }
          if |word| > HSTORE_MAX_VALUE_LEN {
            return Fail(ValueTooLong);
          }
          pairs := pairs + [ReadVal(st.key, word, escaped)];
          st := WDel;
        } else {
          var c := CharAt(begin, ptr);
          if st.WEq? && c == '=' {
            st := WGt(st.key);
          } else if st.WGt? && c == '>' {
            st := WVal(st.key);
          } else if st.WDel? && c == ',' {
            st := WKey;
          } else if st.WDel? && c == '\0' {
            return Ok(pairs);
          } else if c == '\0' {
            return Fail(UnexpectedEnd);
          } else if st.WGt? || !IsSpace(c) {
            return Fail(SyntaxError(c, ptr));
          }
        }
        ptr := ptr + 1;
      }
    }
  }

  // ----- Removing repeated keys -----

  // The order qsort brings: no key comes before an earlier one.
  ghost predicate InOrder(ps: seq<Pair>) {
    forall i, j :: 0 <= i < j < |ps| ==> !Before(ps[j].key, ps[i].key)
  }

  function Insert(p: Pair, ps: seq<Pair>): seq<Pair> {
    if ps == [] || !Before(ps[0].key, p.key) then [p] + ps else [ps[0]] + Insert(p, ps[1..])
  }

  function InsertAll(ps: seq<Pair>): seq<Pair> {
    if ps == [] then [] else Insert(ps[0], InsertAll(ps[1..]))
  }

  lemma {:induction false} InsertKeeps(p: Pair, ps: seq<Pair>)
    ensures multiset(Insert(p, ps)) == multiset([p]) + multiset(ps)
  {
    if ps != [] && Before(ps[0].key, p.key) {
      InsertKeeps(p, ps[1..]);
      assert ps == [ps[0]] + ps[1..];
    }
  }

  lemma {:induction false} InsertAllKeeps(ps: seq<Pair>)
    ensures multiset(InsertAll(ps)) == multiset(ps)
  {
    if ps != [] {
      InsertAllKeeps(ps[1..]);
      InsertKeeps(ps[0], InsertAll(ps[1..]));
      assert ps == [ps[0]] + ps[1..];
    }
  }

  // Not before is an order on keys without NUL.
  lemma NotBeforeChains(a: string, b: string, c: string)
    requires NoNul(a) && NoNul(b) && NoNul(c) && !Before(b, a) && !Before(c, b)
    ensures !Before(c, a)
  {
    KeyOrderIsTotal(a, b, c);
    KeyOrderIsTotal(b, c, a);
    KeyOrderIsTotal(a, c, b);
    KeyOrderIsTotal(c, a, b);
  }

  lemma InOrderCons(p: Pair, ps: seq<Pair>)
    requires InOrder(ps) && forall i :: 0 <= i < |ps| ==> !Before(ps[i].key, p.key)
    ensures InOrder([p] + ps)
  {
  }

  lemma {:induction false} InsertInOrder(p: Pair, ps: seq<Pair>)
    requires InOrder(ps) && AllWellSized(ps) && WellSized(p)
    ensures InOrder(Insert(p, ps)) && AllWellSized(Insert(p, ps))
    ensures forall i :: 0 <= i < |Insert(p, ps)| ==> Insert(p, ps)[i] == p || Insert(p, ps)[i] in ps
  {
    if ps == [] {
    } else if !Before(ps[0].key, p.key) {
      forall i | 0 <= i < |ps| ensures !Before(ps[i].key, p.key) {
        if i > 0 {
          NotBeforeChains(p.key, ps[0].key, ps[i].key);
        }
      }
      InOrderCons(p, ps);
    } else {
      InsertInOrder(p, ps[1..]);
      var rest := Insert(p, ps[1..]);
      KeyOrderIsTotal(ps[0].key, p.key, "");
      forall i | 0 <= i < |rest| ensures !Before(rest[i].key, ps[0].key) {
        if rest[i] != p {
          assert rest[i] in ps[1..];
        }
      }
      InOrderCons(ps[0], rest);
    }
  }

  lemma {:induction false} InsertAllInOrder(ps: seq<Pair>)
    requires AllWellSized(ps)
    ensures InOrder(InsertAll(ps)) && AllWellSized(InsertAll(ps))
  {
    if ps != [] {
      InsertAllInOrder(ps[1..]);
      InsertInOrder(ps[0], InsertAll(ps[1..]));
    }
  }

  // qsort by comparePairs; callers see only that it permutes into order.
  method Qsort(a: array<Pair>)
    requires AllWellSized(a[..])
    modifies a
    ensures multiset(a[..]) == multiset(old(a[..])) && InOrder(a[..]) && AllWellSized(a[..])
  {
    var s := InsertAll(a[..]);
    InsertAllKeeps(a[..]);
    InsertAllInOrder(a[..]);
    assert |s| == |multiset(s)| == a.Length;
    forall i | 0 <= i < a.Length {
      a[i] := s[i];
    }
    assert a[..] == s;
  }

  predicate HasKey(ps: seq<Pair>, k: string) {
    exists i :: 0 <= i < |ps| && ps[i].key == k
  }

  // kept has one of the pairs of ps for every key of ps, and is in strict order.
  ghost predicate Deduped(kept: seq<Pair>, ps: seq<Pair>) {
    && Sorted(kept) && AllWellSized(kept)
    && (forall i :: 0 <= i < |kept| ==> kept[i] in ps)
    && (forall i :: 0 <= i < |ps| ==> HasKey(kept, ps[i].key))
  }

  lemma {:induction false} SortedSnoc(ps: seq<Pair>, p: Pair)
    requires Sorted(ps) && AllWellSized(ps) && WellSized(p)
    requires ps == [] || Before(ps[|ps| - 1].key, p.key)
    ensures Sorted(ps + [p])
  {
    if ps != [] {
      SortedSnoc(ps[1..], p);
      assert (ps + [p])[1..] == ps[1..] + [p];
      if |ps| > 1 {
        SortedAt(ps, 0, |ps| - 1);
        KeyOrderIsTotal(ps[0].key, ps[|ps| - 1].key, p.key);
      }
    }
  }

  lemma DedupedSame(kept: seq<Pair>, ps: seq<Pair>, p: Pair)
    requires Deduped(kept, ps) && HasKey(kept, p.key)
    ensures Deduped(kept, ps + [p])
  {
  }

  lemma DedupedNext(kept: seq<Pair>, ps: seq<Pair>, p: Pair)
    requires Deduped(kept, ps) && WellSized(p) && (kept == [] || Before(kept[|kept| - 1].key, p.key))
    ensures Deduped(kept + [p], ps + [p])
  {
    var kept' := kept + [p];
    SortedSnoc(kept, p);
    forall i | 0 <= i < |ps + [p]| ensures HasKey(kept', (ps + [p])[i].key) {
      if i < |ps| {
        assert HasKey(kept, ps[i].key);
        var j :| 0 <= j < |kept| && kept[j].key == ps[i].key;
        assert kept'[j].key == ps[i].key;
      } else {
        assert kept'[|kept|].key == p.key;
      }
    }
  }

  lemma DedupedSorted(kept: seq<Pair>, ps: seq<Pair>, qs: seq<Pair>)
    requires Deduped(kept, ps) && multiset(ps) == multiset(qs)
    ensures Deduped(kept, qs)
  {
    forall i | 0 <= i < |kept| ensures kept[i] in qs {
      assert kept[i] in multiset(ps);
    }
    forall i | 0 <= i < |qs| ensures HasKey(kept, qs[i].key) {
      assert qs[i] in multiset(ps);
      var j :| 0 <= j < |ps| && ps[j] == qs[i];
      assert HasKey(kept, ps[j].key);
    }
  }

  // The comparison of a pair with the last one kept.
  predicate SameKey(p: Pair, q: Pair) {
    |p.key| == |q.key| && Strncmp(p.key, q.key) == 0
  }

  // res is the last pair kept of the first ptr pairs of the sorted array s.
  ghost predicate Deduping(a: seq<Pair>, s: seq<Pair>, res: nat, ptr: nat) {
    && res < ptr <= |s| == |a| && a[ptr..] == s[ptr..]
    && Deduped(a[..res + 1], s[..ptr]) && a[res].key == s[ptr - 1].key
  }

  lemma DedupStep(a: seq<Pair>, s: seq<Pair>, res: nat, ptr: nat)
    requires Deduping(a, s, res, ptr) && ptr < |s| && InOrder(s) && AllWellSized(s)
    ensures a[ptr] == s[ptr]
    ensures SameKey(a[ptr], a[res]) ==> Deduping(a, s, res, ptr + 1)
    ensures !SameKey(a[ptr], a[res]) ==> Deduping(a[res + 1 := a[ptr]], s, res + 1, ptr + 1)
  {
    assert a[ptr] == a[ptr..][0] == s[ptr..][0] == s[ptr];
    assert a[ptr + 1..] == a[ptr..][1..] == s[ptr..][1..] == s[ptr + 1..];
    assert s[..ptr + 1] == s[..ptr] + [s[ptr]];
    var kept := a[..res + 1];
    assert kept[res] == a[res];
    KeyOrderIsTotal(s[ptr].key, s[ptr - 1].key, "");
    if SameKey(a[ptr], a[res]) {
      DedupedSame(kept, s[..ptr], s[ptr]);
    } else {
      KeyOrderIsTotal(s[ptr - 1].key, s[ptr].key, "");
      DedupedNext(kept, s[..ptr], s[ptr]);
      assert a[res + 1 := a[ptr]][..res + 2] == kept + [s[ptr]];
      assert a[res + 1 := a[ptr]][ptr + 1..] == a[ptr + 1..];
    }
  }

  // The bytes a pair takes in the string area.
  function PairBytes(p: Pair): nat {
    |p.key| + if p.val.None? then 0 else |p.val.value|
  }

  /** uniquePairs: afterwards the first l pairs are in strict order and have, for every key there was, one
      of the pairs with that key; buflen counts their bytes. */
  method UniquePairs(a: array<Pair>) returns (l: nat, buflen: nat)
    requires AllWellSized(a[..])
    modifies a
    ensures l <= a.Length && Deduped(a[..l], old(a[..])) && buflen == |FlatAll(a[..l])|
  {
    buflen := 0;
    ghost var was := a[..];
    if a.Length < 2 {
      l := a.Length;
      assert a[..l] == was;
      if l == 1 {
        FlatSnoc([], a[0]);
        assert a[..] == [] + [a[0]];
        buflen := PairBytes(a[0]);
        DedupedNext([], [], a[0]);
      }
      return;
    }
    Qsort(a);
    ghost var s := a[..];
    l, buflen := DropRepeats(a);
    DedupedSorted(a[..l], s, was);
  }

  method KeptBytes(a: array<Pair>, res: nat, buflen: nat) returns (r: nat)
    requires res < a.Length && buflen == |FlatAll(a[..res])|
    ensures r == |FlatAll(a[..res + 1])|
  {
    FlatSnoc(a[..res], a[res]);
    assert a[..res] + [a[res]] == a[..res + 1];
    r := buflen + PairBytes(a[res]);
  }

  // One step of the loop of uniquePairs over the sorted pairs s.
  method DropRepeat(a: array<Pair>, res: nat, ptr: nat, buflen: nat, ghost s: seq<Pair>)
    returns (res': nat, buflen': nat)
    requires Deduping(a[..], s, res, ptr) && ptr < a.Length && InOrder(s) && AllWellSized(s)
    requires buflen == |FlatAll(a[..res])|
    modifies a
    ensures Deduping(a[..], s, res', ptr + 1) && buflen' == |FlatAll(a[..res'])|
  {
    DedupStep(a[..], s, res, ptr);
    res', buflen' := res, buflen;
    if !SameKey(a[ptr], a[res]) {
      buflen' := KeptBytes(a, res, buflen);
      res' := res + 1;
      ghost var before := a[..res'];
      a[res'] := a[ptr];
      assert a[..res'] == before;
    }
  }

  lemma DedupFirst(s: seq<Pair>)
    requires |s| > 0 && AllWellSized(s)
    ensures Deduping(s, s, 0, 1)
  {
    DedupedNext([], [], s[0]);
    assert [] + [s[0]] == s[..1];
  }

  // The loop of uniquePairs over the sorted pairs.
  method DropRepeats(a: array<Pair>) returns (l: nat, buflen: nat)
    requires a.Length > 0 && InOrder(a[..]) && AllWellSized(a[..])
    modifies a
    ensures l <= a.Length && Deduped(a[..l], old(a[..])) && buflen == |FlatAll(a[..l])|
  {
    ghost var s := a[..];
    DedupFirst(s);
    var ptr, res: nat := 1, 0;
    buflen := 0;
    assert a[..0] == [];
    while ptr < a.Length
      invariant ptr <= a.Length && Deduping(a[..], s, res, ptr)
      invariant buflen == |FlatAll(a[..res])|
    {
      res, buflen := DropRepeat(a, res, ptr, buflen, s);
      ptr := ptr + 1;
    }
    buflen := KeptBytes(a, res, buflen);
    l := res + 1;
    assert s[..ptr] == s && a[..][..l] == a[..l];
  }

  // ----- What parsing gives -----

  lemma {:induction false} WordNoNul(s: string, ptr: nat, st: ValState, word: string, escaped: bool, ignoreeq: bool)
    requires NoNul(s) && ptr <= |s| && (st == InVal ==> ptr > 0) && NoNul(word)
    ensures var g := HStoreText.GetVal(s, ptr, st, word, escaped, ignoreeq); g.Got? ==> NoNul(g.word)
    decreases |s| - ptr
  {
    var c := CharAt(s, ptr);
    if c != '\0' {
      var esc := escaped || (st == WaitVal && c == '"');
      var st' := match st
        case WaitVal =>
          if c == '"' then InEscVal else if c == '\\' then WaitEscIn else if IsSpace(c) then WaitVal else InVal
        case InVal => if c == '\\' then WaitEscIn else InVal
        case InEscVal => if c == '\\' then WaitEscEscIn else InEscVal
        case WaitEscIn => InVal
        case WaitEscEscIn => InEscVal;
      WordNoNul(s, ptr + 1, st', word, esc, ignoreeq);
      WordNoNul(s, ptr + 1, st', word + [c], esc, ignoreeq);
    }
  }

  predicate StateSized(st: State) {
    (st.WEq? || st.WGt? || st.WVal?) ==> |st.key| <= HSTORE_MAX_KEY_LEN && NoNul(st.key)
  }

  lemma {:induction false} ParsedIsWellSized(s: string, ptr: nat, st: State, pairs: seq<Pair>)
    requires NoNul(s) && ptr <= |s| && StateSized(st) && AllWellSized(pairs)
    ensures Parse(s, ptr, st, pairs).Ok? ==> AllWellSized(Parse(s, ptr, st, pairs).pairs)
    decreases |s| - ptr
  {
    var c := CharAt(s, ptr);
    match st
    case WKey =>
      WordNoNul(s, ptr, WaitVal, "", false, false);
      var g := HStoreText.GetVal(s, ptr, WaitVal, "", false, false);
      if g.Got? && |g.word| <= HSTORE_MAX_KEY_LEN {
        ParsedIsWellSized(s, g.ptr + 1, WEq(g.word), pairs);
      }
    case WVal(key) =>
      WordNoNul(s, ptr, WaitVal, "", false, true);
      var g := HStoreText.GetVal(s, ptr, WaitVal, "", false, true);
      if g.Got? && |g.word| <= HSTORE_MAX_VALUE_LEN {
        ParsedIsWellSized(s, g.ptr + 1, WDel, pairs + [ReadVal(key, g.word, g.escaped)]);
      }
    case WEq(key) =>
      if c != '\0' {
        ParsedIsWellSized(s, ptr + 1, if c == '=' then WGt(key) else st, pairs);
      }
    case WGt(key) =>
      if c != '\0' {
        ParsedIsWellSized(s, ptr + 1, WVal(key), pairs);
      }
    case WDel =>
      if c != '\0' {
        ParsedIsWellSized(s, ptr + 1, if c == ',' then WKey else st, pairs);
      }
  }

  // ----- hstore_in -----

  // Packs the pairs: the loop that fills the entries and the string area.
  method Pack(ps: seq<Pair>, buflen: nat) returns (h: HStore)
    requires buflen == |FlatAll(ps)|
    ensures Packs(h, ps) && |h.data| == buflen
  {
    var ents, mem := Build.Palloc(|ps|, buflen);
    var i, ed: nat, ptr := 0, 0, Build.Base(ents);
    while i < |ps|
      invariant 0 <= i <= |ps| && ed == i
      invariant Build.Filled(ents, ed, mem, ptr, ps[..i], |FlatAll(ps[..i])|)
    {
      var p := ps[i];
      FlatAt(ps, i);
      assert ps[..i + 1] == ps[..i] + [p];
      FlatSnoc(ps[..i], p);
      var e := HEntry(|p.key|, if p.val.None? then 4 else |p.val.value|, p.val.None?, 0);
      var bytes := Flat(p);
      assert bytes[0..|bytes|] == bytes;
      ed, ptr := Build.Emit(bytes, 0, e, ents, ed, mem, ptr, ps[..i], |FlatAll(ps[..i])|, p);
      i := i + 1;
    }
    assert ps[..i] == ps;
    h := Build.Close(ents, ed, mem, ptr, ps);
  }

  datatype Input = Read(h: HStore) | Refused(error: Error)

  /** What hstore_in may answer for a text: the error of the parser, or a canonical hstore with exactly the
      keys that were read, each with one of the values read for it. Which one is left to qsort. */
  ghost predicate Answers(text: string, r: Input)
    requires NoNul(text)
  {
    match Parse(text, 0, WKey, [])
    case Fail(e) => r == Refused(e)
    case Ok(ps) => r.Read? && exists kept :: Packs(r.h, kept) && Deduped(kept, ps)
  }

  lemma ReadsExactly(text: string)
    requires NoNul(text)
    ensures Parse(text, 0, WKey, []).Ok? <==> exists t :: SourceOk(t) && SourceText(t) == text
    ensures forall t :: SourceOk(t) && SourceText(t) == text ==> Parse(text, 0, WKey, []) == Ok(SourcePairs(t))
  {
    if Parse(text, 0, WKey, []).Ok? {
      ParsesIff(text, Parse(text, 0, WKey, []).pairs);
    }
    forall t | SourceOk(t) && SourceText(t) == text ensures Parse(text, 0, WKey, []) == Ok(SourcePairs(t)) {
      ParsesIff(text, SourcePairs(t));
    }
  }

  /** hstore_in takes exactly the texts of lists of pairs, and stores one of the pairs of the list for each of its
      keys. */
  method In(text: string) returns (r: Input)
    requires NoNul(text)
    ensures Answers(text, r)
    ensures r.Read? <==> exists t :: SourceOk(t) && SourceText(t) == text
    ensures forall t :: SourceOk(t) && SourceText(t) == text ==>
              r.Read? && exists kept :: Packs(r.h, kept) && Deduped(kept, SourcePairs(t))
    ensures r.Read? ==> Canonical(r.h) && |r.h.data| == |FlatAll(Pairs(r.h))|
  {
    var state := new HSParser(text);
    var parsed := state.ParseHStore();
    ReadsExactly(text);
    if parsed.Fail? {
      return Refused(parsed.error);
    }
    ParsedIsWellSized(text, 0, WKey, []);
    var ps := parsed.pairs;
    if |ps| == 0 {
      var h := HStore([], "");
      assert Packs(h, []) && Deduped([], ps);
      ContentsOf(h, []);
      return Read(h);
    }
    var a := new Pair[|ps|](i requires 0 <= i < |ps| => ps[i]);
    assert a[..] == ps;
    var l, buflen := UniquePairs(a);
    var h := Pack(a[..l], buflen);
    ContentsOf(h, a[..l]);
    r := Read(h);
  }

  lemma DedupedMap(kept: seq<Pair>, ps: seq<Pair>)
    requires Deduped(kept, ps)
    ensures forall k :: k in ToMap(kept) <==> HasKey(ps, k)
    ensures forall k :: k in ToMap(kept) ==> Pair(k, ToMap(kept)[k]) in ps
  {
    forall k ensures k in ToMap(kept) <==> HasKey(ps, k) {
      MapKeys(kept, k);
      if HasKey(ps, k) {
        var i :| 0 <= i < |ps| && ps[i].key == k;
        assert HasKey(kept, ps[i].key);
      }
      if k in ToMap(kept) {
        var i :| 0 <= i < |kept| && kept[i].key == k;
        var j :| 0 <= j < |ps| && ps[j] == kept[i];
        assert ps[j].key == k;
      }
    }
    forall k | k in ToMap(kept) ensures Pair(k, ToMap(kept)[k]) in ps {
      MapKeys(kept, k);
      var i :| 0 <= i < |kept| && kept[i].key == k;
      MapAt(kept, i);
      assert kept[i] in ps;
    }
  }

  /** The map read from a text has exactly the keys of the parsed pairs, and every value was parsed for its
      key. */
  lemma ReadMap(text: string, h: HStore)
    requires NoNul(text) && Answers(text, Read(h)) && Canonical(h)
    ensures var ps := Parse(text, 0, WKey, []).pairs;
            (forall k :: k in Contents(h) <==> HasKey(ps, k))
            && (forall k :: k in Contents(h) ==> Pair(k, Contents(h)[k]) in ps)
  {
    var ps := Parse(text, 0, WKey, []).pairs;
    var kept :| Packs(h, kept) && Deduped(kept, ps);
    ContentsOf(h, kept);
    DedupedMap(kept, ps);
  }

  /** hstore_in undoes hstore_out: whatever qsort does with equal keys, reading the printed text of any
      canonical hstore gives the same pairs, so the same map. */
  lemma OutThenIn(h: HStore, r: Input)
    requires Canonical(h) && NoNul(Print(Pairs(h))) && Answers(Print(Pairs(h)), r)
    ensures r.Read? && Canonical(r.h) && Pairs(r.h) == Pairs(h) && Contents(r.h) == Contents(h)
  {
    var ps := Pairs(h);
    PrintedParsesBack(ps);
    var kept :| Packs(r.h, kept) && Deduped(kept, ps);
    DedupedMap(kept, ps);
    forall k ensures k in ToMap(kept) <==> k in ToMap(ps) {
      MapKeys(ps, k);
    }
    forall k | k in ToMap(kept) ensures ToMap(kept)[k] == ToMap(ps)[k] {
      var i :| 0 <= i < |ps| && ps[i] == Pair(k, ToMap(kept)[k]);
      MapAt(ps, i);
    }
    assert ToMap(kept) == ToMap(ps);
    MapDeterminesPairs(kept, ps);
    ContentsOf(r.h, kept);
  }
}
