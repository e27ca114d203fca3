/** The GiST index over integer arrays: an inner key is the union of the keys below it, stored through
    compression; a search prunes by the consistency test.  What a search returns is compared with
    testing every row. */
module IntGist {
  import Gist
  import IntBool
  import opened Basics
  import opened IntTool
  import opened IntCompress
  import opened IntQuery
  import opened IntLinks

  datatype Strategy = Overlap | Same | Contains | ContainedBy

  // A search condition: an array with one of the set strategies, or a stored boolean query.
  datatype Ask = Array(strategy: Strategy, q: seq<int>) | Boolean(items: seq<Item>)

  // execute always comes to an answer, as it does when the links of the query fit.
  ghost predicate Sound(ask: Ask) {
    ask.Boolean? ==> Answering(ask.items)
  }

  // ----- The operators on rows -----

  ghost predicate Accepts(ask: Ask, row: seq<int>) {
    match ask
    case Boolean(items) => row != [] && Holds(items, Elems(row), true)
    case Array(strategy, q) =>
      match strategy
      case Overlap => !(Elems(row) !! Elems(q))
      case Contains => row != [] && q != [] && Elems(q) <= Elems(row)
      case ContainedBy => row != [] && q != [] && Elems(row) <= Elems(q)
      case Same => multiset(row) == multiset(q)
  }

  // ----- g_int_consistent -----

  // The answer for an entry whose decompressed key holds the integers of key.
  ghost predicate Consistent(ask: Ask, key: set<int>, leaf: bool) {
    match ask
    case Boolean(items) => Holds(items, key, leaf)
    case Array(strategy, q) =>
      && q != []
      && match strategy
         case Overlap => !(key !! Elems(q))
         case Contains => Elems(q) <= key
         case ContainedBy => if leaf then key != {} && key <= Elems(q) else !(key !! Elems(q))
         case Same => if leaf then key == Elems(q) else Elems(q) <= key
  }

  // g_int_same.
  method SameArrays(a: seq<int>, b: seq<int>) returns (r: bool)
    ensures r <==> a == b
  {
    if |a| != |b| {
      return false;
    }
    var n := 0;
    while n < |a|
      invariant 0 <= n <= |a| && a[..n] == b[..n]
    {
      if a[n] != b[n] {
        return false;
      }
      assert a[..n + 1] == a[..n] + [a[n]] && b[..n + 1] == b[..n] + [b[n]];
      n := n + 1;
    }
    assert a[..n] == a && b[..n] == b;
    return true;
  }

  lemma {:induction false} StrictIsUnique(a: seq<int>, b: seq<int>)
    requires Strict(a) && Strict(b) && Elems(a) == Elems(b)
    ensures a == b
    decreases |a|
  {
    NonEmptyIff(a);
    NonEmptyIff(b);
    if a != [] {
      var n, m := |a| - 1, |b| - 1;
      LastIsLargest(a);
      LastIsLargest(b);
      assert a[n] == b[m];
      DropLast(a);
      DropLast(b);
      StrictIsUnique(a[..n], b[..m]);
      assert a == a[..n] + [a[n]] && b == b[..m] + [b[m]];
    }
  }

  lemma LastIsLargest(a: seq<int>)
    requires Strict(a) && a != []
    ensures a[|a| - 1] in Elems(a) && forall x :: x in Elems(a) ==> x <= a[|a| - 1]
  {
  }

  lemma DropLast(a: seq<int>)
    requires Strict(a) && a != []
    ensures Strict(a[..|a| - 1]) && Elems(a[..|a| - 1]) == Elems(a) - {a[|a| - 1]}
  {
    var n := |a| - 1;
    assert a == a[..n] + [a[n]];
    ElemsSnoc(a[..n], a[n]);
    assert a[n] !in a[..n];
  }

  /** g_int_consistent with an array: sort the query, then the merge that the strategy calls for. */
  method ConsistentArray(key: seq<int>, strategy: Strategy, q: seq<int>, leaf: bool) returns (r: bool)
    requires Strict(key)
    ensures r <==> Consistent(Array(strategy, q), Elems(key), leaf)
  {
    if q == [] {
      return false;
    }
    var a := new int[|q|](i requires 0 <= i < |q| => q[i]);
    assert a[..] == q;
    var n := Prepare(a);
    var query := a[..n];
    NonEmpty(q, query);
    match strategy
    case Overlap => r := InnerOverlap(key, query);
    case Contains => r := InnerContains(key, query);
    case ContainedBy =>
      if leaf {
        r := InnerContains(query, key);
        NonEmptyIff(key);
      } else {
        r := InnerOverlap(key, query);
      }
    case Same =>
      if leaf {
        r := SameArrays(key, query);
        if Elems(key) == Elems(query) {
          StrictIsUnique(key, query);
        }
      } else {
        r := InnerContains(key, query);
      }
  }

  lemma NonEmpty(q: seq<int>, query: seq<int>)
    requires q != [] && Elems(query) == Elems(q)
    ensures query != []
    ensures forall key: seq<int> :: Elems(query) <= Elems(key) ==> key != []
  {
    assert q[0] in Elems(q);
  }

  lemma NonEmptyIff(s: seq<int>)
    ensures s != [] <==> Elems(s) != {}
  {
    assert s != [] ==> s[0] in Elems(s);
  }

  /** g_int_consistent with a stored boolean query: execute on the key, exact on a leaf and with negations read
      as true on an inner key.  An answer is that of the test, and it comes when the links of the query fit. */
  method ConsistentBoolean(key: seq<int>, items: seq<Item>, leaf: bool, stack: nat) returns (o: Outcome)
    requires Strict(key)
    ensures o == ExecuteAs(items, Elems(key), leaf, stack)
    ensures o.Answer? ==> o == Answer(Consistent(Boolean(items), Elems(key), leaf))
    ensures forall q :: Stores(items, q) && LinksFit(q) && stack >= Height(q) ==> o.Answer?
  {
    o := IntBool.ExecuteArr(items, |items| - 1, key, leaf, stack);
    if o.Answer? {
      HoldsIs(items, Elems(key), leaf, stack);
    }
    forall q | Stores(items, q) && LinksFit(q) && stack >= Height(q) ensures o.Answer? {
      ExecuteFoundIsEval(items, q, Elems(key), leaf, stack);
    }
  }

  // ----- Trees -----

  // An index over rows; keys are as stored, through compression.
  type Index = Gist.Tree<seq<int>, seq<int>>

  // A stored key: a strictly increasing array, or ranges when it is 200 integers long.
  ghost predicate StoredKey(key: seq<int>) {
    && (forall x :: x in key ==> IsInt4(x))
    && if |key| < 2 * MAXNUMRANGE then Strict(key) else |key| == 2 * MAXNUMRANGE && IsRanges(key)
  }

  // The integers of a key after decompression.
  ghost function Decoded(key: seq<int>): (s: set<int>) {
    if |key| < 2 * MAXNUMRANGE || !IsRanges(key) then Elems(key) else Elems(Expand(key))
  }

  lemma DecodedIsInt4(key: seq<int>, x: int)
    requires StoredKey(key) && x in Decoded(key)
    ensures IsInt4(x)
  {
    if |key| >= 2 * MAXNUMRANGE {
      ExpandIsUnion(key);
      var j :| 0 <= j < Count(key) && Lo(key, j) <= x <= Hi(key, j);
      assert Lo(key, j) in key && Hi(key, j) in key;
    }
  }

  // Compression loses no integer.
  lemma CompressedCovers(key: seq<int>, stored: seq<int>)
    requires |key| < 2 * MAXNUMRANGE ==> stored == key
    requires |key| >= 2 * MAXNUMRANGE ==> |stored| == 2 * MAXNUMRANGE && IsRanges(stored) && Covers(stored, key)
    ensures Elems(key) <= Decoded(stored)
  {
    if |key| >= 2 * MAXNUMRANGE {
      ExpandIsUnion(stored);
      forall x | x in Elems(key) ensures x in Elems(Expand(stored)) {
        assert x in key && InRanges(stored, x);
      }
    }
  }

  // A leaf key has the integers of its row, fewer than 200, so that it is not taken for ranges.
  ghost predicate LeafKey(key: seq<int>, row: seq<int>) {
    |key| < 2 * MAXNUMRANGE && Elems(key) == Elems(row)
  }

  ghost predicate Over(key: seq<int>, row: seq<int>) {
    Elems(row) <= Decoded(key)
  }

  ghost predicate WellBuilt(t: Index) {
    Gist.WellBuilt(t, LeafKey, Over)
  }

  // What the leaf test, with its recheck for equality, says of a row.
  ghost predicate LeafAccepts(ask: Ask, row: seq<int>) {
    && Consistent(ask, Elems(row), true)
    && (ask.Array? && ask.strategy == Same ==> Accepts(ask, row))
  }

  // The rows found by descending where the inner test allows.
  ghost function Descend(t: Index, ask: Ask): (rows: seq<seq<int>>) {
    Gist.Scan(t, key => Consistent(ask, Decoded(key), false),
              (key, row) => Consistent(ask, Decoded(key), true)
                            && (ask.Array? && ask.strategy == Same ==> Accepts(ask, row)))
  }

  // Every key the descent meets can be read back.
  ghost predicate ReadsKeys(t: Index, ask: Ask)
    decreases t
  {
    && StoredKey(t.key) && Readable(t.key)
    && (t.Node? && Consistent(ask, Decoded(t.key), false) ==>
          forall i :: 0 <= i < |t.children| ==> ReadsKeys(t.children[i], ask))
  }

  // An index scan: it returns no rows when it meets a key that cannot be read back.
  ghost function IndexScan(t: Index, ask: Ask): (rows: Option<seq<seq<int>>>) {
    if ReadsKeys(t, ask) then Some(Descend(t, ask)) else None
  }

  // The inner test never rejects a key that has a row the leaf test accepts.
  lemma InnerTestIsSound(ask: Ask, row: seq<int>, key: set<int>)
    requires Sound(ask) && LeafAccepts(ask, row) && Elems(row) <= key
    ensures Consistent(ask, key, false)
  {
    match ask
    case Boolean(items) => LooseHolds(items, Elems(row), key);
    case Array(strategy, q) =>
      if strategy == ContainedBy {
        assert Elems(row) <= key * Elems(q);
      } else if strategy == Overlap {
        assert Elems(row) * Elems(q) <= key * Elems(q);
      }
  }

  /** The descent finds exactly the rows the leaf test accepts, in order, whatever the tree. */
  lemma ScanPrunesNothing(t: Index, ask: Ask)
    requires WellBuilt(t) && Sound(ask)
    ensures Descend(t, ask) == Gist.Where(t, row => LeafAccepts(ask, row))
  {
    forall key, row | Over(key, row) && LeafAccepts(ask, row) ensures Consistent(ask, Decoded(key), false) {
      InnerTestIsSound(ask, row, Decoded(key));
    }
    Gist.ScanIsWhere(t, LeafKey, Over, key => Consistent(ask, Decoded(key), false),
                     (key, row) => Consistent(ask, Decoded(key), true)
                                   && (ask.Array? && ask.strategy == Same ==> Accepts(ask, row)),
                     row => LeafAccepts(ask, row));
  }

  // ----- Index scan and sequential scan -----

  /** The leaf test agrees with the operator on a row, except that an empty row does not equal an
      empty query, and satisfies a boolean query that holds of the empty set. */
  lemma LeafTestIsExactIff(ask: Ask, row: seq<int>)
    ensures LeafAccepts(ask, row) == Accepts(ask, row) <==> row != [] || !EmptyDiffers(ask)
  {
    NonEmptyIff(row);
    match ask
    case Boolean(_) =>
    case Array(strategy, q) =>
      NonEmptyIff(q);
      if strategy == Same && multiset(row) == multiset(q) {
        SameElems(row, q);
      }
      if strategy == Overlap && q == [] {
        assert Elems(row) !! Elems(q);
      }
  }

  // The conditions on which an index scan treats empty rows unlike the operator.
  ghost predicate EmptyDiffers(ask: Ask) {
    match ask
    case Boolean(items) => Holds(items, {}, true)
    case Array(strategy, q) => strategy == Same && q == []
  }

  predicate HasEmptyRow(t: Index)
    decreases t, 0
  {
    match t
    case Leaf(_, row) => row == []
    case Node(_, children) => HasEmptyRowAll(children)
  }

  predicate HasEmptyRowAll(ts: seq<Index>)
    decreases ts, 1
  {
    ts != [] && (HasEmptyRow(ts[0]) || HasEmptyRowAll(ts[1..]))
  }

  // Two tests that differ only on empty rows, and there in one direction.
  lemma {:induction false} WhereDiffers(t: Index, p: seq<int> -> bool, q: seq<int> -> bool)
    requires forall row :: row != [] ==> p(row) == q(row)
    requires p([]) && !q([])
    ensures |Gist.Where(t, q)| <= |Gist.Where(t, p)| && (|Gist.Where(t, q)| < |Gist.Where(t, p)| <==> HasEmptyRow(t))
    ensures !HasEmptyRow(t) ==> Gist.Where(t, p) == Gist.Where(t, q)
    decreases t, 0
  {
    match t
    case Leaf(_, _) =>
    case Node(_, children) => WhereDiffersAll(children, p, q);
  }

  lemma {:induction false} WhereDiffersAll(ts: seq<Index>, p: seq<int> -> bool, q: seq<int> -> bool)
    requires forall row :: row != [] ==> p(row) == q(row)
    requires p([]) && !q([])
    ensures |Gist.WhereAll(ts, q)| <= |Gist.WhereAll(ts, p)| && (|Gist.WhereAll(ts, q)| < |Gist.WhereAll(ts, p)| <==> HasEmptyRowAll(ts))
    ensures !HasEmptyRowAll(ts) ==> Gist.WhereAll(ts, p) == Gist.WhereAll(ts, q)
    decreases ts, 1
  {
    if ts != [] {
      WhereDiffers(ts[0], p, q);
      WhereDiffersAll(ts[1..], p, q);
    }
  }

  lemma {:induction false} WhereSame(t: Index, p: seq<int> -> bool, q: seq<int> -> bool)
    requires forall row :: p(row) == q(row)
    ensures Gist.Where(t, p) == Gist.Where(t, q)
    decreases t, 0
  {
    if t.Node? {
      WhereSameAll(t.children, p, q);
    }
  }

  lemma {:induction false} WhereSameAll(ts: seq<Index>, p: seq<int> -> bool, q: seq<int> -> bool)
    requires forall row :: p(row) == q(row)
    ensures Gist.WhereAll(ts, p) == Gist.WhereAll(ts, q)
    decreases ts, 1
  {
    if ts != [] {
      WhereSame(ts[0], p, q);
      WhereSameAll(ts[1..], p, q);
    }
  }

  // Testing the operator on every row.
  ghost function SeqScan(t: Index, ask: Ask): (rows: seq<seq<int>>) {
    Gist.Where(t, row => Accepts(ask, row))
  }

  /** An index scan returns the rows a sequential scan returns, in order, if and only if every key it meets
      can be read back and no empty row meets a condition that treats empty rows differently. */
  lemma IndexScanIsSeqScanIff(t: Index, ask: Ask)
    requires WellBuilt(t) && Sound(ask)
    ensures IndexScan(t, ask) == Some(SeqScan(t, ask)) <==> ReadsKeys(t, ask) && !(HasEmptyRow(t) && EmptyDiffers(ask))
  {
    var p, q := row => LeafAccepts(ask, row), row => Accepts(ask, row);
    ScanPrunesNothing(t, ask);
    forall row ensures p(row) == q(row) <==> row != [] || !EmptyDiffers(ask) {
      LeafTestIsExactIff(ask, row);
    }
    if !EmptyDiffers(ask) {
      WhereSame(t, p, q);
    } else if p([]) {
      WhereDiffers(t, p, q);
    } else {
      WhereDiffers(t, q, p);
    }
  }

  /** An empty row satisfies !1 in the index, and does not satisfy it as an operand of boolop. */
  lemma EmptyRowDiffers()
    ensures var t: Index, ask := Gist.Leaf([], []), Boolean(Stored(Not(Val(1))));
            WellBuilt(t) && Sound(ask) && IndexScan(t, ask) == Some([[]]) && SeqScan(t, ask) == []
  {
    var q := Not(Val(1));
    var t: Index, ask := Gist.Leaf([], []), Boolean(Stored(q));
    StoresIff(Stored(q), q);
    FittingAnswers(Stored(q), q);
    assert Over([], []) && LeafKey([], []);
    assert Decoded([]) == {};
    assert !Eval(Val(1), In({}), true);
    assert Consistent(ask, Decoded([]), true);
    assert ReadsKeys(t, ask) && Descend(t, ask) == [[]];
    assert !Accepts(ask, []);
  }

  /** Two rows of a hundred integers each, up to the largest int4: their entries are well built, the entry
      above them is well built, and no scan can read its key. */
  method TopRowsAreLost() returns (t: Index)
    ensures t.Node? && |t.children| == 2 && WellBuilt(t)
    ensures forall ask :: IndexScan(t, ask) == None
  {
    var top := TOP_KEY;
    var low, high := top[..MAXNUMRANGE], top[MAXNUMRANGE..];
    var leaves: seq<Index> := [Gist.Leaf(low, low), Gist.Leaf(high, high)];
    var made := Compress(top);
    var stored := made.a;
    CompressedCovers(top, stored);
    forall i, row | 0 <= i < |leaves| && Over(leaves[i].key, row) ensures Over(stored, row) {
      assert Elems(low) <= Elems(top) && Elems(high) <= Elems(top);
    }
    assert LeafKey(low, low) && Over(low, low) && LeafKey(high, high) && Over(high, high);
    assert WellBuilt(leaves[0]) && WellBuilt(leaves[1]);
    Gist.NodeIsWellBuilt(stored, leaves, LeafKey, Over);
    t := Gist.Node(stored, leaves);
  }

  // ----- How inner keys come about -----

  ghost function UnionOf(keys: seq<seq<int>>): (s: set<int>) {
    if keys == [] then {} else UnionOf(keys[..|keys| - 1]) + Elems(keys[|keys| - 1])
  }

  // The number of integers in all keys together.
  function Total(keys: seq<seq<int>>): (n: nat) {
    if keys == [] then 0 else Total(keys[..|keys| - 1]) + |keys[|keys| - 1]|
  }

  /** g_int_union: all keys one after the other in an array as long as their lengths add up to in 32 bits,
      sorted, without repeats. */
  method GIntUnion(keys: seq<seq<int>>) returns (r: Made)
    ensures r.Made? <==> Total(keys) <= MAX_ELEMENTS
    ensures r.Made? ==> Strict(r.a) && Elems(r.a) == UnionOf(keys)
  {
    var totlen, i := 0, 0;
    while i < |keys|
      invariant 0 <= i <= |keys| && totlen == Wrap(Total(keys[..i]))
    {
      assert keys[..i + 1][..i] == keys[..i];
      WrapAdds(Total(keys[..i]), |keys[i]|);
      totlen := Wrap(totlen + |keys[i]|);
      i := i + 1;
    }
    assert keys[..i] == keys;
    RoomFor(Total(keys));
    var room := Room(totlen);
    if room.None? {
      return Refused;
    }
    r := FillUnion(keys, room.value);
  }

  // The second loop, with room for so many elements, and what follows it.
  method FillUnion(keys: seq<seq<int>>, room: nat) returns (r: Made)
    ensures r.Made? <==> Total(keys) <= room
    ensures r.Made? ==> Strict(r.a) && Elems(r.a) == UnionOf(keys)
  {
    var all: seq<int>, i := [], 0;
    while i < |keys|
      invariant 0 <= i <= |keys| && |all| == Total(keys[..i]) <= room
      invariant Elems(all) == UnionOf(keys[..i])
    {
      assert keys[..i + 1][..i] == keys[..i];
      assert Elems(all + keys[i]) == Elems(all) + Elems(keys[i]);
      if |all| + |keys[i]| > room {
        TotalGrows(keys, i + 1);
        return Overrun;
      }
      all := all + keys[i];
      i := i + 1;
    }
    assert keys[..i] == keys;
    var a := new int[|all|](k requires 0 <= k < |all| => all[k]);
    assert a[..] == all;
    var n := Prepare(a);
    r := Made(a[..n]);
  }

  lemma {:induction false} TotalGrows(keys: seq<seq<int>>, n: nat)
    requires n <= |keys|
    ensures Total(keys[..n]) <= Total(keys)
    decreases |keys|
  {
    if n < |keys| {
      var init := keys[..|keys| - 1];
      TotalGrows(init, n);
      assert init[..n] == keys[..n];
    } else {
      assert keys[..n] == keys;
    }
  }

  ghost predicate Grown(ts: seq<Index>) {
    forall i :: 0 <= i < |ts| ==> StoredKey(ts[i].key) && WellBuilt(ts[i])
  }

  /** The entry of a row: its integers, sorted, without repeats.  It is well built if and only if there are
      fewer than 200 of them; a longer leaf key would be taken for ranges. */
  method Plant(row: seq<int>) returns (t: Index)
    requires forall x :: x in row ==> IsInt4(x)
    ensures t.Leaf? && t.row == row && Strict(t.key) && Elems(t.key) == Elems(row)
    ensures Grown([t]) <==> |Elems(row)| < 2 * MAXNUMRANGE
  {
    var a := new int[|row|](k requires 0 <= k < |row| => row[k]);
    assert a[..] == row;
    var n := Prepare(a);
    var key := a[..n];
    StrictLength(key);
    forall x | x in key ensures IsInt4(x) {
      assert x in Elems(key) && x in row;
    }
    t := Gist.Leaf(key, row);
    assert [t][0] == t;
    if |key| < 2 * MAXNUMRANGE {
      assert LeafKey(key, row) && Over(key, row);
    }
  }

  lemma {:induction false} StrictLength(a: seq<int>)
    requires Strict(a)
    ensures |a| == |Elems(a)|
    decreases |a|
  {
    NonEmptyIff(a);
    if a != [] {
      LastIsLargest(a);
      DropLast(a);
      StrictLength(a[..|a| - 1]);
    }
  }

  // Reads back the keys of a page.
  method DecompressAll(ts: seq<Index>) returns (keys: Option<seq<seq<int>>>)
    requires Grown(ts)
    ensures keys.Some? <==> AllReadable(ts)
    ensures keys.Some? ==> |keys.value| == |ts| && forall i :: 0 <= i < |ts| ==> Unpacks(keys.value[i], ts[i].key)
  {
    var ks: seq<seq<int>>, i := [], 0;
    while i < |ts|
      invariant 0 <= i <= |ts| && |ks| == i
      invariant forall k :: 0 <= k < i ==> Readable(ts[k].key) && Unpacks(ks[k], ts[k].key)
    {
      var r := Decompress(ts[i].key);
      if !r.Made? {
        return None;
      }
      UnpacksStored(r.a, ts[i].key);
      ks := ks + [r.a];
      i := i + 1;
    }
    keys := Some(ks);
  }

  ghost predicate AllReadable(ts: seq<Index>)
    requires Grown(ts)
  {
    forall i :: 0 <= i < |ts| ==> Readable(ts[i].key)
  }

  // key is what decompression gives of a stored key.
  ghost predicate Unpacks(key: seq<int>, stored: seq<int>) {
    IsKey(key) && Elems(key) == Decoded(stored)
  }

  lemma UnpacksStored(key: seq<int>, stored: seq<int>)
    requires StoredKey(stored) && key == if |stored| < 2 * MAXNUMRANGE then stored else Expand(stored)
    ensures Unpacks(key, stored)
  {
    if |stored| >= 2 * MAXNUMRANGE {
      ExpandIsUnion(stored);
    }
    forall x | x in key ensures IsInt4(x) {
      assert x in Elems(key);
      DecodedIsInt4(stored, x);
    }
  }

  // An entry with the key that is stored for integers that include those of every child, if it can be stored.
  method Cover(key: seq<int>, children: seq<Index>) returns (t: Option<Index>)
    requires IsKey(key) && Grown(children)
    requires forall i :: 0 <= i < |children| ==> Decoded(children[i].key) <= Elems(key)
    ensures t.Some? <==> Compressible(|Elems(key)|)
    ensures t.Some? ==> t.value.Node? && t.value.children == children && Grown([t.value])
  {
    var stored := Compress(key);
    StrictLength(key);
    if !stored.Made? {
      return None;
    }
    CompressedCovers(key, stored.a);
    assert forall x :: x in stored.a ==> x in Elems(stored.a);
    assert forall x :: x in Elems(key) ==> x in key;
    Gist.NodeIsWellBuilt(stored.a, children, LeafKey, Over);
    t := Some(Gist.Node(stored.a, children));
  }

  lemma {:induction false} UnionHas(keys: seq<seq<int>>)
    ensures forall i :: 0 <= i < |keys| ==> Elems(keys[i]) <= UnionOf(keys)
    ensures forall x :: x in UnionOf(keys) ==> exists i :: 0 <= i < |keys| && x in keys[i]
  {
    if keys != [] {
      var init, n := keys[..|keys| - 1], |keys| - 1;
      UnionHas(init);
      assert forall i :: 0 <= i < n ==> keys[i] == init[i];
      forall x | x in UnionOf(keys) ensures exists i :: 0 <= i < |keys| && x in keys[i] {
        if x in UnionOf(init) {
          var i :| 0 <= i < n && x in init[i];
          assert x in keys[i];
        } else {
          assert x in keys[n];
        }
      }
    }
  }

  // The integers of the keys of a page, key by key, and what they come to.
  ghost function Sets(ts: seq<Index>): (sets: seq<set<int>>)
    ensures |sets| == |ts| && forall i :: 0 <= i < |ts| ==> sets[i] == Decoded(ts[i].key)
  {
    seq(|ts|, i requires 0 <= i < |ts| => Decoded(ts[i].key))
  }

  ghost function SumOf(sets: seq<set<int>>): (n: nat) {
    if sets == [] then 0 else SumOf(sets[..|sets| - 1]) + |sets[|sets| - 1]|
  }

  ghost function JoinOf(sets: seq<set<int>>): (s: set<int>) {
    if sets == [] then {} else JoinOf(sets[..|sets| - 1]) + sets[|sets| - 1]
  }

  // keys are arrays of these sets.
  ghost predicate ArraysOf(keys: seq<seq<int>>, sets: seq<set<int>>) {
    |keys| == |sets| && forall i :: 0 <= i < |keys| ==> Strict(keys[i]) && Elems(keys[i]) == sets[i]
  }

  lemma {:induction false} ArraysAddUp(keys: seq<seq<int>>, sets: seq<set<int>>)
    requires ArraysOf(keys, sets)
    ensures Total(keys) == SumOf(sets) && UnionOf(keys) == JoinOf(sets)
  {
    if keys != [] {
      var n := |keys| - 1;
      ArraysAddUp(keys[..n], sets[..n]);
      StrictLength(keys[n]);
    }
  }

  // There is memory for the union of a page and for compressing it.
  ghost predicate UnionFits(sets: seq<set<int>>) {
    SumOf(sets) <= MAX_ELEMENTS && Compressible(|JoinOf(sets)|)
  }

  /** The entry above a page, by decompression, union and compression: a well built entry, if and only if every
      key of the page can be read back and there is memory for the union. */
  method Above(children: seq<Index>) returns (t: Option<Index>)
    requires Grown(children)
    ensures t.Some? <==> AllReadable(children) && UnionFits(Sets(children))
    ensures t.Some? ==> t.value.Node? && t.value.children == children && Grown([t.value])
  {
    var keys := DecompressAll(children);
    if keys.None? {
      return None;
    }
    assert forall i :: 0 <= i < |children| ==> Unpacks(keys.value[i], children[i].key);
    ArraysAddUp(keys.value, Sets(children));
    var made := GIntUnion(keys.value);
    if !made.Made? {
      return None;
    }
    var key := made.a;
    UnionHas(keys.value);
    forall x | x in key ensures IsInt4(x) {
      assert x in Elems(key);
    }
    t := Cover(key, children);
  }

  // ----- Splitting a page -----

  // The integers on the left or the right side after k steps: those of its seed and of the entries put there.
  ghost function SideSet(sets: seq<set<int>>, seed1: nat, seed2: nat, order: seq<nat>, goLeft: seq<bool>, left: bool, k: nat): (s: set<int>)
    requires seed1 < |sets| && seed2 < |sets| && k <= |order| == |goLeft| && Gist.Offsets(order, |sets|)
  {
    if k == 0 then sets[if left then seed1 else seed2]
    else
      var s := SideSet(sets, seed1, seed2, order, goLeft, left, k - 1);
      if order[k - 1] != seed1 && order[k - 1] != seed2 && goLeft[k - 1] == left then s + sets[order[k - 1]] else s
  }

  // There is memory for the union of set i with each from lo to hi - 1.
  ghost predicate RowFits(sets: seq<set<int>>, i: nat, lo: nat, hi: nat)
    requires i < |sets|
  {
    forall j :: lo <= j < hi && j < |sets| ==> |sets[i]| + |sets[j]| <= MAX_ELEMENTS
  }

  // The same with each later set but the last.
  ghost predicate PairsFit(sets: seq<set<int>>, i: nat)
    requires i < |sets|
  {
    RowFits(sets, i, i + 1, |sets| - 1)
  }

  // There is memory for the unions from which the seeds and the costs are computed.
  ghost predicate SeedsFit(sets: seq<set<int>>, seed1: nat, seed2: nat)
    requires 1 <= seed1 < |sets| && seed2 < |sets|
  {
    && (forall i :: 1 <= i < |sets| - 1 ==> PairsFit(sets, i))
    && RowFits(sets, seed1, 1, |sets|) && RowFits(sets, seed2, 1, |sets|)
  }

  // There is memory for both unions of step k.
  ghost predicate StepFits(sets: seq<set<int>>, seed1: nat, seed2: nat, order: seq<nat>, goLeft: seq<bool>, k: nat)
    requires seed1 < |sets| && seed2 < |sets| && k < |order| == |goLeft| && Gist.Offsets(order, |sets|)
  {
    order[k] != seed1 && order[k] != seed2 ==>
      && |SideSet(sets, seed1, seed2, order, goLeft, true, k)| + |sets[order[k]]| <= MAX_ELEMENTS
      && |SideSet(sets, seed1, seed2, order, goLeft, false, k)| + |sets[order[k]]| <= MAX_ELEMENTS
  }

  ghost predicate StepsFit(sets: seq<set<int>>, seed1: nat, seed2: nat, order: seq<nat>, goLeft: seq<bool>, n: nat)
    requires seed1 < |sets| && seed2 < |sets| && n <= |order| == |goLeft| && Gist.Offsets(order, |sets|)
  {
    forall k :: 0 <= k < n ==> StepFits(sets, seed1, seed2, order, goLeft, k)
  }

  // There is memory for every union of the split.
  ghost predicate SplitFits(sets: seq<set<int>>, seed1: nat, seed2: nat, order: seq<nat>, goLeft: seq<bool>)
    requires 1 <= seed1 < |sets| && seed2 < |sets| && |order| == |goLeft| && Gist.Offsets(order, |sets|)
  {
    SeedsFit(sets, seed1, seed2) && StepsFit(sets, seed1, seed2, order, goLeft, |order|)
  }

  // The unions of entry i with those from lo to hi - 1.
  method TryRow(entries: seq<seq<int>>, i: nat, lo: nat, hi: nat, ghost sets: seq<set<int>>) returns (ok: bool)
    requires ArraysOf(entries, sets) && i < |entries| && lo <= hi <= |entries|
    ensures ok <==> RowFits(sets, i, lo, hi)
  {
    var j := lo;
    StrictLength(entries[i]);
    while j < hi
      invariant lo <= j <= hi && RowFits(sets, i, lo, j)
    {
      StrictLength(entries[j]);
      var u := InnerUnion(entries[i], entries[j]);
      if !u.Made? {
        return false;
      }
      j := j + 1;
    }
    return true;
  }

  // The loops that compute the unions from which seeds and costs come.
  method TrySeeds(entries: seq<seq<int>>, seed1: nat, seed2: nat, ghost sets: seq<set<int>>) returns (ok: bool)
    requires ArraysOf(entries, sets) && 1 <= seed1 < |entries| && seed2 < |entries|
    ensures ok <==> SeedsFit(sets, seed1, seed2)
  {
    var i := 1;
    while i < |entries| - 1
      invariant 1 <= i <= |entries| && forall a :: 1 <= a < i && a < |sets| - 1 ==> PairsFit(sets, a)
    {
      ok := TryRow(entries, i, i + 1, |entries| - 1, sets);
      assert ok <==> PairsFit(sets, i);
      if !ok {
        return;
      }
      i := i + 1;
    }
    var left := TryRow(entries, seed1, 1, |entries|, sets);
    var right := TryRow(entries, seed2, 1, |entries|, sets);
    ok := left && right;
  }

  // One half of a page: the offsets and the integers of its key.
  datatype Sides = Sides(left: seq<nat>, right: seq<nat>, datumL: seq<int>, datumR: seq<int>)

  // Step i puts its entry on the left or the right side.
  predicate SentTo(order: seq<nat>, goLeft: seq<bool>, seed1: nat, seed2: nat, i: nat, left: bool)
    requires i < |order| == |goLeft|
  {
    (order[i] == seed1 || (order[i] != seed2 && goLeft[i])) == left
  }

  // The offsets on one side after k steps.
  function SideList(order: seq<nat>, goLeft: seq<bool>, seed1: nat, seed2: nat, left: bool, k: nat): (list: seq<nat>)
    requires k <= |order| == |goLeft|
  {
    if k == 0 then []
    else
      var list := SideList(order, goLeft, seed1, seed2, left, k - 1);
      if SentTo(order, goLeft, seed1, seed2, k - 1, left) then list + [order[k - 1]] else list
  }

  // The lists and keys after k steps.
  ghost predicate SplitSoFar(s: Sides, sets: seq<set<int>>, seed1: nat, seed2: nat, order: seq<nat>, goLeft: seq<bool>, k: nat)
    requires seed1 < |sets| && seed2 < |sets| && k <= |order| == |goLeft| && Gist.Offsets(order, |sets|)
  {
    && s.left == SideList(order, goLeft, seed1, seed2, true, k) && s.right == SideList(order, goLeft, seed1, seed2, false, k)
    && Strict(s.datumL) && Strict(s.datumR)
    && Elems(s.datumL) == SideSet(sets, seed1, seed2, order, goLeft, true, k)
    && Elems(s.datumR) == SideSet(sets, seed1, seed2, order, goLeft, false, k)
  }

  // One step of the loop, if there is memory for both unions.
  method PutNext(s: Sides, entries: seq<seq<int>>, seed1: nat, seed2: nat, order: seq<nat>, goLeft: seq<bool>, k: nat,
                 ghost sets: seq<set<int>>) returns (r: Option<Sides>)
    requires 1 <= seed1 < seed2 < |entries| && k < |order| == |goLeft| && Gist.Offsets(order, |entries|)
    requires ArraysOf(entries, sets) && SplitSoFar(s, sets, seed1, seed2, order, goLeft, k)
    ensures r.Some? <==> StepFits(sets, seed1, seed2, order, goLeft, k)
    ensures r.Some? ==> SplitSoFar(r.value, sets, seed1, seed2, order, goLeft, k + 1)
  {
    var i := order[k];
    StrictLength(entries[i]);
    StrictLength(s.datumL);
    StrictLength(s.datumR);
    var t := s;
    if i == seed1 {
      t := s.(left := s.left + [i]);
    } else if i == seed2 {
      t := s.(right := s.right + [i]);
    } else {
      var l := InnerUnion(s.datumL, entries[i]);
      var r' := InnerUnion(s.datumR, entries[i]);
      if !l.Made? || !r'.Made? {
        return None;
      }
      t := if goLeft[k] then s.(left := s.left + [i], datumL := l.a) else s.(right := s.right + [i], datumR := r'.a);
    }
    r := Some(t);
  }

  /** g_int_picksplit, for any two different seeds, any order of the other entries and any choice of sides: if and
      only if there is memory for all unions, the offsets are partitioned as chosen, and the new keys have
      exactly the integers of their sides. */
  method PickSplit(entries: seq<seq<int>>, seed1: nat, seed2: nat, order: seq<nat>, goLeft: seq<bool>,
                   ghost sets: seq<set<int>>) returns (r: Option<Sides>)
    requires 1 <= seed1 < seed2 < |entries| && Gist.IsOrder(order, |entries|) && |goLeft| == |order|
    requires ArraysOf(entries, sets)
    ensures r.Some? <==> SplitFits(sets, seed1, seed2, order, goLeft)
    ensures r.Some? ==> SplitSoFar(r.value, sets, seed1, seed2, order, goLeft, |order|)
    ensures r.Some? ==> Gist.Partition(r.value.left, r.value.right, |entries|)
  {
    var ok := TrySeeds(entries, seed1, seed2, sets);
    if !ok {
      return None;
    }
    r := PutAll(entries, seed1, seed2, order, goLeft, sets);
    ListsPartition(order, goLeft, seed1, seed2, |entries|);
  }

  lemma SplitStarts(s: Sides, sets: seq<set<int>>, seed1: nat, seed2: nat, order: seq<nat>, goLeft: seq<bool>)
    requires seed1 < |sets| && seed2 < |sets| && |order| == |goLeft| && Gist.Offsets(order, |sets|)
    requires s.left == [] && s.right == [] && Strict(s.datumL) && Strict(s.datumR)
    requires Elems(s.datumL) == sets[seed1] && Elems(s.datumR) == sets[seed2]
    ensures SplitSoFar(s, sets, seed1, seed2, order, goLeft, 0)
  {
  }

  lemma {:induction false} ListsAssign(order: seq<nat>, goLeft: seq<bool>, seed1: nat, seed2: nat, k: nat)
    requires k <= |order| == |goLeft| && seed1 != seed2 && forall i, j :: 0 <= i < j < |order| ==> order[i] != order[j]
    ensures Gist.Assigned(SideList(order, goLeft, seed1, seed2, true, k), SideList(order, goLeft, seed1, seed2, false, k),
                          order, k, seed1, seed2)
  {
    if k > 0 {
      ListsAssign(order, goLeft, seed1, seed2, k - 1);
      Gist.AssignNext(SideList(order, goLeft, seed1, seed2, true, k - 1), SideList(order, goLeft, seed1, seed2, false, k - 1),
                      order, k - 1, seed1, seed2);
    }
  }

  lemma ListsPartition(order: seq<nat>, goLeft: seq<bool>, seed1: nat, seed2: nat, n: nat)
    requires Gist.IsOrder(order, n) && |goLeft| == |order| && 1 <= seed1 < seed2 < n
    ensures Gist.Partition(SideList(order, goLeft, seed1, seed2, true, |order|),
                           SideList(order, goLeft, seed1, seed2, false, |order|), n)
  {
    ListsAssign(order, goLeft, seed1, seed2, |order|);
    Gist.AssignedAll(SideList(order, goLeft, seed1, seed2, true, |order|), SideList(order, goLeft, seed1, seed2, false, |order|),
                     order, n, seed1, seed2);
  }

  // An entry on a list was sent there.
  lemma {:induction false} ListedWasSent(order: seq<nat>, goLeft: seq<bool>, seed1: nat, seed2: nat, left: bool, k: nat, j: nat) returns (i: nat)
    requires k <= |order| == |goLeft| && j in SideList(order, goLeft, seed1, seed2, left, k)
    ensures i < k && order[i] == j && SentTo(order, goLeft, seed1, seed2, i, left)
  {
    if j in SideList(order, goLeft, seed1, seed2, left, k - 1) {
      i := ListedWasSent(order, goLeft, seed1, seed2, left, k - 1, j);
    } else {
      i := k - 1;
    }
  }

  // The loop over the entries.
  method PutAll(entries: seq<seq<int>>, seed1: nat, seed2: nat, order: seq<nat>, goLeft: seq<bool>,
                ghost sets: seq<set<int>>) returns (r: Option<Sides>)
    requires 1 <= seed1 < seed2 < |entries| && Gist.Offsets(order, |entries|) && |goLeft| == |order|
    requires ArraysOf(entries, sets)
    ensures r.Some? <==> StepsFit(sets, seed1, seed2, order, goLeft, |order|)
    ensures r.Some? ==> SplitSoFar(r.value, sets, seed1, seed2, order, goLeft, |order|)
  {
    var s := Sides([], [], entries[seed1], entries[seed2]);
    var k := 0;
    SplitStarts(s, sets, seed1, seed2, order, goLeft);
    while k < |order|
      invariant 0 <= k <= |order| && SplitSoFar(s, sets, seed1, seed2, order, goLeft, k)
      invariant StepsFit(sets, seed1, seed2, order, goLeft, k)
    {
      var next := PutNext(s, entries, seed1, seed2, order, goLeft, k, sets);
      if next.None? {
        return None;
      }
      s := next.value;
      k := k + 1;
    }
    r := Some(s);
  }

  // A split page: the two new entries and which of the old ones each of them has.
  datatype Halves = Halves(l: Index, r: Index, left: seq<nat>, right: seq<nat>)

  lemma {:induction false} SideHasEntry(sets: seq<set<int>>, seed1: nat, seed2: nat, order: seq<nat>, goLeft: seq<bool>,
                                        left: bool, k: nat, i: nat)
    requires seed1 < seed2 < |sets| && i < k <= |order| == |goLeft| && Gist.Offsets(order, |sets|)
    requires SentTo(order, goLeft, seed1, seed2, i, left)
    ensures sets[order[i]] <= SideSet(sets, seed1, seed2, order, goLeft, left, k)
    decreases k
  {
    SideHasSeed(sets, seed1, seed2, order, goLeft, left, k);
    if i + 1 < k {
      SideHasEntry(sets, seed1, seed2, order, goLeft, left, k - 1, i);
    }
  }

  lemma {:induction false} SideHasSeed(sets: seq<set<int>>, seed1: nat, seed2: nat, order: seq<nat>, goLeft: seq<bool>,
                                       left: bool, k: nat)
    requires seed1 < |sets| && seed2 < |sets| && k <= |order| == |goLeft| && Gist.Offsets(order, |sets|)
    ensures sets[if left then seed1 else seed2] <= SideSet(sets, seed1, seed2, order, goLeft, left, k)
  {
    if k > 0 {
      SideHasSeed(sets, seed1, seed2, order, goLeft, left, k - 1);
    }
  }

  ghost predicate AllInt4(s: set<int>) {
    forall x :: x in s ==> IsInt4(x)
  }

  lemma {:induction false} SideIsInt4(sets: seq<set<int>>, seed1: nat, seed2: nat, order: seq<nat>, goLeft: seq<bool>,
                                      left: bool, k: nat)
    requires seed1 < |sets| && seed2 < |sets| && k <= |order| == |goLeft| && Gist.Offsets(order, |sets|)
    requires forall i :: 0 <= i < |sets| ==> AllInt4(sets[i])
    ensures AllInt4(SideSet(sets, seed1, seed2, order, goLeft, left, k))
  {
    if k > 0 {
      SideIsInt4(sets, seed1, seed2, order, goLeft, left, k - 1);
    }
  }

  lemma SetsAreInt4(ts: seq<Index>)
    requires Grown(ts)
    ensures forall i :: 0 <= i < |ts| ==> AllInt4(Sets(ts)[i])
  {
    forall i, x | 0 <= i < |ts| && x in Sets(ts)[i] ensures IsInt4(x) {
      DecodedIsInt4(ts[i].key, x);
    }
  }

  // The key of a side covers the entries of its list.
  lemma SideCovers(ts: seq<Index>, s: Sides, seed1: nat, seed2: nat, order: seq<nat>, goLeft: seq<bool>, left: bool)
    requires Grown(ts) && 1 <= seed1 < seed2 < |ts| && Gist.IsOrder(order, |ts|) && |goLeft| == |order|
    requires SplitSoFar(s, Sets(ts), seed1, seed2, order, goLeft, |order|) && Gist.Partition(s.left, s.right, |ts|)
    ensures var list, datum := if left then s.left else s.right, if left then s.datumL else s.datumR;
            && IsKey(datum) && Grown(Gist.Chosen(ts, list))
            && forall i :: 0 <= i < |list| ==> Decoded(Gist.Chosen(ts, list)[i].key) <= Elems(datum)
  {
    var list, datum := if left then s.left else s.right, if left then s.datumL else s.datumR;
    SetsAreInt4(ts);
    SideIsInt4(Sets(ts), seed1, seed2, order, goLeft, left, |order|);
    assert forall x :: x in datum ==> x in Elems(datum);
    forall i | 0 <= i < |list| ensures Decoded(Gist.Chosen(ts, list)[i].key) <= Elems(datum) {
      assert list[i] in list;
      var n := ListedWasSent(order, goLeft, seed1, seed2, left, |order|, list[i]);
      SideHasEntry(Sets(ts), seed1, seed2, order, goLeft, left, |order|, n);
    }
  }

  // There is memory for the split and for compressing both keys.
  ghost predicate PageFits(sets: seq<set<int>>, seed1: nat, seed2: nat, order: seq<nat>, goLeft: seq<bool>)
    requires 1 <= seed1 < |sets| && seed2 < |sets| && |order| == |goLeft| && Gist.Offsets(order, |sets|)
  {
    && SplitFits(sets, seed1, seed2, order, goLeft)
    && Compressible(|SideSet(sets, seed1, seed2, order, goLeft, true, |order|)|)
    && Compressible(|SideSet(sets, seed1, seed2, order, goLeft, false, |order|)|)
  }

  /** A split page, by decompression, picksplit and compression: two well built entries that share out the old
      ones, if and only if every key of the page can be read back and there is memory for the unions.  Offset 0
      of the vector is unused. */
  method Split(ts: seq<Index>, seed1: nat, seed2: nat, order: seq<nat>, goLeft: seq<bool>) returns (h: Option<Halves>)
    requires Grown(ts) && 1 <= seed1 < seed2 < |ts| && Gist.IsOrder(order, |ts|) && |goLeft| == |order|
    ensures h.Some? <==> AllReadable(ts) && PageFits(Sets(ts), seed1, seed2, order, goLeft)
    ensures h.Some? ==> Gist.Partition(h.value.left, h.value.right, |ts|) && Grown([h.value.l, h.value.r])
    ensures h.Some? ==> h.value.l.Node? && h.value.l.children == Gist.Chosen(ts, h.value.left)
    ensures h.Some? ==> h.value.r.Node? && h.value.r.children == Gist.Chosen(ts, h.value.right)
  {
    var keys := DecompressAll(ts);
    if keys.None? {
      return None;
    }
    assert forall i :: 0 <= i < |ts| ==> Unpacks(keys.value[i], ts[i].key);
    var sides := PickSplit(keys.value, seed1, seed2, order, goLeft, Sets(ts));
    if sides.None? {
      return None;
    }
    var s := sides.value;
    SideCovers(ts, s, seed1, seed2, order, goLeft, true);
    SideCovers(ts, s, seed1, seed2, order, goLeft, false);
    var l := Cover(s.datumL, Gist.Chosen(ts, s.left));
    var r := Cover(s.datumR, Gist.Chosen(ts, s.right));
    if l.None? || r.None? {
      return None;
    }
    assert [l.value, r.value][0] == [l.value][0] && [l.value, r.value][1] == [r.value][0];
    h := Some(Halves(l.value, r.value, s.left, s.right));
  }

  // ----- Pages that always fit -----

  lemma {:induction false} SumBounds(sets: seq<set<int>>, i: nat)
    requires i < |sets|
    ensures |sets[i]| <= SumOf(sets) && |JoinOf(sets)| <= SumOf(sets) && sets[i] <= JoinOf(sets)
    decreases |sets|
  {
    var n := |sets| - 1;
    var init := sets[..n];
    JoinBound(sets);
    if i < n {
      SumBounds(init, i);
      assert init[i] == sets[i];
    }
  }

  lemma {:induction false} JoinBound(sets: seq<set<int>>)
    ensures |JoinOf(sets)| <= SumOf(sets)
  {
    if sets != [] {
      var n := |sets| - 1;
      JoinBound(sets[..n]);
      SizeOfUnion(JoinOf(sets[..n]), sets[n]);
    }
  }

  lemma SizeOfUnion(a: set<int>, b: set<int>)
    ensures |a + b| <= |a| + |b|
  {
    assert a + b == a + (b - a);
    assert |b - a| <= |b| by {
      SubsetSize(b - a, b);
    }
  }

  lemma SubsetSize(a: set<int>, b: set<int>)
    requires a <= b
    ensures |a| <= |b|
  {
    assert b == a + (b - a) && a * (b - a) == {};
  }

  lemma {:induction false} SideInJoin(sets: seq<set<int>>, seed1: nat, seed2: nat, order: seq<nat>, goLeft: seq<bool>,
                                      left: bool, k: nat)
    requires seed1 < |sets| && seed2 < |sets| && k <= |order| == |goLeft| && Gist.Offsets(order, |sets|)
    ensures SideSet(sets, seed1, seed2, order, goLeft, left, k) <= JoinOf(sets)
  {
    if k == 0 {
      SumBounds(sets, if left then seed1 else seed2);
    } else {
      SideInJoin(sets, seed1, seed2, order, goLeft, left, k - 1);
      SumBounds(sets, order[k - 1]);
    }
  }

  /** A page whose keys together hold at most 134217724 integers can always be joined and split. */
  lemma SmallPagesFit(sets: seq<set<int>>, seed1: nat, seed2: nat, order: seq<nat>, goLeft: seq<bool>)
    requires 2 * SumOf(sets) <= MAX_ELEMENTS
    requires 1 <= seed1 < |sets| && seed2 < |sets| && |order| == |goLeft| && Gist.Offsets(order, |sets|)
    ensures UnionFits(sets) && PageFits(sets, seed1, seed2, order, goLeft)
  {
    JoinBound(sets);
    forall i | 0 <= i < |sets| ensures |sets[i]| <= SumOf(sets) {
      SumBounds(sets, i);
    }
    forall left, k | 0 <= k <= |order| ensures |SideSet(sets, seed1, seed2, order, goLeft, left, k)| <= SumOf(sets) {
      SideInJoin(sets, seed1, seed2, order, goLeft, left, k);
      SubsetSize(SideSet(sets, seed1, seed2, order, goLeft, left, k), JoinOf(sets));
    }
  }
}
