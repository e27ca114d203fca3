/** GIN search with boolean queries: the keys looked up, ginconsistent on the flags of the keys, and a scan
    compared with testing every row. */
module IntGin {
  import opened Basics
  import opened IntQuery
  import opened IntLinks
  import opened IntShorter
  import opened IntTool
  import opened IntBool

  // The query can be answered by looking only at rows that have one of its values.
  ghost predicate NeedsValue(q: Query) {
    forall s: set<int> :: Eval(q, In(s), true) ==> exists v :: v in s && v in Values(q)
  }

  /** A query of which something is left needs one of its values in every set that satisfies it. */
  lemma AnswerableNeedsValue(q: Query)
    requires !Reduce(q).Not?
    ensures NeedsValue(q)
  {
    var r := Reduce(q);
    forall s: set<int> | Eval(q, In(s), true) ensures exists v :: v in s && v in Values(q) {
      LooseOverApproximates(q, s, s, true);
      ReduceKeepsLooseMeaning(q, In(s));
      if forall v :: v in s ==> v !in Values(r) {
        NotFreeNeedsValue(r, s);
        assert false;
      }
      var v :| v in s && v in Values(r);
    }
  }

  // ----- ginint4_queryextract and ginconsistent -----

  // The values of the operands of items, in order.
  function Entries(items: seq<Item>): (vs: seq<int>) {
    if items == [] then []
    else
      var item := items[|items| - 1];
      Entries(items[..|items| - 1]) + if item.node.Operand? then [item.node.val] else []
  }

  predicate HoldsOperand(items: seq<Item>, v: int, lo: int, hi: int) {
    exists k :: lo <= k < hi && 0 <= k < |items| && items[k].node == Operand(v)
  }

  lemma {:induction false} EntriesHold(items: seq<Item>, v: int)
    ensures v in Entries(items) <==> HoldsOperand(items, v, 0, |items|)
  {
    if items != [] {
      var init, n := items[..|items| - 1], |items| - 1;
      EntriesHold(init, v);
      if HoldsOperand(items, v, 0, |items|) && items[n].node != Operand(v) {
        var k :| 0 <= k < |items| && items[k].node == Operand(v);
        assert init[k].node == Operand(v);
      }
      if HoldsOperand(init, v, 0, n) {
        var k :| 0 <= k < n && init[k].node == Operand(v);
        assert items[k].node == Operand(v);
      }
    }
  }

  lemma {:induction false} ValuesHold(items: seq<Item>, cur: int, q: Query, v: int)
    requires NodesEndAt(items, cur, q)
    ensures v in Values(q) <==> HoldsOperand(items, v, cur + 1 - Size(q), cur + 1)
    decreases q
  {
    match q
    case Val(_) => assert items[cur].node == Operand(q.v);
    case Not(p) => ValuesHold(items, cur - 1, p, v);
    case Bin(_, l, r) =>
      ValuesHold(items, cur - 1, r, v);
      ValuesHold(items, cur - 1 - Size(r), l, v);
  }

  datatype Extracted = Keys(vs: seq<int>) | FullScan | Overread

  /** ginint4_queryextract for a boolean query q stored as items.  It reads past the query exactly when
      shorterquery does; otherwise it is refused exactly when the loose reading holds of every set, and gives
      the operands in order, whose values are those of q, when not. */
  method QueryExtract(items: seq<Item>, ghost q: Query) returns (r: Extracted)
    requires Stores(items, q) && LinksFit(q)
    ensures r.Overread? <==> !Upright(q)
    ensures r.FullScan? <==> Upright(q) && forall s: set<int> :: Eval(q, In(s), false)
    ensures r.Keys? ==> r.vs == Entries(items) && NeedsValue(q)
    ensures r.Keys? ==> forall v :: v in r.vs <==> v in Values(q)
  {
    var shorter := ShorterQuery(items, q);
    if shorter.PastEnd? {
      return Overread;
    }
    if shorter.Nothing? {
      return FullScan;
    }
    AnswerableNeedsValue(q);
    var vs: seq<int>, i := [], 0;
    while i < |items|
      invariant 0 <= i <= |items|
      invariant vs == Entries(items[..i])
    {
      assert items[..i + 1][..i] == items[..i];
      if items[i].node.Operand? {
        vs := vs + [items[i].node.val];
      }
      i := i + 1;
    }
    assert items[..i] == items;
    forall v ensures v in vs <==> v in Values(q) {
      EntriesHold(items, v);
      ValuesHold(items, |items| - 1, q, v);
    }
    return Keys(vs);
  }

  // check[j] says whether the j-th key was found in the row.
  ghost predicate Flags(check: seq<bool>, items: seq<Item>, row: set<int>) {
    && |check| == |Entries(items)|
    && forall j :: 0 <= j < |check| ==> check[j] == (Entries(items)[j] in row)
  }

  // Only what is said of operands matters.
  lemma {:induction false} ExecuteSame(items: seq<Item>, cur: int, chk: int -> bool, chk': int -> bool, stack: nat)
    requires forall i :: 0 <= i < |items| && items[i].node.Operand? ==> chk(i) == chk'(i)
    ensures Execute(items, cur, chk, true, stack) == Execute(items, cur, chk', true, stack)
    decreases stack
  {
    if stack > 0 && 0 <= cur < |items| && !items[cur].node.Operand? {
      ExecuteSame(items, cur - 1, chk, chk', stack - 1);
      ExecuteSame(items, cur + items[cur].left, chk, chk', stack - 1);
    }
  }

  /** ginconsistent: spread the flags over the operand positions and execute the stored query.  On
      flags that say which keys a row has, it does what execute does on the row itself, and so decides
      the query for that row when its links fit. */
  method GinConsistent(items: seq<Item>, check: seq<bool>, ghost row: set<int>, stack: nat) returns (o: Outcome)
    requires Flags(check, items, row)
    ensures o == ExecuteOn(items, row, stack)
    ensures forall q :: Stores(items, q) && LinksFit(q) && stack >= Height(q) ==> o == Answer(Eval(q, In(row), true))
  {
    var mapped := seq(|items|, _ => false);
    var i, j := 0, 0;
    assert items[..|items|] == items;
    while i < |items|
      invariant 0 <= i <= |items| == |mapped|
      invariant j == |Entries(items[..i])| && Entries(items[..i]) <= Entries(items)
      invariant forall k :: 0 <= k < i && items[k].node.Operand? ==> mapped[k] == (items[k].node.val in row)
    {
      EntriesStep(items, i);
      if items[i].node.Operand? {
        mapped := mapped[i := check[j]];
        j := j + 1;
      }
      i := i + 1;
    }
    var chk := (k: int) => 0 <= k < |mapped| && mapped[k];
    ExecuteSame(items, |items| - 1, chk, Found(items, row), stack);
    o := Execute(items, |items| - 1, chk, true, stack);
    forall q | Stores(items, q) && LinksFit(q) && stack >= Height(q)
      ensures ExecuteOn(items, row, stack) == Answer(Eval(q, In(row), true))
    {
      ExecuteFoundIsEval(items, q, row, true, stack);
    }
  }

  lemma {:induction false} EntriesPrefix(items: seq<Item>, i: nat)
    requires i <= |items|
    ensures Entries(items[..i]) <= Entries(items)
    decreases |items|
  {
    if i < |items| {
      var init := items[..|items| - 1];
      EntriesPrefix(init, i);
      assert init[..i] == items[..i];
    } else {
      assert items[..i] == items;
    }
  }

  lemma EntriesStep(items: seq<Item>, i: nat)
    requires i < |items|
    ensures Entries(items[..i + 1]) == Entries(items[..i]) + if items[i].node.Operand? then [items[i].node.val] else []
    ensures Entries(items[..i + 1]) <= Entries(items)
  {
    assert items[..i + 1][..i] == items[..i];
    EntriesPrefix(items, i + 1);
  }

  // ----- Scans -----

  // The rows for which boolop answers true, in order.
  function Matching(rows: seq<seq<int>>, items: seq<Item>, stack: nat): (r: seq<seq<int>>) {
    if rows == [] then []
    else
      var row := rows[|rows| - 1];
      Matching(rows[..|rows| - 1], items, stack) + if Operator(row, items, stack) == Answer(true) then [row] else []
  }

  /** A sequential scan: boolop on every row. */
  method SeqScan(rows: seq<seq<int>>, items: seq<Item>, stack: nat) returns (r: seq<seq<int>>)
    ensures r == Matching(rows, items, stack)
  {
    r := [];
    var i := 0;
    while i < |rows|
      invariant 0 <= i <= |rows| && r == Matching(rows[..i], items, stack)
    {
      assert rows[..i + 1][..i] == rows[..i];
      var o := Boolop(rows[i], items, stack);
      if o == Answer(true) {
        r := r + [rows[i]];
      }
      i := i + 1;
    }
    assert rows[..i] == rows;
  }

  // One of the first n keys is in the row.
  predicate HasKey(vs: seq<int>, row: seq<int>, n: nat) {
    exists j :: 0 <= j < n && j < |vs| && vs[j] in Elems(row)
  }

  // Which keys the index finds in a row, and whether it finds any.
  method LookUp(vs: seq<int>, row: seq<int>) returns (check: seq<bool>, any: bool)
    ensures |check| == |vs| && forall j :: 0 <= j < |vs| ==> check[j] == (vs[j] in Elems(row))
    ensures any <==> HasKey(vs, row, |vs|)
  {
    check, any := [], false;
    while |check| < |vs|
      invariant |check| <= |vs| && forall j :: 0 <= j < |check| ==> check[j] == (vs[j] in Elems(row))
      invariant any <==> HasKey(vs, row, |check|)
    {
      var found := vs[|check|] in row;
      assert found == (vs[|check|] in Elems(row));
      check, any := check + [found], any || found;
    }
  }

  // A row without any key does not satisfy the query.
  lemma NoKeyNoMatch(items: seq<Item>, q: Query, row: seq<int>, stack: nat)
    requires Stores(items, q) && LinksFit(q) && stack >= Height(q) && NeedsValue(q)
    requires forall v :: v in Values(q) ==> v !in Elems(row)
    ensures Operator(row, items, stack) == Answer(false)
  {
    ExecuteFoundIsEval(items, q, Elems(row), true, stack);
    assert !Eval(q, In(Elems(row)), true);
  }

  datatype Scanned = Rows(rows: seq<seq<int>>) | FullScanRefused | Stray

  /** A GIN scan: the keys are extracted, every row with some key is visited, and those for which
      ginconsistent answers true on its flags are kept.  It goes astray exactly when shorterquery does, is
      refused exactly when the loose reading holds of every set, and otherwise returns the rows a
      sequential scan with boolop returns, in order. */
  method GinScan(rows: seq<seq<int>>, items: seq<Item>, ghost q: Query, stack: nat) returns (r: Scanned)
    requires Stores(items, q) && LinksFit(q) && stack >= Height(q)
    ensures r.Stray? <==> !Upright(q)
    ensures r.FullScanRefused? <==> Upright(q) && forall s: set<int> :: Eval(q, In(s), false)
    ensures r.Rows? ==> r.rows == Matching(rows, items, stack)
  {
    var keys := QueryExtract(items, q);
    if keys.Overread? {
      return Stray;
    }
    if keys.FullScan? {
      return FullScanRefused;
    }
    var found, i := [], 0;
    while i < |rows|
      invariant 0 <= i <= |rows| && found == Matching(rows[..i], items, stack)
    {
      assert rows[..i + 1][..i] == rows[..i];
      var row := rows[i];
      var check, any := LookUp(keys.vs, row);
      if any {
        var o := GinConsistent(items, check, Elems(row), stack);
        assert row != [];
        if o == Answer(true) {
          found := found + [row];
        }
      } else {
        NoKeyNoMatch(items, q, row, stack);
      }
      i := i + 1;
    }
    assert rows[..i] == rows;
    r := Rows(found);
  }
}
