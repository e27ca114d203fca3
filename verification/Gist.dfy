/** Search trees as the access method builds them: every entry has a key, leaf entries stand for rows, and
    a scan descends wherever the consistency test allows and rechecks the rows it reaches. */
module Gist {

  datatype Tree<K, R> = Leaf(key: K, row: R) | Node(key: K, children: seq<Tree<K, R>>)

  // The rows below t that p accepts, in order.
  ghost function Where<K, R>(t: Tree<K, R>, p: R -> bool): (rows: seq<R>)
    decreases t, 0
  {
    match t
    case Leaf(_, row) => if p(row) then [row] else []
    case Node(_, children) => WhereAll(children, p)
  }

  ghost function WhereAll<K, R>(ts: seq<Tree<K, R>>, p: R -> bool): (rows: seq<R>)
    decreases ts, 1
  {
    if ts == [] then [] else Where(ts[0], p) + WhereAll(ts[1..], p)
  }

  // Every row below t satisfies p.
  ghost predicate Below<K, R>(t: Tree<K, R>, p: R -> bool)
    decreases t
  {
    match t
    case Leaf(_, row) => p(row)
    case Node(_, children) => forall i :: 0 <= i < |children| ==> Below(children[i], p)
  }

  /** Leaf keys were made from their rows, and every key is over all the rows below it. */
  ghost predicate WellBuilt<K, R>(t: Tree<K, R>, made: (K, R) -> bool, over: (K, R) -> bool)
    decreases t
  {
    && Below(t, row => over(t.key, row))
    && match t
       case Leaf(key, row) => made(key, row)
       case Node(_, children) => forall i :: 0 <= i < |children| ==> WellBuilt(children[i], made, over)
  }

  // A scan with a test of inner keys, and a test of leaf keys with any recheck of the row.
  ghost function Scan<K, R>(t: Tree<K, R>, inner: K -> bool, leaf: (K, R) -> bool): (rows: seq<R>)
    decreases t, 0
  {
    match t
    case Leaf(key, row) => if leaf(key, row) then [row] else []
    case Node(key, children) => if inner(key) then ScanAll(children, inner, leaf) else []
  }

  ghost function ScanAll<K, R>(ts: seq<Tree<K, R>>, inner: K -> bool, leaf: (K, R) -> bool): (rows: seq<R>)
    decreases ts, 1
  {
    if ts == [] then [] else Scan(ts[0], inner, leaf) + ScanAll(ts[1..], inner, leaf)
  }

  lemma {:induction false} BelowWeakens<K, R(!new)>(t: Tree<K, R>, p: R -> bool, q: R -> bool)
    requires Below(t, p) && forall row :: p(row) ==> q(row)
    ensures Below(t, q)
    decreases t
  {
    if t.Node? {
      forall i | 0 <= i < |t.children| ensures Below(t.children[i], q) {
        BelowWeakens(t.children[i], p, q);
      }
    }
  }

  lemma {:induction false} BelowBoth<K, R(!new)>(t: Tree<K, R>, p: R -> bool, q: R -> bool, both: R -> bool)
    requires Below(t, p) && Below(t, q) && forall row :: p(row) && q(row) ==> both(row)
    ensures Below(t, both)
    decreases t
  {
    if t.Node? {
      forall i | 0 <= i < |t.children| ensures Below(t.children[i], both) {
        BelowBoth(t.children[i], p, q, both);
      }
    }
  }

  // What holds of all rows below may be added to what keys are over.
  lemma {:induction false} WellBuiltWithin<K(!new), R(!new)>(t: Tree<K, R>, made: (K, R) -> bool, over: (K, R) -> bool,
                                                             p: R -> bool, both: (K, R) -> bool)
    requires WellBuilt(t, made, over) && Below(t, p) && forall key, row :: over(key, row) && p(row) ==> both(key, row)
    ensures WellBuilt(t, made, both)
    decreases t
  {
    BelowBoth(t, row => over(t.key, row), p, row => both(t.key, row));
    if t.Node? {
      forall i | 0 <= i < |t.children| ensures WellBuilt(t.children[i], made, both) {
        WellBuiltWithin(t.children[i], made, over, p, both);
      }
    }
  }

  lemma {:induction false} NoneBelow<K, R(!new)>(t: Tree<K, R>, p: R -> bool, accept: R -> bool)
    requires Below(t, p) && forall row :: p(row) ==> !accept(row)
    ensures Where(t, accept) == []
    decreases t, 0
  {
    if t.Node? {
      NoneBelowAll(t.children, p, accept);
    }
  }

  lemma {:induction false} NoneBelowAll<K, R(!new)>(ts: seq<Tree<K, R>>, p: R -> bool, accept: R -> bool)
    requires forall i :: 0 <= i < |ts| ==> Below(ts[i], p)
    requires forall row :: p(row) ==> !accept(row)
    ensures WhereAll(ts, accept) == []
    decreases ts, 1
  {
    if ts != [] {
      NoneBelow(ts[0], p, accept);
      NoneBelowAll(ts[1..], p, accept);
    }
  }

  // No inner key over an accepted row is rejected, and the leaf test is exact.
  ghost predicate Sound<K(!new), R(!new)>(made: (K, R) -> bool, over: (K, R) -> bool,
                                          inner: K -> bool, leaf: (K, R) -> bool, accept: R -> bool) {
    && (forall key, row :: over(key, row) && accept(row) ==> inner(key))
    && (forall key, row :: made(key, row) && over(key, row) ==> (leaf(key, row) <==> accept(row)))
  }

  /** With sound tests a scan finds every row a sequential search finds, in order and no others. */
  lemma {:induction false} ScanIsWhere<K(!new), R(!new)>(t: Tree<K, R>, made: (K, R) -> bool, over: (K, R) -> bool,
                                                         inner: K -> bool, leaf: (K, R) -> bool, accept: R -> bool)
    requires WellBuilt(t, made, over) && Sound(made, over, inner, leaf, accept)
    ensures Scan(t, inner, leaf) == Where(t, accept)
    decreases t, 0
  {
    if t.Node? {
      if inner(t.key) {
        ScanAllIsWhere(t.children, made, over, inner, leaf, accept);
      } else {
        NoneBelow(t, row => over(t.key, row), accept);
      }
    }
  }

  lemma {:induction false} ScanAllIsWhere<K(!new), R(!new)>(ts: seq<Tree<K, R>>, made: (K, R) -> bool, over: (K, R) -> bool,
                                                            inner: K -> bool, leaf: (K, R) -> bool, accept: R -> bool)
    requires forall i :: 0 <= i < |ts| ==> WellBuilt(ts[i], made, over)
    requires Sound(made, over, inner, leaf, accept)
    ensures ScanAll(ts, inner, leaf) == WhereAll(ts, accept)
    decreases ts, 1
  {
    if ts != [] {
      ScanIsWhere(ts[0], made, over, inner, leaf, accept);
      ScanAllIsWhere(ts[1..], made, over, inner, leaf, accept);
    }
  }

  /** A key that is over whatever the children's keys are over makes a well built entry above them. */
  lemma NodeIsWellBuilt<K(!new), R(!new)>(key: K, children: seq<Tree<K, R>>, made: (K, R) -> bool, over: (K, R) -> bool)
    requires forall i :: 0 <= i < |children| ==> WellBuilt(children[i], made, over)
    requires forall i, row :: 0 <= i < |children| && over(children[i].key, row) ==> over(key, row)
    ensures WellBuilt(Node(key, children), made, over)
  {
    forall i | 0 <= i < |children| ensures Below(children[i], row => over(key, row)) {
      BelowWeakens(children[i], row => over(children[i].key, row), row => over(key, row));
    }
  }

  // The key above a page is over the rows of its leaf entries.
  lemma KeyAboveIsOver<K(!new), R(!new)>(t: Tree<K, R>, made: (K, R) -> bool, over: (K, R) -> bool, i: nat)
    requires t.Node? && i < |t.children| && t.children[i].Leaf? && WellBuilt(t, made, over)
    ensures over(t.key, t.children[i].row)
  {
    assert Below(t.children[i], row => over(t.key, row));
  }

  lemma WhereOneLeaf<K, R>(t: Tree<K, R>, accept: R -> bool)
    requires t.Node? && |t.children| == 1 && t.children[0].Leaf? && accept(t.children[0].row)
    ensures Where(t, accept) == [t.children[0].row]
  {
    assert t.children[1..] == [] && WhereAll(t.children[1..], accept) == [];
    assert Where(t.children[0], accept) == [t.children[0].row];
  }

  // ----- Splitting a page -----

  // order is what sorting the offsets 1 .. n - 1 by cost may give.
  ghost predicate IsOrder(order: seq<nat>, n: nat) {
    && |order| == n - 1
    && (forall k :: 0 <= k < |order| ==> 1 <= order[k] < n)
    && (forall i, j :: 0 <= i < j < |order| ==> order[i] != order[j])
    && (forall i :: 1 <= i < n ==> i in order)
  }

  /** Every offset 1 .. n - 1 is in exactly one of the lists, and neither list is empty. */
  ghost predicate Partition(left: seq<nat>, right: seq<nat>, n: nat) {
    && left != [] && right != [] && |left| + |right| == n - 1
    && Offsets(left, n) && Offsets(right, n) && 0 !in left && 0 !in right
    && (forall i :: 1 <= i < n ==> (i in left <==> i !in right))
  }

  predicate Offsets(list: seq<nat>, n: nat) {
    forall i :: 0 <= i < |list| ==> list[i] < n
  }

  // The entries at the offsets listed.
  function Chosen<T>(entries: seq<T>, list: seq<nat>): (page: seq<T>)
    requires Offsets(list, |entries|)
    ensures |page| == |list| && forall i :: 0 <= i < |list| ==> page[i] == entries[list[i]]
  {
    seq(|list|, i requires 0 <= i < |list| => entries[list[i]])
  }

  // The first k offsets of order have been put on their sides, the seeds where they belong.
  ghost predicate Assigned(left: seq<nat>, right: seq<nat>, order: seq<nat>, k: nat, seed1: nat, seed2: nat) {
    && k <= |order| && |left| + |right| == k
    && (forall i :: i in left || i in right ==> i in order[..k])
    && (forall j :: 0 <= j < k ==> (order[j] in left <==> order[j] !in right))
    && (forall j :: 0 <= j < k && order[j] == seed1 ==> order[j] in left)
    && (forall j :: 0 <= j < k && order[j] == seed2 ==> order[j] in right)
  }

  lemma AssignNext(left: seq<nat>, right: seq<nat>, order: seq<nat>, k: nat, seed1: nat, seed2: nat)
    requires Assigned(left, right, order, k, seed1, seed2) && k < |order|
    requires forall i, j :: 0 <= i < j < |order| ==> order[i] != order[j]
    ensures order[k] != seed2 ==> Assigned(left + [order[k]], right, order, k + 1, seed1, seed2)
    ensures order[k] != seed1 ==> Assigned(left, right + [order[k]], order, k + 1, seed1, seed2)
  {
    assert order[..k + 1] == order[..k] + [order[k]];
    assert order[k] !in order[..k];
  }

  lemma AssignedAll(left: seq<nat>, right: seq<nat>, order: seq<nat>, n: nat, seed1: nat, seed2: nat)
    requires IsOrder(order, n) && Assigned(left, right, order, |order|, seed1, seed2)
    requires 1 <= seed1 < n && 1 <= seed2 < n
    ensures Partition(left, right, n) && seed1 in left && seed2 in right
  {
    assert order[..|order|] == order;
    assert seed1 in order && seed2 in order;
    assert forall i :: 0 <= i < |left| ==> left[i] in left;
    assert forall i :: 0 <= i < |right| ==> right[i] in right;
    forall i | 1 <= i < n ensures i in left <==> i !in right {
      assert i in order;
    }
  }
}
