/** shorterquery: negations are removed from a stored query, each read as true, to learn whether the query
    can be answered from its values at all.  Every round moves items of the array and repairs the links of
    the operators behind them.  One of the repairs is wrong, and this module says exactly for which queries. */
module IntShorter {
  import opened Basics
  import opened IntQuery
  import opened IntLinks

  // ----- The rewriting of trees -----

  predicate HasNot(q: Query) {
    match q
    case Val(_) => false
    case Not(_) => true
    case Bin(_, l, r) => HasNot(l) || HasNot(r)
  }

  // q is itself the first negation of the polish notation.
  predicate IsFirstNot(q: Query) {
    q.Not? && !HasNot(q.q)
  }

  // The root of q is the operator above the first negation.
  predicate IsParent(q: Query) {
    match q
    case Val(_) => false
    case Not(p) => IsFirstNot(p)
    case Bin(_, l, r) => IsFirstNot(l) || (!HasNot(l) && IsFirstNot(r))
  }

  // The val field of an item; operators keep their character there.
  function CharOf(n: Node): (v: int) {
    match n
    case Operand(v) => v
    case Negation => '!' as int
    case Binary(op) => if op == AND then '&' as int else '|' as int
  }

  function RootVal(q: Query): (v: int) {
    match q
    case Val(v) => v
    case Not(_) => CharOf(Negation)
    case Bin(op, _, _) => CharOf(Binary(op))
  }

  // What the operator above a negation becomes: a negation of the item before it, now an operand.
  function Dropped(right: Query): (q: Query) {
    Not(Val(RootVal(right)))
  }

  // The operator above the first negation swallows it: only one operand of an & is left, or nothing.
  function Swallow(q: Query): (q': Query)
    requires IsParent(q)
    ensures Size(q') < Size(q)
  {
    match q
    case Not(p) => Dropped(p)
    case Bin(op, l, r) =>
      if op == OR || (IsFirstNot(l) && r.Not?) then Dropped(r) else if IsFirstNot(l) then r else l
  }

  // One round.
  function Rewrite(q: Query): (q': Query)
    requires HasNot(q) && !IsFirstNot(q)
    ensures Size(q') < Size(q)
  {
    if IsParent(q) then Swallow(q)
    else
      match q
      case Not(p) => Not(Rewrite(p))
      case Bin(op, l, r) => if HasNot(l) then Bin(op, Rewrite(l), r) else Bin(op, l, Rewrite(r))
  }

  // ----- What all rounds together make of a tree -----

  /** The query without negations, or a single negation when nothing is left. */
  function Reduce(q: Query): (q': Query)
    ensures HasNot(q') ==> IsFirstNot(q')
  {
    match q
    case Val(_) => q
    case Not(p) =>
      var p' := Reduce(p);
      if p'.Not? then Dropped(p') else Not(p')
    case Bin(op, l, r) =>
      var l' := Reduce(l);
      if l'.Not? then if op == AND && !r.Not? then Reduce(r) else Dropped(r)
      else
        var r' := Reduce(r);
        if !r'.Not? then Bin(op, l', r') else if op == AND then l' else Dropped(r')
  }

  // q is a negation that comes to stand over a negation, of a query whose size shifts a 16-bit link.
  predicate DoubleNot(q: Query) {
    q.Not? && Reduce(q.q).Not? && Size(Reduce(q.q).q) % 0x1_0000 != 0
  }

  /** The condition on a query: no left operand that is reduced comes to be a double negation. */
  predicate Upright(q: Query) {
    match q
    case Val(_) => true
    case Not(p) => Upright(p)
    case Bin(op, l, r) =>
      && Upright(l) && !DoubleNot(l)
      && ((Reduce(l).Not? && (op == OR || r.Not?)) || Upright(r))
  }

  // In the round that rewrites q a negation swallows one and is a left operand.
  predicate Tilts(q: Query) {
    && HasNot(q) && !IsFirstNot(q) && !IsParent(q)
    && match q
       case Val(_) => false
       case Not(p) => Tilts(p)
       case Bin(_, l, r) =>
         if !HasNot(l) then Tilts(r)
         else if IsParent(l) then l.Not? && Size(l.q.q) % 0x1_0000 != 0
         else Tilts(l)
  }

  lemma {:induction false} NotFreeIsReduced(q: Query)
    requires !HasNot(q) || IsFirstNot(q)
    ensures Reduce(q) == q && Upright(q)
  {
    match q
    case Val(_) =>
    case Not(p) => NotFreeIsReduced(p);
    case Bin(_, l, r) =>
      NotFreeIsReduced(l);
      NotFreeIsReduced(r);
  }

  lemma SwallowReduces(q: Query)
    requires IsParent(q)
    ensures Reduce(Swallow(q)) == Reduce(q) && Upright(q) == Upright(Swallow(q))
  {
    match q
    case Not(p) =>
      NotFreeIsReduced(p);
    case Bin(_, l, r) =>
      NotFreeIsReduced(l);
      if IsFirstNot(l) {
        NotFreeIsReduced(l.q);
      } else {
        NotFreeIsReduced(r);
      }
  }

  /** A round changes nothing about the result, and the condition fails in the round that tilts. */
  lemma {:induction false} RewriteReduces(q: Query)
    requires HasNot(q) && !IsFirstNot(q)
    ensures Reduce(Rewrite(q)) == Reduce(q)
    ensures Upright(q) <==> !Tilts(q) && Upright(Rewrite(q))
  {
    if IsParent(q) {
      SwallowReduces(q);
    } else if q.Not? {
      RewriteReduces(q.q);
    } else if HasNot(q.l) {
      RewriteReduces(q.l);
      DoubleNotNext(q.l);
    } else {
      NotFreeIsReduced(q.l);
      RewriteReduces(q.r);
    }
  }

  lemma {:induction false} DoubleNotNext(l: Query)
    requires HasNot(l) && !IsFirstNot(l)
    ensures if IsParent(l) && l.Not? then !DoubleNot(Rewrite(l)) && (DoubleNot(l) <==> Size(l.q.q) % 0x1_0000 != 0)
            else DoubleNot(Rewrite(l)) == DoubleNot(l)
  {
    if l.Not? {
      if IsParent(l) {
        NotFreeIsReduced(l.q);
      } else {
        RewriteReduces(l.q);
      }
    }
  }

  // ----- Values -----

  /** The reduced query means what q means with negations read as true, and has only values of q. */
  lemma {:induction false} ReduceKeepsLooseMeaning(q: Query, f: int -> bool)
    ensures Eval(Reduce(q), f, false) == Eval(q, f, false)
    ensures !HasNot(Reduce(q)) ==> Values(Reduce(q)) <= Values(q)
  {
    match q
    case Val(_) =>
    case Not(p) =>
    case Bin(_, l, r) =>
      ReduceKeepsLooseMeaning(l, f);
      ReduceKeepsLooseMeaning(r, f);
  }

  // Without negations a query is false of a set that has none of its values.
  lemma {:induction false} NotFreeNeedsValue(q: Query, s: set<int>)
    requires !HasNot(q) && s !! Values(q)
    ensures !Eval(q, In(s), false)
  {
    match q
    case Val(_) =>
    case Bin(_, l, r) =>
      NotFreeNeedsValue(l, s);
      NotFreeNeedsValue(r, s);
  }

  /** A negation is left exactly when the loose reading holds of every set. */
  lemma NothingLeftIff(q: Query)
    ensures Reduce(q).Not? <==> forall s: set<int> :: Eval(q, In(s), false)
  {
    forall s: set<int> ensures Eval(Reduce(q), In(s), false) == Eval(q, In(s), false) {
      ReduceKeepsLooseMeaning(q, In(s));
    }
    if !Reduce(q).Not? {
      NotFreeNeedsValue(Reduce(q), {});
      assert !Eval(q, In({}), false);
    }
  }

  // ----- The stored query between rounds -----

  // The nodes of q end at cur, and its binary operators know where their left operands end.  The link of a
  // negation does not matter here.
  predicate Linked(items: seq<Item>, cur: int, q: Query) {
    && 0 <= cur < |items|
    && match q
       case Val(v) => items[cur].node == Operand(v)
       case Not(p) => items[cur].node == Negation && Linked(items, cur - 1, p)
       case Bin(op, l, r) =>
         && items[cur] == Item(Binary(op), -1 - Size(r)) && Size(r) < 0x8000
         && Linked(items, cur - 1, r) && Linked(items, cur - 1 - Size(r), l)
  }

  lemma {:induction false} StoredIsLinked(items: seq<Item>, cur: int, q: Query)
    requires EndsAt(items, cur, q) && LinksFit(q)
    ensures Linked(items, cur, q)
    decreases q
  {
    match q
    case Val(_) =>
    case Not(p) => StoredIsLinked(items, cur - 1, p);
    case Bin(op, l, r) =>
      EndsAtBin(items, cur, op, l, r);
      StoredIsLinked(items, cur - 1, r);
      StoredIsLinked(items, cur - 1 - Size(r), l);
  }

  // The negations behind position n have their links.
  predicate NotsPlain(items: seq<Item>, n: int) {
    forall i :: 0 <= i < |items| && i > n && items[i].node.Negation? ==> items[i].left == -1
  }

  // Where the first negation of q stands when q ends at cur, and where the operator above it.
  function NotAt(q: Query, cur: int): (i: int)
    requires HasNot(q)
    ensures cur - Size(q) < i <= cur
    ensures i == cur <==> IsFirstNot(q)
  {
    match q
    case Not(p) => if HasNot(p) then NotAt(p, cur - 1) else cur
    case Bin(_, l, r) => if HasNot(l) then NotAt(l, cur - 1 - Size(r)) else NotAt(r, cur - 1)
  }

  function ParentAt(q: Query, cur: int): (i: int)
    requires HasNot(q) && !IsFirstNot(q)
    ensures cur - Size(q) < i <= cur && NotAt(q, cur) < i
    ensures i == cur <==> IsParent(q)
  {
    if IsParent(q) then cur
    else
      match q
      case Not(p) => ParentAt(p, cur - 1)
      case Bin(_, l, r) => if HasNot(l) then ParentAt(l, cur - 1 - Size(r)) else ParentAt(r, cur - 1)
  }

  // The subquery there.
  function Parent(q: Query): (p: Query)
    requires HasNot(q) && !IsFirstNot(q)
    ensures IsParent(p) && HasNot(p) && !IsFirstNot(p)
  {
    if IsParent(q) then q
    else
      match q
      case Not(p) => Parent(p)
      case Bin(_, l, r) => if HasNot(l) then Parent(l) else Parent(r)
  }

  // The first negation is the first item that is one.
  lemma {:induction false} FirstNotStands(items: seq<Item>, cur: int, q: Query, i: int)
    requires NodesEndAt(items, cur, q) && cur - Size(q) < i <= cur
    ensures 0 <= i < |items|
    ensures !HasNot(q) ==> !items[i].node.Negation?
    ensures HasNot(q) && i < NotAt(q, cur) ==> !items[i].node.Negation?
    ensures HasNot(q) && i == NotAt(q, cur) ==> items[i].node.Negation?
    decreases q
  {
    match q
    case Val(_) =>
    case Not(p) =>
      if i < cur {
        FirstNotStands(items, cur - 1, p, i);
      }
    case Bin(_, l, r) =>
      if i < cur - Size(r) {
        FirstNotStands(items, cur - 1 - Size(r), l, i);
      } else if i < cur {
        FirstNotStands(items, cur - 1, r, i);
      }
  }

  lemma {:induction false} LinkedHasNodes(items: seq<Item>, cur: int, q: Query)
    requires Linked(items, cur, q)
    ensures NodesEndAt(items, cur, q) && cur + 1 - Size(q) >= 0
    decreases q
  {
    match q
    case Val(_) =>
    case Not(p) => LinkedHasNodes(items, cur - 1, p);
    case Bin(_, l, r) =>
      LinkedHasNodes(items, cur - 1, r);
      LinkedHasNodes(items, cur - 1 - Size(r), l);
  }

  // Links inside a subquery stay inside it, and its first item is an operand.
  lemma {:induction false} LinksStayInside(items: seq<Item>, cur: int, q: Query, i: int)
    requires Linked(items, cur, q) && cur - Size(q) < i <= cur
    ensures 0 <= i < |items|
    ensures items[i].node.Binary? ==> cur - Size(q) < i + items[i].left < i
    ensures i == cur + 1 - Size(q) ==> items[i].node.Operand?
    decreases q
  {
    match q
    case Val(_) =>
    case Not(p) =>
      if i < cur {
        LinksStayInside(items, cur - 1, p, i);
      }
    case Bin(_, l, r) =>
      if i < cur - Size(r) {
        LinksStayInside(items, cur - 1 - Size(r), l, i);
      } else if i < cur {
        LinksStayInside(items, cur - 1, r, i);
      }
  }

  // The search for the operator above the negation at n takes item i for it.
  predicate Hits(items: seq<Item>, n: int, i: int)
    requires 0 <= i < |items|
  {
    !items[i].node.Operand? && (i == n + 1 || i + items[i].left == n)
  }

  // No item of the right operand is taken for the operator above the last item of the left one.
  lemma RightIsPassed(items: seq<Item>, cur: int, r: Query, i: int)
    requires Linked(items, cur, r) && cur - Size(r) < i <= cur && NotsPlain(items, cur - Size(r) + 1)
    ensures 0 <= i < |items| && !Hits(items, cur - Size(r), i)
  {
    LinksStayInside(items, cur, r, i);
  }

  // An operator directly above the first negation is found, and nothing before it.
  lemma OwnOperator(items: seq<Item>, cur: int, q: Query, i: int)
    requires Linked(items, cur, q) && IsParent(q) && q.Bin? && NotsPlain(items, NotAt(q, cur) + 1) && NotAt(q, cur) < i <= cur
    ensures 0 <= i < |items| && (Hits(items, NotAt(q, cur), i) <==> i == cur)
  {
    if IsFirstNot(q.l) && i < cur {
      RightIsPassed(items, cur - 1, q.r, i);
    }
  }

  lemma {:induction false} ParentIsFound(items: seq<Item>, cur: int, q: Query, i: int)
    requires Linked(items, cur, q) && HasNot(q) && !IsFirstNot(q) && NotsPlain(items, NotAt(q, cur) + 1)
    requires NotAt(q, cur) < i <= ParentAt(q, cur)
    ensures 0 <= i < |items| && (Hits(items, NotAt(q, cur), i) <==> i == ParentAt(q, cur))
    decreases q
  {
    match q
    case Not(p) =>
      if !IsParent(q) {
        ParentIsFound(items, cur - 1, p, i);
      }
    case Bin(_, l, r) =>
      if IsParent(q) {
        OwnOperator(items, cur, q, i);
      } else if HasNot(l) {
        ParentIsFound(items, cur - 1 - Size(r), l, i);
      } else {
        ParentIsFound(items, cur - 1, r, i);
      }
  }

  // ----- A stored query with one wrong link -----

  /** As Linked, but the operator whose left operand is the first negation does not know where it ends. */
  predicate Skewed(items: seq<Item>, cur: int, q: Query) {
    && 0 <= cur < |items| && HasNot(q)
    && match q
       case Not(p) => items[cur].node == Negation && Skewed(items, cur - 1, p)
       case Bin(op, l, r) =>
         && items[cur].node == Binary(op)
         && if IsFirstNot(l) then
              && items[cur].left != -1 - Size(r)
              && Linked(items, cur - 1, r) && Linked(items, cur - 1 - Size(r), l)
            else
              && items[cur].left == -1 - Size(r) && Size(r) < 0x8000
              && if HasNot(l) then Linked(items, cur - 1, r) && Skewed(items, cur - 1 - Size(r), l)
                 else Skewed(items, cur - 1, r) && Linked(items, cur - 1 - Size(r), l)
  }

  lemma {:induction false} SkewedHasNodes(items: seq<Item>, cur: int, q: Query)
    requires Skewed(items, cur, q)
    ensures NodesEndAt(items, cur, q) && cur + 1 - Size(q) >= 0 && !IsFirstNot(q) && HasNot(q)
    decreases q
  {
    match q
    case Not(p) => SkewedHasNodes(items, cur - 1, p);
    case Bin(_, l, r) =>
      if IsFirstNot(l) {
        LinkedHasNodes(items, cur - 1, r);
        LinkedHasNodes(items, cur - 1 - Size(r), l);
      } else if HasNot(l) {
        LinkedHasNodes(items, cur - 1, r);
        SkewedHasNodes(items, cur - 1 - Size(r), l);
      } else {
        SkewedHasNodes(items, cur - 1, r);
        LinkedHasNodes(items, cur - 1 - Size(r), l);
      }
  }

  /** Then no item is taken for the operator above the first negation. */
  lemma {:induction false} SkewedMisses(items: seq<Item>, cur: int, q: Query, i: int)
    requires Skewed(items, cur, q) && NotsPlain(items, NotAt(q, cur) + 1) && NotAt(q, cur) < i <= cur
    ensures 0 <= i < |items| && !Hits(items, NotAt(q, cur), i)
    decreases q, 1
  {
    match q
    case Not(p) =>
      SkewedHasNodes(items, cur - 1, p);
      if i < cur {
        SkewedMisses(items, cur - 1, p, i);
      }
    case Bin(_, l, r) =>
      if IsFirstNot(l) {
        if i < cur {
          RightIsPassed(items, cur - 1, r, i);
        }
      } else if HasNot(l) {
        SkewedMissesLeft(items, cur, q, i);
      } else {
        SkewedHasNodes(items, cur - 1, r);
        if i < cur {
          SkewedMisses(items, cur - 1, r, i);
        }
      }
  }

  lemma {:induction false} SkewedMissesLeft(items: seq<Item>, cur: int, q: Query, i: int)
    requires Skewed(items, cur, q) && q.Bin? && HasNot(q.l) && !IsFirstNot(q.l)
    requires NotsPlain(items, NotAt(q, cur) + 1) && NotAt(q, cur) < i <= cur
    ensures 0 <= i < |items| && !Hits(items, NotAt(q, cur), i)
    decreases q, 0
  {
    var e := cur - 1 - Size(q.r);
    if i <= e {
      SkewedMisses(items, e, q.l, i);
    } else if i < cur {
      LinksStayInside(items, cur - 1, q.r, i);
    }
  }

  // ----- One round on the stored query -----

  // The link of item i behind the operator at k, of whose query d items go.  The branch for ! also moves
  // the links that lead to k itself.
  function Repaired(item: Item, i: int, k: int, d: nat, also: bool): (r: Item)
    ensures r.node == item.node
  {
    if !item.node.Operand? && (i + item.left < k || (also && i + item.left == k)) then item.(left := Int2(item.left + d))
    else item
  }

  // The new items: the first s as they were, some in the place of the operator's query, and the rest.
  ghost predicate Spliced(items: seq<Item>, new': seq<Item>, s: int, k: int, d: nat, also: bool) {
    && 0 <= s <= k < |items| && |new'| == |items| - d && s <= k - d
    && (forall i :: 0 <= i < s ==> new'[i] == items[i])
    && (forall i :: k < i < |items| ==> MovedAt(items, new', i, k, d, also))
  }

  ghost predicate MovedAt(items: seq<Item>, new': seq<Item>, i: int, k: int, d: nat, also: bool) {
    0 <= i < |items| && 0 <= i - d < |new'| && new'[i - d] == Repaired(items[i], i, k, d, also)
  }

  lemma {:induction false} LinkedBefore(items: seq<Item>, new': seq<Item>, cur: int, q: Query)
    requires Linked(items, cur, q) && cur < |new'| && forall i :: 0 <= i <= cur ==> new'[i] == items[i]
    ensures Linked(new', cur, q)
    decreases q
  {
    match q
    case Val(_) =>
    case Not(p) => LinkedBefore(items, new', cur - 1, p);
    case Bin(_, l, r) =>
      LinkedBefore(items, new', cur - 1, r);
      LinkedBefore(items, new', cur - 1 - Size(r), l);
  }

  // A subquery behind k moves as a whole.
  lemma {:induction false} LinkedBehind(items: seq<Item>, new': seq<Item>, cur: int, q: Query, k: int, d: nat, also: bool)
    requires Linked(items, cur, q) && k <= cur - Size(q) && 0 <= k - d
    requires forall i :: k < i < |items| ==> MovedAt(items, new', i, k, d, also)
    ensures Linked(new', cur - d, q)
    decreases q
  {
    assert MovedAt(items, new', cur, k, d, also);
    match q
    case Val(_) =>
    case Not(p) => LinkedBehind(items, new', cur - 1, p, k, d, also);
    case Bin(_, l, r) =>
      LinkedBehind(items, new', cur - 1, r, k, d, also);
      LinkedBehind(items, new', cur - 1 - Size(r), l, k, d, also);
  }

  lemma {:induction false} LinkTurns(x: int, d: nat)
    requires IsInt2(x)
    ensures Int2(x + d) == x <==> d % 0x1_0000 == 0
    decreases d
  {
    if d >= 0x1_0000 {
      LinkTurns(x, d - 0x1_0000);
    }
  }

  // How much shorter a round makes a query.
  function Shrink(q: Query): (d: nat)
    requires HasNot(q) && !IsFirstNot(q)
    ensures d > 0
  {
    Size(q) - Size(Rewrite(q))
  }

  lemma {:induction false} ParentInside(q: Query, cur: int)
    requires HasNot(q) && !IsFirstNot(q)
    ensures cur - Size(q) <= ParentAt(q, cur) - Size(Parent(q))
    ensures Shrink(q) == Shrink(Parent(q))
    decreases q
  {
    if IsParent(q) {
    } else if q.Not? {
      ParentInside(q.q, cur - 1);
    } else if HasNot(q.l) {
      ParentInside(q.l, cur - 1 - Size(q.r));
    } else {
      ParentInside(q.r, cur - 1);
    }
  }

  // The query p of the operator at k is replaced by p'.
  ghost predicate Replaced(items: seq<Item>, new': seq<Item>, k: int, p: Query, p': Query) {
    && Size(p') < Size(p)
    && Spliced(items, new', k + 1 - Size(p), k, Size(p) - Size(p'), p.Not?)
    && Linked(new', k - (Size(p) - Size(p')), p')
  }

  // A round replaces the query of the operator above the first negation by what it becomes.
  ghost predicate Round(items: seq<Item>, new': seq<Item>, cur: int, q: Query)
    requires HasNot(q) && !IsFirstNot(q)
  {
    Replaced(items, new', ParentAt(q, cur), Parent(q), Swallow(Parent(q)))
  }

  // The operator directly above the query that is replaced.
  lemma LinkAbove(items: seq<Item>, new': seq<Item>, cur: int, op: BinOp, l: Query, r: Query, d: nat)
    requires Linked(items, cur, Bin(op, l, r)) && IsParent(l) && d == Shrink(l)
    requires MovedAt(items, new', cur, cur - 1 - Size(r), d, l.Not?)
    ensures new'[cur - d].node == Binary(op)
    ensures new'[cur - d].left == -1 - Size(r) <==> !(l.Not? && Size(l.q.q) % 0x1_0000 != 0)
  {
    LinkTurns(-1 - Size(r), d);
    if l.Not? {
      assert Rewrite(l) == Dropped(l.q) && Size(l) == Size(l.q.q) + 2;
      assert Size(Dropped(l.q)) == 2;
    }
  }

  // What a round leaves of q, which ended at cur.
  ghost predicate Left(new': seq<Item>, cur: int, q: Query)
    requires HasNot(q) && !IsFirstNot(q)
  {
    var at := cur - (Shrink(q));
    if Tilts(q) then Skewed(new', at, Rewrite(q)) else Linked(new', at, Rewrite(q))
  }

  // A round in the left operand: its last item is at e.
  lemma LeftOfLeft(items: seq<Item>, new': seq<Item>, cur: int, q: Query, k: int, d: nat, also: bool)
    requires Linked(items, cur, q) && q.Bin? && HasNot(q.l) && !IsFirstNot(q.l) && d == Shrink(q.l)
    requires k == ParentAt(q.l, cur - 1 - Size(q.r)) && MovedAt(items, new', cur, k, d, also)
    requires IsParent(q.l) ==> also == q.l.Not?
    requires Left(new', cur - 1 - Size(q.r), q.l) && Linked(new', cur - 1 - d, q.r)
    ensures Left(new', cur, q)
  {
    var l, r := q.l, q.r;
    var at, e := cur - d, cur - 1 - d - Size(r);
    assert Rewrite(q) == Bin(q.op, Rewrite(l), r);
    if IsParent(l) {
      LinkAbove(items, new', cur, q.op, l, r, d);
    } else if Tilts(l) {
      SkewedHasNodes(new', e, Rewrite(l));
    }
  }

  // A round in the right operand.
  lemma LeftOfRight(items: seq<Item>, new': seq<Item>, cur: int, q: Query, k: int, d: nat, also: bool)
    requires Linked(items, cur, q) && q.Bin? && !HasNot(q.l) && HasNot(q.r) && !IsFirstNot(q.r)
    requires d == Shrink(q.r) && cur - 1 - Size(q.r) < k && MovedAt(items, new', cur, k, d, also)
    requires Left(new', cur - 1, q.r) && Linked(new', cur - 1 - Size(q.r), q.l)
    ensures Left(new', cur, q)
  {
    assert Rewrite(q) == Bin(q.op, q.l, Rewrite(q.r));
    assert new'[cur - d] == Item(Binary(q.op), -1 - Size(Rewrite(q.r)));
    if Tilts(q.r) {
      SkewedHasNodes(new', cur - 1 - d, Rewrite(q.r));
    }
  }

  /** After a round the stored form is that of the rewritten query, with every link right unless the round
      tilts, and then with one wrong link. */
  lemma {:induction false} RoundLinks(items: seq<Item>, new': seq<Item>, cur: int, q: Query)
    requires Linked(items, cur, q) && HasNot(q) && !IsFirstNot(q) && Round(items, new', cur, q)
    ensures Left(new', cur, q)
    decreases q, 1
  {
    if IsParent(q) {
    } else if q.Not? {
      RoundLinksNot(items, new', cur, q);
    } else if HasNot(q.l) {
      RoundLinksLeft(items, new', cur, q);
    } else {
      RoundLinksRight(items, new', cur, q);
    }
  }

  // What a round is for q and for the operand it happens in.
  lemma RoundDown(items: seq<Item>, new': seq<Item>, cur: int, q: Query, p: Query, at: int)
    requires HasNot(q) && !IsFirstNot(q) && HasNot(p) && !IsFirstNot(p)
    requires Parent(q) == Parent(p) && ParentAt(q, cur) == ParentAt(p, at) < cur < |items| && Round(items, new', cur, q)
    ensures Round(items, new', at, p)
    ensures var k, u := ParentAt(p, at), Parent(p);
            && MovedAt(items, new', cur, k, Shrink(p), u.Not?) && Shrink(p) <= k
            && (forall i :: k < i < |items| ==> MovedAt(items, new', i, k, Shrink(p), u.Not?))
            && at - Size(p) <= k - Size(u) && at - Size(p) < |new'|
            && forall i :: 0 <= i <= at - Size(p) ==> new'[i] == items[i]
  {
    ParentInside(p, at);
  }

  lemma {:induction false} RoundLinksNot(items: seq<Item>, new': seq<Item>, cur: int, q: Query)
    requires Linked(items, cur, q) && q.Not? && HasNot(q.q) && !IsFirstNot(q.q) && Round(items, new', cur, q)
    ensures Left(new', cur, q)
    decreases q, 0
  {
    RoundDown(items, new', cur, q, q.q, cur - 1);
    RoundLinks(items, new', cur - 1, q.q);
  }

  lemma {:induction false} RoundLinksLeft(items: seq<Item>, new': seq<Item>, cur: int, q: Query)
    requires Linked(items, cur, q) && q.Bin? && HasNot(q.l) && !IsFirstNot(q.l) && Round(items, new', cur, q)
    ensures Left(new', cur, q)
    decreases q, 0
  {
    var l, e := q.l, cur - 1 - Size(q.r);
    RoundDown(items, new', cur, q, l, e);
    RoundLinks(items, new', e, l);
    LinkedBehind(items, new', cur - 1, q.r, ParentAt(l, e), Shrink(l), Parent(l).Not?);
    LeftOfLeft(items, new', cur, q, ParentAt(l, e), Shrink(l), Parent(l).Not?);
  }

  lemma {:induction false} RoundLinksRight(items: seq<Item>, new': seq<Item>, cur: int, q: Query)
    requires Linked(items, cur, q) && q.Bin? && !HasNot(q.l) && HasNot(q.r) && !IsFirstNot(q.r) && Round(items, new', cur, q)
    ensures Left(new', cur, q)
    decreases q, 0
  {
    var r := q.r;
    RoundDown(items, new', cur, q, r, cur - 1);
    RoundLinks(items, new', cur - 1, r);
    LinkedBefore(items, new', cur - 1 - Size(r), q.l);
    LeftOfRight(items, new', cur, q, ParentAt(r, cur - 1), Shrink(r), Parent(r).Not?);
  }

  // ----- shorterquery -----

  lemma {:induction false} ParentLinked(items: seq<Item>, cur: int, q: Query)
    requires Linked(items, cur, q) && HasNot(q) && !IsFirstNot(q)
    ensures Linked(items, ParentAt(q, cur), Parent(q)) && NotAt(q, cur) == NotAt(Parent(q), ParentAt(q, cur))
    decreases q
  {
    if IsParent(q) {
    } else if q.Not? {
      ParentLinked(items, cur - 1, q.q);
    } else if HasNot(q.l) {
      ParentLinked(items, cur - 1 - Size(q.r), q.l);
    } else {
      ParentLinked(items, cur - 1, q.r);
    }
  }

  /** countdroptree: the size of the query that ends at pos. */
  function CountDropTree(items: seq<Item>, pos: int, ghost q: Query): (n: nat)
    requires Linked(items, pos, q)
    ensures n == Size(q)
    decreases q
  {
    match items[pos].node
    case Operand(_) => 1
    case Negation => 1 + CountDropTree(items, pos - 1, q.q)
    case Binary(_) =>
      1 + CountDropTree(items, pos - 1, q.r) + CountDropTree(items, pos + items[pos].left, q.l)
  }

  // The first negation, or the end.
  method FindNot(items: seq<Item>) returns (posnot: nat)
    ensures posnot <= |items| && (posnot < |items| ==> items[posnot].node.Negation?)
    ensures forall i :: 0 <= i < posnot ==> !items[i].node.Negation?
  {
    posnot := 0;
    while posnot < |items| && !items[posnot].node.Negation?
      invariant 0 <= posnot <= |items| && forall i :: 0 <= i < posnot ==> !items[i].node.Negation?
    {
      posnot := posnot + 1;
    }
  }

  // The first item behind posnot that is taken for the operator above it, or the end.
  method FindOperator(items: seq<Item>, posnot: nat) returns (poscor: nat)
    requires posnot < |items|
    ensures posnot < poscor <= |items| && (poscor < |items| ==> Hits(items, posnot, poscor))
    ensures forall i :: posnot < i < poscor ==> !Hits(items, posnot, i)
  {
    poscor := posnot + 1;
    while poscor < |items|
      invariant posnot < poscor <= |items| && forall i :: posnot < i < poscor ==> !Hits(items, posnot, i)
    {
      if !items[poscor].node.Operand? && (poscor == posnot + 1 || items[poscor].left + poscor == posnot) {
        return;
      }
      poscor := poscor + 1;
    }
  }

  // The items behind poscor with their links repaired.
  method RepairLinks(items: seq<Item>, poscor: nat, d: nat, also: bool) returns (tail: seq<Item>)
    requires poscor < |items|
    ensures |tail| == |items| - poscor - 1
    ensures forall j :: 0 <= j < |tail| ==> tail[j] == Repaired(items[poscor + 1 + j], poscor + 1 + j, poscor, d, also)
  {
    tail := [];
    var i := poscor + 1;
    while i < |items|
      invariant poscor < i <= |items| && |tail| == i - poscor - 1
      invariant forall j :: 0 <= j < |tail| ==> tail[j] == Repaired(items[poscor + 1 + j], poscor + 1 + j, poscor, d, also)
    {
      var left := items[i].left;
      if !items[i].node.Operand? && (left + i < poscor || (also && left + i == poscor)) {
        left := Int2(left + d);
      }
      tail := tail + [items[i].(left := left)];
      i := i + 1;
    }
  }

  lemma SplicedBy(items: seq<Item>, mid: seq<Item>, tail: seq<Item>, s: nat, k: nat, d: nat, also: bool)
    requires s <= k < |items| && |mid| == k + 1 - s - d && |mid| > 0 && |tail| == |items| - k - 1
    requires forall j :: 0 <= j < |tail| ==> tail[j] == Repaired(items[k + 1 + j], k + 1 + j, k, d, also)
    ensures Spliced(items, items[..s] + mid + tail, s, k, d, also)
  {
    var new' := items[..s] + mid + tail;
    forall i | k < i < |items| ensures MovedAt(items, new', i, k, d, also) {
      assert new'[i - d] == tail[i - k - 1];
    }
  }

  // An item whose type becomes VAL.
  function AsValue(item: Item): Item {
    item.(node := Operand(CharOf(item.node)))
  }

  // Between rounds: the links of q are right, and so are those of the negations behind the first two.
  ghost predicate Ready(items: seq<Item>, q: Query) {
    && |items| == Size(q) && Linked(items, |items| - 1, q)
    && (HasNot(q) ==> NotsPlain(items, NotAt(q, |items| - 1) + 1))
  }

  ghost predicate Astray(items: seq<Item>, q: Query) {
    && |items| == Size(q) && Skewed(items, |items| - 1, q)
    && NotsPlain(items, NotAt(q, |items| - 1) + 1)
  }

  // The negation left of a dropped query is the first of the new items.
  lemma DroppedIsFirst(items: seq<Item>, new': seq<Item>, q: Query, s: nat, k: nat, d: nat, also: bool)
    requires NodesEndAt(new', |new'| - 1, q) && |new'| == Size(q) && HasNot(q)
    requires Spliced(items, new', s, k, d, also) && k - d == s + 1
    requires (forall i :: 0 <= i < s ==> !items[i].node.Negation?) && NotsPlain(items, k)
    requires new'[s].node.Operand? && new'[s + 1].node.Negation?
    ensures NotAt(q, |new'| - 1) == s + 1 && NotsPlain(new', s + 2)
  {
    var n := NotAt(q, |new'| - 1);
    FirstNotStands(new', |new'| - 1, q, n);
    FirstNotStands(new', |new'| - 1, q, s + 1);
    forall j | 0 <= j < |new'| && j > s + 2 && new'[j].node.Negation? ensures new'[j].left == -1 {
      assert MovedAt(items, new', j + d, k, d, also);
    }
  }

  // When an operand is kept, all negations have their links.
  lemma KeptIsPlain(items: seq<Item>, new': seq<Item>, s: nat, k: nat, d: nat)
    requires Spliced(items, new', s, k, d, false) && NotsPlain(items, k)
    requires forall i :: 0 <= i < s ==> !items[i].node.Negation?
    requires forall i :: s <= i <= k - d ==> new'[i].node.Negation? ==> new'[i].left == -1
    ensures NotsPlain(new', -1)
  {
    forall j | 0 <= j < |new'| && new'[j].node.Negation? ensures new'[j].left == -1 {
      if j > k - d {
        assert MovedAt(items, new', j + d, k, d, false);
      }
    }
  }

  // A round is due: its negation and its operator have been found.
  ghost predicate Due(items: seq<Item>, q: Query, posnot: int, poscor: int) {
    && Ready(items, q) && HasNot(q) && !IsFirstNot(q)
    && posnot == NotAt(q, |items| - 1) && poscor == ParentAt(q, |items| - 1)
  }

  // What a round leaves.
  ghost predicate Done(new': seq<Item>, q: Query)
    requires HasNot(q) && !IsFirstNot(q)
  {
    if Tilts(q) then Astray(new', Rewrite(q)) else Ready(new', Rewrite(q))
  }

  // The items before a round: no negation before posnot, and all behind poscor have their links.
  lemma DueMeans(items: seq<Item>, q: Query, posnot: int, poscor: int)
    requires Due(items, q, posnot, poscor)
    ensures var p := Parent(q);
            && Linked(items, poscor, p) && posnot == NotAt(p, poscor) && 0 <= poscor + 1 - Size(p) && poscor < |items|
            && (forall i :: 0 <= i < posnot ==> !items[i].node.Negation?) && NotsPlain(items, poscor)
            && Shrink(q) == Shrink(p)
  {
    ParentLinked(items, |items| - 1, q);
    LinkedHasNodes(items, poscor, Parent(q));
    LinkedHasNodes(items, |items| - 1, q);
    ParentInside(q, |items| - 1);
    forall i | 0 <= i < posnot ensures !items[i].node.Negation? {
      FirstNotStands(items, |items| - 1, q, i);
    }
  }

  // What is left has the nodes of the rewritten query.
  lemma LeftHasNodes(new': seq<Item>, cur: int, q: Query)
    requires HasNot(q) && !IsFirstNot(q) && Left(new', cur, q)
    ensures NodesEndAt(new', cur - Shrink(q), Rewrite(q))
  {
    if Tilts(q) {
      SkewedHasNodes(new', cur - Shrink(q), Rewrite(q));
    } else {
      LinkedHasNodes(new', cur - Shrink(q), Rewrite(q));
    }
  }

  lemma RoundSize(items: seq<Item>, new': seq<Item>, q: Query)
    requires |items| == Size(q) && HasNot(q) && !IsFirstNot(q) && Round(items, new', |items| - 1, q)
    ensures |new'| == |items| - Shrink(q) == Size(Rewrite(q))
  {
    ParentInside(q, |items| - 1);
    assert Rewrite(Parent(q)) == Swallow(Parent(q));
  }

  // What a round has left, before the links of the negations are looked at.
  lemma RoundLeaves(items: seq<Item>, new': seq<Item>, q: Query, posnot: int, poscor: int)
    requires Due(items, q, posnot, poscor) && Round(items, new', |items| - 1, q)
    ensures |new'| == |items| - Shrink(q) == Size(Rewrite(q)) && Left(new', |items| - 1, q)
  {
    RoundSize(items, new', q);
    RoundLinks(items, new', |items| - 1, q);
  }

  // A query t stored with its links right, or with one wrong.
  lemma ReadyOrAstray(new': seq<Item>, t: Query, tilted: bool)
    requires |new'| == Size(t) && if tilted then Skewed(new', |new'| - 1, t) else Linked(new', |new'| - 1, t)
    requires HasNot(t) ==> NotsPlain(new', NotAt(t, |new'| - 1) + 1)
    ensures if tilted then Astray(new', t) else Ready(new', t)
  {
    if tilted {
      SkewedHasNodes(new', |new'| - 1, t);
    }
  }

  // A round is done once the negations have their links.
  lemma RoundIsDone(items: seq<Item>, new': seq<Item>, q: Query, posnot: int, poscor: int)
    requires Due(items, q, posnot, poscor) && Round(items, new', |items| - 1, q)
    requires HasNot(Rewrite(q)) ==> NotsPlain(new', NotAt(Rewrite(q), |new'| - 1) + 1)
    ensures Done(new', q)
  {
    RoundLeaves(items, new', q, posnot, poscor);
    ReadyOrAstray(new', Rewrite(q), Tilts(q));
  }

  // The branches that drop the whole query of the operator.
  method DropTree(items: seq<Item>, ghost q: Query, ghost posnot: int, poscor: nat, left: int) returns (new': seq<Item>)
    requires Due(items, q, posnot, poscor) && Swallow(Parent(q)) == Dropped(if Parent(q).Not? then Parent(q).q else Parent(q).r)
    ensures Done(new', q)
  {
    DueMeans(items, q, posnot, poscor);
    var drop := CountDropTree(items, poscor, Parent(q));
    var also := items[poscor].node.Negation?;
    new' := Replace(items, poscor, drop, left, also);
    DroppedIsDone(items, new', q, posnot, poscor, drop, also);
  }

  // The last two items of the dropped query become a negated value.
  method Replace(items: seq<Item>, poscor: nat, drop: nat, left: int, also: bool) returns (new': seq<Item>)
    requires poscor < |items| && 3 <= drop <= poscor + 1
    ensures Negated(items, new', poscor, drop, also)
  {
    var s := poscor + 1 - drop;
    var mid := [AsValue(items[poscor - 1]), Item(Negation, left)];
    var tail := RepairLinks(items, poscor, drop - 2, also);
    new' := items[..s] + mid + tail;
    SplicedBy(items, mid, tail, s, poscor, drop - 2, also);
    assert new'[s] == mid[0] && new'[s + 1] == mid[1];
  }

  // The query of the operator at k has become a negated value.
  ghost predicate Negated(items: seq<Item>, new': seq<Item>, k: nat, drop: nat, also: bool) {
    && 3 <= drop <= k + 1 && k < |items| && Spliced(items, new', k + 1 - drop, k, drop - 2, also)
    && new'[k + 1 - drop] == AsValue(items[k - 1]) && new'[k + 2 - drop].node == Negation
  }

  lemma DroppedIsReplaced(items: seq<Item>, new': seq<Item>, k: nat, p: Query)
    requires Linked(items, k, p) && IsParent(p) && Swallow(p) == Dropped(if p.Not? then p.q else p.r)
    requires Negated(items, new', k, Size(p), p.Not?)
    ensures Replaced(items, new', k, p, Swallow(p)) && Swallow(p).Not?
  {
    DroppedLinked(items, new', p, k, k + 1 - Size(p));
    assert Rewrite(p) == Swallow(p);
  }

  lemma PlainAround(items: seq<Item>, q: Query, posnot: int, poscor: nat, drop: nat)
    requires Due(items, q, posnot, poscor) && drop == Size(Parent(q))
    ensures poscor < |items| && NotsPlain(items, poscor)
    ensures forall i :: 0 <= i < poscor + 1 - drop ==> !items[i].node.Negation?
  {
    DueMeans(items, q, posnot, poscor);
  }

  lemma RoundNodes(items: seq<Item>, new': seq<Item>, q: Query, posnot: int, poscor: int)
    requires Due(items, q, posnot, poscor) && Round(items, new', |items| - 1, q)
    ensures |new'| == Size(Rewrite(q)) && NodesEndAt(new', |new'| - 1, Rewrite(q))
  {
    RoundLeaves(items, new', q, posnot, poscor);
    LeftHasNodes(new', |items| - 1, q);
  }

  lemma DroppedNotsPlain(items: seq<Item>, new': seq<Item>, q: Query, posnot: int, poscor: nat, drop: nat, also: bool)
    requires Due(items, q, posnot, poscor) && Round(items, new', |items| - 1, q) && HasNot(Rewrite(q))
    requires Negated(items, new', poscor, drop, also) && drop == Size(Parent(q))
    ensures NotsPlain(new', NotAt(Rewrite(q), |new'| - 1) + 1)
  {
    PlainAround(items, q, posnot, poscor, drop);
    RoundNodes(items, new', q, posnot, poscor);
    DroppedIsFirst(items, new', Rewrite(q), poscor + 1 - drop, poscor, drop - 2, also);
  }

  lemma DroppedIsDone(items: seq<Item>, new': seq<Item>, q: Query, posnot: int, poscor: nat, drop: nat, also: bool)
    requires Due(items, q, posnot, poscor) && Linked(items, poscor, Parent(q))
    requires Swallow(Parent(q)) == Dropped(if Parent(q).Not? then Parent(q).q else Parent(q).r)
    requires drop == Size(Parent(q)) && also == Parent(q).Not? && Negated(items, new', poscor, drop, also)
    ensures Done(new', q)
  {
    DroppedIsReplaced(items, new', poscor, Parent(q));
    DroppedHasNot(q);
    DroppedNotsPlain(items, new', q, posnot, poscor, drop, also);
    RoundIsDone(items, new', q, posnot, poscor);
  }

  lemma DroppedLinked(items: seq<Item>, new': seq<Item>, p: Query, k: nat, s: nat)
    requires Linked(items, k, p) && IsParent(p) && s + 1 < |new'| && k > 0
    requires Swallow(p) == Dropped(if p.Not? then p.q else p.r)
    requires new'[s] == AsValue(items[k - 1]) && new'[s + 1].node == Negation
    ensures Linked(new', s + 1, Swallow(p)) && Shrink(p) == Size(p) - 2 && Size(p) >= 3
    ensures new'[s].node.Operand?
  {
    var right := if p.Not? then p.q else p.r;
    assert new'[s].node == Operand(RootVal(right));
    assert Rewrite(p) == Swallow(p) == Not(Val(RootVal(right)));
    assert Size(Not(Val(RootVal(right)))) == 2;
  }

  lemma {:induction false} DroppedHasNot(q: Query)
    requires HasNot(q) && !IsFirstNot(q) && Swallow(Parent(q)).Not?
    ensures HasNot(Rewrite(q))
  {
    if IsParent(q) || q.Not? {
    } else if HasNot(q.l) {
      DroppedHasNot(q.l);
    } else {
      DroppedHasNot(q.r);
    }
  }

  // The items of the operand that is kept stand at their new place.
  ghost predicate SameAt(items: seq<Item>, new': seq<Item>, i: int, d: int) {
    0 <= i < |items| && 0 <= i - d < |new'| && new'[i - d] == items[i]
  }

  ghost predicate AllSame(items: seq<Item>, new': seq<Item>, lo: int, hi: int, d: int) {
    forall i :: lo < i <= hi ==> SameAt(items, new', i, d)
  }

  lemma {:induction false} LinkedMoved(items: seq<Item>, new': seq<Item>, cur: int, q: Query, d: int)
    requires Linked(items, cur, q) && AllSame(items, new', cur - Size(q), cur, d)
    ensures Linked(new', cur - d, q)
    decreases q
  {
    assert SameAt(items, new', cur, d);
    match q
    case Val(_) =>
    case Not(p) => LinkedMoved(items, new', cur - 1, p, d);
    case Bin(_, l, r) =>
      LinkedMoved(items, new', cur - 1, r, d);
      LinkedMoved(items, new', cur - 1 - Size(r), l, d);
  }

  // A negation in the operand that is kept is not one of the first two.
  lemma KeptNotIsPlain(items: seq<Item>, q: Query, posnot: int, poscor: nat, i: int, notisleft: bool)
    requires Due(items, q, posnot, poscor) && Parent(q).Bin? && notisleft == IsFirstNot(Parent(q).l)
    requires var p := Parent(q);
             if notisleft then poscor - 1 - Size(p.r) < i < poscor else poscor - Size(p) < i < poscor - Size(p.r)
    ensures 0 <= i < |items| && (items[i].node.Negation? ==> items[i].left == -1)
  {
    DueMeans(items, q, posnot, poscor);
    var p := Parent(q);
    if notisleft {
      LinksStayInside(items, poscor - 1, p.r, i);
    } else {
      LinkedHasNodes(items, poscor - 1 - Size(p.r), p.l);
      FirstNotStands(items, poscor - 1 - Size(p.r), p.l, i);
    }
  }

  // What is kept and where it stood: the operand ends at e.
  ghost predicate Keeps(q: Query, poscor: int, notisleft: bool, e: int)
    requires HasNot(q) && !IsFirstNot(q)
  {
    var p := Parent(q);
    && p.Bin? && notisleft == IsFirstNot(p.l) && Swallow(p) == (if notisleft then p.r else p.l)
    && e == if notisleft then poscor - 1 else poscor - 1 - Size(p.r)
  }

  lemma KeptIsReplaced(items: seq<Item>, new': seq<Item>, k: int, p: Query, kept: Query, e: int, s: nat)
    requires p.Bin? && Size(kept) < Size(p) && s == k + 1 - Size(p) && Linked(items, e, kept)
    requires Spliced(items, new', s, k, Size(p) - Size(kept), false)
    requires AllSame(items, new', e - Size(kept), e, e + 1 - Size(kept) - s)
    ensures Replaced(items, new', k, p, kept)
  {
    LinkedMoved(items, new', e, kept, e + 1 - Size(kept) - s);
  }

  lemma KeptNotsPlain(items: seq<Item>, new': seq<Item>, q: Query, posnot: int, poscor: nat, notisleft: bool, e: int, s: nat, d: nat)
    requires Due(items, q, posnot, poscor) && Keeps(q, poscor, notisleft, e) && s == poscor + 1 - Size(Parent(q))
    requires d == Size(Parent(q)) - Size(Swallow(Parent(q))) && Spliced(items, new', s, poscor, d, false)
    requires AllSame(items, new', e - Size(Swallow(Parent(q))), e, e + 1 - Size(Swallow(Parent(q))) - s)
    ensures NotsPlain(new', -1)
  {
    DueMeans(items, q, posnot, poscor);
    var off := e + 1 - Size(Swallow(Parent(q))) - s;
    forall i | s <= i <= poscor - d && new'[i].node.Negation? ensures new'[i].left == -1 {
      assert SameAt(items, new', i + off, off);
      KeptNotIsPlain(items, q, posnot, poscor, i + off, notisleft);
    }
    KeptIsPlain(items, new', s, poscor, d);
  }

  lemma KeptIsDone(items: seq<Item>, new': seq<Item>, q: Query, posnot: int, poscor: nat, notisleft: bool, e: int, drop: nat, len: nat)
    requires Due(items, q, posnot, poscor) && Keeps(q, poscor, notisleft, e)
    requires drop == Size(Parent(q)) && len == Size(Swallow(Parent(q))) && drop <= poscor + 1
    requires Spliced(items, new', poscor + 1 - drop, poscor, drop - len, false)
    requires AllSame(items, new', e - len, e, e + 1 - len - (poscor + 1 - drop))
    ensures Done(new', q)
  {
    KeptIsRound(items, new', q, posnot, poscor, notisleft, e, poscor + 1 - drop);
    KeptNotsPlain(items, new', q, posnot, poscor, notisleft, e, poscor + 1 - drop, drop - len);
    RoundIsDone(items, new', q, posnot, poscor);
  }

  lemma KeptIsRound(items: seq<Item>, new': seq<Item>, q: Query, posnot: int, poscor: nat, notisleft: bool, e: int, s: nat)
    requires Due(items, q, posnot, poscor) && Keeps(q, poscor, notisleft, e) && s == poscor + 1 - Size(Parent(q))
    requires Spliced(items, new', s, poscor, Size(Parent(q)) - Size(Swallow(Parent(q))), false)
    requires AllSame(items, new', e - Size(Swallow(Parent(q))), e, e + 1 - Size(Swallow(Parent(q))) - s)
    ensures Round(items, new', |items| - 1, q)
  {
    KeptStands(items, q, posnot, poscor, notisleft, e);
    KeptIsReplaced(items, new', poscor, Parent(q), Swallow(Parent(q)), e, s);
  }

  // The branch that drops only the operator and the negation.
  method KeepOperand(items: seq<Item>, ghost q: Query, ghost posnot: int, poscor: nat, notisleft: bool, subtreepos: int)
    returns (new': seq<Item>)
    requires Due(items, q, posnot, poscor) && Keeps(q, poscor, notisleft, subtreepos)
    ensures Done(new', q)
  {
    KeptStands(items, q, posnot, poscor, notisleft, subtreepos);
    var subtreelen := CountDropTree(items, subtreepos, Swallow(Parent(q)));
    var drop := CountDropTree(items, poscor, Parent(q));
    new' := Join(items, poscor, drop, subtreepos, subtreelen);
    KeptIsDone(items, new', q, posnot, poscor, notisleft, subtreepos, drop, subtreelen);
  }

  lemma KeptStands(items: seq<Item>, q: Query, posnot: int, poscor: nat, notisleft: bool, e: int)
    requires Due(items, q, posnot, poscor) && Keeps(q, poscor, notisleft, e)
    ensures Linked(items, poscor, Parent(q)) && poscor < |items| && Size(Parent(q)) <= poscor + 1
    ensures Linked(items, e, Swallow(Parent(q))) && Size(Swallow(Parent(q))) <= e + 1
  {
    DueMeans(items, q, posnot, poscor);
    LinkedHasNodes(items, e, Swallow(Parent(q)));
  }

  // The two copies: the rest behind the subtree, and both to where the dropped query began.
  method Join(items: seq<Item>, poscor: nat, drop: nat, pos: int, len: nat) returns (new': seq<Item>)
    requires poscor < |items| && 0 < len < drop <= poscor + 1 && 0 <= pos + 1 - len && pos < |items|
    ensures Spliced(items, new', poscor + 1 - drop, poscor, drop - len, false)
    ensures AllSame(items, new', pos - len, pos, pos + 1 - len - (poscor + 1 - drop))
  {
    var s := poscor + 1 - drop;
    var mid := items[pos + 1 - len..pos + 1];
    var tail := RepairLinks(items, poscor, drop - len, false);
    new' := items[..s] + mid + tail;
    SplicedBy(items, mid, tail, s, poscor, drop - len, false);
    ghost var off := pos + 1 - len - s;
    forall i | pos - len < i <= pos ensures SameAt(items, new', i, off) {
      assert new'[i - off] == mid[i - (pos + 1 - len)];
    }
  }

  // Which branch a round takes, and what each tests, in terms of the query of the operator.
  lemma BranchOf(items: seq<Item>, q: Query, posnot: int, poscor: nat)
    requires Due(items, q, posnot, poscor)
    ensures var p := Parent(q);
            && poscor < |items| && 0 < poscor && (items[poscor].node.Negation? <==> p.Not?)
            && (p.Bin? ==>
                  && items[poscor] == Item(Binary(p.op), -1 - Size(p.r)) && poscor - 1 - Size(p.r) >= 0
                  && (poscor != posnot + 1 <==> IsFirstNot(p.l)) && (items[poscor - 1].node.Negation? <==> p.r.Not?)
                  && (items[poscor - 1 - Size(p.r)].node.Negation? <==> p.l.Not?))
  {
    DueMeans(items, q, posnot, poscor);
    var p := Parent(q);
    if p.Bin? {
      RootOf(items, poscor - 1, p.r);
      RootOf(items, poscor - 1 - Size(p.r), p.l);
    }
  }

  lemma RootOf(items: seq<Item>, cur: int, q: Query)
    requires Linked(items, cur, q)
    ensures items[cur].node.Negation? <==> q.Not?
  {
  }

  // One round of the loop, branch by branch.
  method SwallowNot(items: seq<Item>, ghost q: Query, posnot: int, poscor: nat) returns (new': seq<Item>)
    requires Due(items, q, posnot, poscor)
    ensures Done(new', q)
  {
    BranchOf(items, q, posnot, poscor);
    var notisleft := poscor != posnot + 1;
    match items[poscor].node
    case Negation => new' := DropTree(items, q, posnot, poscor, items[poscor].left);
    case Binary(op) =>
      if op == OR {
        new' := DropTree(items, q, posnot, poscor, -1);
      } else if (notisleft && items[poscor - 1].node.Negation?) ||
                (!notisleft && items[poscor + items[poscor].left].node.Negation?) {
        new' := DropTree(items, q, posnot, poscor, -1);
      } else {
        new' := KeepOperand(items, q, posnot, poscor, notisleft, if notisleft then poscor - 1 else poscor + items[poscor].left);
      }
  }

  // The first negation of what is stored is where the query has it.
  lemma FoundNot(items: seq<Item>, q: Query, posnot: nat)
    requires NodesEndAt(items, |items| - 1, q) && |items| == Size(q) && posnot <= |items|
    requires posnot < |items| ==> items[posnot].node.Negation?
    requires forall i :: 0 <= i < posnot ==> !items[i].node.Negation?
    ensures posnot == |items| <==> !HasNot(q)
    ensures HasNot(q) ==> posnot == NotAt(q, |items| - 1)
  {
    if posnot < |items| {
      FirstNotStands(items, |items| - 1, q, posnot);
    }
    if HasNot(q) {
      FirstNotStands(items, |items| - 1, q, NotAt(q, |items| - 1));
    }
  }

  // The operator found is the one above the negation, and none is found behind a wrong link.
  lemma FoundOperator(items: seq<Item>, q: Query, posnot: nat, poscor: nat)
    requires Ready(items, q) || Astray(items, q)
    requires HasNot(q) && !IsFirstNot(q) && posnot == NotAt(q, |items| - 1) < poscor <= |items|
    requires poscor < |items| ==> Hits(items, posnot, poscor)
    requires forall i :: posnot < i < poscor ==> !Hits(items, posnot, i)
    ensures Ready(items, q) ==> poscor == ParentAt(q, |items| - 1)
    ensures Astray(items, q) ==> poscor == |items|
  {
    if Ready(items, q) {
      var k := ParentAt(q, |items| - 1);
      ParentIsFound(items, |items| - 1, q, k);
      if poscor < k {
        ParentIsFound(items, |items| - 1, q, poscor);
      }
    }
    if Astray(items, q) && poscor < |items| {
      SkewedMisses(items, |items| - 1, q, poscor);
    }
  }

  // What is left of a query, nothing, or the search has run past the end of the array.
  datatype Shorter = Kept(items: seq<Item>) | Nothing | PastEnd

  /** shorterquery on the stored form of a query whose links fit.  It runs past the end of the array if and only
      if a left operand comes to be a double negation.  Otherwise nothing is left exactly when the query
      holds of every set with negations read as true, and what is left has no negation and the same meaning. */
  method ShorterQuery(stored: seq<Item>, ghost q: Query) returns (r: Shorter)
    requires Stores(stored, q) && LinksFit(q)
    ensures r.PastEnd? <==> !Upright(q)
    ensures r.Nothing? <==> Upright(q) && forall s: set<int> :: Eval(q, In(s), false)
    ensures r.Kept? ==> |r.items| == Size(Reduce(q)) && Linked(r.items, |r.items| - 1, Reduce(q)) && !HasNot(Reduce(q))
    ensures r.Kept? ==> forall s: set<int> :: Eval(Reduce(q), In(s), false) == Eval(q, In(s), false)
  {
    NothingLeftIff(q);
    forall s: set<int> ensures Eval(Reduce(q), In(s), false) == Eval(q, In(s), false) {
      ReduceKeepsLooseMeaning(q, In(s));
    }
    var items := stored;
    ghost var t, tilted := q, false;
    StoredIsReady(stored, q);
    while true
      invariant if tilted then Astray(items, t) && !Upright(q)
                else Ready(items, t) && Reduce(t) == Reduce(q) && (Upright(t) <==> Upright(q))
      decreases |items|
    {
      if tilted {
        SkewedHasNodes(items, |items| - 1, t);
      } else {
        LinkedHasNodes(items, |items| - 1, t);
      }
      var posnot := FindNot(items);
      FoundNot(items, t, posnot);
      if posnot == |items| {
        NotFreeIsReduced(t);
        return Kept(items);
      }
      if posnot == |items| - 1 {
        NotFreeIsReduced(t);
        return Nothing;
      }
      var poscor := FindOperator(items, posnot);
      FoundOperator(items, t, posnot, poscor);
      RewriteReduces(t);
      if poscor == |items| {
        return PastEnd;
      }
      items := SwallowNot(items, t, posnot, poscor);
      t, tilted := Rewrite(t), Tilts(t);
    }
  }

  lemma StoredIsReady(items: seq<Item>, q: Query)
    requires Stores(items, q) && LinksFit(q)
    ensures Ready(items, q)
  {
    StoredIsLinked(items, |items| - 1, q);
    forall i | 0 <= i < |items| && items[i].node.Negation? ensures items[i].left == -1 {
      StoredNotIsPlain(items, |items| - 1, q, i);
    }
  }

  lemma {:induction false} StoredNotIsPlain(items: seq<Item>, cur: int, q: Query, i: int)
    requires EndsAt(items, cur, q) && cur - Size(q) < i <= cur
    ensures 0 <= i < |items| && (items[i].node.Negation? ==> items[i].left == -1)
    decreases q
  {
    match q
    case Val(_) =>
    case Not(p) =>
      if i < cur {
        StoredNotIsPlain(items, cur - 1, p, i);
      }
    case Bin(_, l, r) =>
      if i < cur - Size(r) {
        StoredNotIsPlain(items, cur - 1 - Size(r), l, i);
      } else if i < cur {
        StoredNotIsPlain(items, cur - 1, r, i);
      }
  }

  // !(!1) & 2
  const TILTED := Bin(AND, Not(Not(Val(1))), Val(2))

  /** On !( !1 ) & 2 the search runs past the end, although the query needs the value 2. */
  method TiltedQuery() returns (r: Shorter)
    ensures r.PastEnd? && LinksFit(TILTED) && forall s: set<int> :: Eval(TILTED, In(s), true) ==> 2 in s
  {
    var p := Not(Val(1));
    assert Reduce(p) == p && Size(p.q) == 1;
    assert DoubleNot(Not(p));
    StoresIff(Stored(TILTED), TILTED);
    r := ShorterQuery(Stored(TILTED), TILTED);
    forall s: set<int> | Eval(TILTED, In(s), true) ensures 2 in s {
      assert Eval(Val(2), In(s), true);
    }
  }
}
