/** The links of a stored query are 16-bit fields.  When one of them wraps, execute is led away from a
    left operand and never sees it: the stored query then no longer means what its tree means. */
module IntLinks {
  import opened Basics
  import opened IntQuery

  // ----- What a stored query means -----

  // An operand is decided by looking its value up in s.
  function Found(items: seq<Item>, s: set<int>): (chk: int -> bool) {
    i => 0 <= i < |items| && items[i].node.Operand? && items[i].node.val in s
  }

  lemma FoundAnswers(items: seq<Item>, s: set<int>)
    ensures Answers(items, Found(items, s), In(s))
  {
  }

  // execute of the whole array, with room for so many calls.
  function ExecuteAs(items: seq<Item>, s: set<int>, calcnot: bool, stack: nat): (o: Outcome) {
    Execute(items, |items| - 1, Found(items, s), calcnot, stack)
  }

  function ExecuteOn(items: seq<Item>, s: set<int>, stack: nat): (o: Outcome) {
    ExecuteAs(items, s, true, stack)
  }

  // It answers b for the set s, given room enough.
  ghost predicate Says(items: seq<Item>, s: set<int>, b: bool) {
    exists stack: nat :: ExecuteOn(items, s, stack) == Answer(b)
  }

  // On every set execute answers what q means.
  ghost predicate Means(items: seq<Item>, q: Query) {
    forall s: set<int> :: Says(items, s, Eval(q, In(s), true))
  }

  lemma SaysOne(items: seq<Item>, s: set<int>, b: bool, c: bool)
    requires Says(items, s, b) && Says(items, s, c)
    ensures b == c
  {
    var k: nat :| ExecuteOn(items, s, k) == Answer(b);
    var m: nat :| ExecuteOn(items, s, m) == Answer(c);
    MoreStack(items, |items| - 1, Found(items, s), true, k, k + m);
    MoreStack(items, |items| - 1, Found(items, s), true, m, k + m);
  }

  // items is the whole stored form of q.
  ghost predicate Stores(items: seq<Item>, q: Query) {
    |items| == Size(q) && EndsAt(items, |items| - 1, q)
  }

  // The array findoprnd leaves of q.
  function Stored(q: Query): (items: seq<Item>)
    ensures |items| == Size(q)
  {
    match q
    case Val(v) => [Item(Operand(v), 0)]
    case Not(p) => Stored(p) + [Item(Negation, -1)]
    case Bin(op, l, r) => Stored(l) + Stored(r) + [Item(Binary(op), Int2(-1 - Size(r)))]
  }

  // part stands in s from lo on.
  predicate At<T(==)>(s: seq<T>, lo: int, part: seq<T>) {
    0 <= lo && lo + |part| <= |s| && forall k :: 0 <= k < |part| ==> part[k] == s[lo + k]
  }

  lemma AtSplits<T>(s: seq<T>, lo: int, a: seq<T>, b: seq<T>)
    ensures At(s, lo, a + b) <==> At(s, lo, a) && At(s, lo + |a|, b)
  {
    assert forall k :: 0 <= k < |a| ==> a[k] == (a + b)[k];
    assert forall k :: 0 <= k < |b| ==> b[k] == (a + b)[|a| + k];
  }

  lemma AtOne<T>(s: seq<T>, lo: int, x: T)
    ensures At(s, lo, [x]) <==> 0 <= lo < |s| && s[lo] == x
  {
    assert [x][0] == x;
  }

  // The conditions under which three parts stand one after the other.
  lemma AtThree<T>(s: seq<T>, lo: int, a: seq<T>, b: seq<T>, c: seq<T>)
    ensures At(s, lo, a + b + c) <==> At(s, lo, a) && At(s, lo + |a|, b) && At(s, lo + |a| + |b|, c)
  {
    AtSplits(s, lo, a + b, c);
    AtSplits(s, lo, a, b);
  }

  lemma {:induction false} StoredAtIff(items: seq<Item>, cur: int, q: Query)
    ensures At(items, cur + 1 - Size(q), Stored(q)) <==> EndsAt(items, cur, q)
    decreases q
  {
    var lo := cur + 1 - Size(q);
    match q
    case Val(v) => AtOne(items, cur, Item(Operand(v), 0));
    case Not(p) =>
      AtSplits(items, lo, Stored(p), [Item(Negation, -1)]);
      AtOne(items, cur, Item(Negation, -1));
      EndsAtNot(items, cur, p);
      StoredAtIff(items, cur - 1, p);
    case Bin(op, l, r) =>
      StoredAtIff(items, cur - 1, r);
      StoredAtIff(items, cur - 1 - Size(r), l);
      StoredAtBin(items, cur, op, l, r);
  }

  lemma StoredAtBin(items: seq<Item>, cur: int, op: BinOp, l: Query, r: Query)
    requires At(items, cur - Size(r), Stored(r)) <==> EndsAt(items, cur - 1, r)
    requires At(items, cur - Size(r) - Size(l), Stored(l)) <==> EndsAt(items, cur - 1 - Size(r), l)
    ensures At(items, cur - Size(r) - Size(l), Stored(Bin(op, l, r))) <==> EndsAt(items, cur, Bin(op, l, r))
  {
    AtThree(items, cur - Size(r) - Size(l), Stored(l), Stored(r), [Item(Binary(op), Int2(-1 - Size(r)))]);
    AtOne(items, cur, Item(Binary(op), Int2(-1 - Size(r))));
    EndsAtBin(items, cur, op, l, r);
  }

  /** A query has one stored form. */
  lemma StoresIff(items: seq<Item>, q: Query)
    ensures Stores(items, q) <==> items == Stored(q)
  {
    StoredAtIff(items, |items| - 1, q);
  }

  lemma ExecuteFoundIsEval(items: seq<Item>, q: Query, s: set<int>, calcnot: bool, stack: nat)
    requires Stores(items, q) && LinksFit(q) && stack >= Height(q)
    ensures Execute(items, |items| - 1, Found(items, s), calcnot, stack) == Answer(Eval(q, In(s), calcnot))
  {
    var chk := Found(items, s);
    FoundAnswers(items, s);
    EvalAtIsEval(items, |items| - 1, q, chk, In(s), calcnot);
    ExecuteIsEval(items, |items| - 1, q, chk, calcnot, stack);
  }

  lemma FittingLinksSay(items: seq<Item>, q: Query, s: set<int>)
    requires Stores(items, q) && LinksFit(q)
    ensures Says(items, s, Eval(q, In(s), true))
  {
    ExecuteFoundIsEval(items, q, s, true, Height(q));
    assert ExecuteOn(items, s, Height(q)) == Answer(Eval(q, In(s), true));
  }

  // ----- Stored queries whatever their links -----

  // execute answers true, given room enough.
  ghost predicate Holds(items: seq<Item>, s: set<int>, calcnot: bool) {
    exists stack: nat :: ExecuteAs(items, s, calcnot, stack) == Answer(true)
  }

  // execute comes to an answer, given room enough.
  ghost predicate Ends(items: seq<Item>, s: set<int>, calcnot: bool) {
    exists stack: nat :: ExecuteAs(items, s, calcnot, stack).Answer?
  }

  // On every set, with negations read either way, execute comes to an answer.
  ghost predicate Answering(items: seq<Item>) {
    forall s: set<int>, calcnot: bool :: Ends(items, s, calcnot)
  }

  // An answer is the answer.
  lemma HoldsIs(items: seq<Item>, s: set<int>, calcnot: bool, stack: nat)
    requires ExecuteAs(items, s, calcnot, stack).Answer?
    ensures ExecuteAs(items, s, calcnot, stack) == Answer(Holds(items, s, calcnot))
  {
    if Holds(items, s, calcnot) {
      var k: nat :| ExecuteAs(items, s, calcnot, k) == Answer(true);
      MoreStack(items, |items| - 1, Found(items, s), calcnot, k, k + stack);
      MoreStack(items, |items| - 1, Found(items, s), calcnot, stack, k + stack);
    }
  }

  /** Wherever the links lead, an answer with negations read as true on a larger set is not false when the
      exact answer is true. */
  lemma {:induction false} LooseExecute(items: seq<Item>, cur: int, row: set<int>, key: set<int>, stack: nat)
    requires row <= key && Execute(items, cur, Found(items, row), true, stack) == Answer(true)
    requires Execute(items, cur, Found(items, key), false, stack).Answer?
    ensures Execute(items, cur, Found(items, key), false, stack) == Answer(true)
    decreases stack
  {
    if items[cur].node.Binary? {
      var left := cur + items[cur].left;
      if Execute(items, left, Found(items, row), true, stack - 1) == Answer(true) {
        LooseExecute(items, left, row, key, stack - 1);
      }
      if Execute(items, cur - 1, Found(items, row), true, stack - 1) == Answer(true)
         && Execute(items, cur - 1, Found(items, key), false, stack - 1).Answer? {
        LooseExecute(items, cur - 1, row, key, stack - 1);
      }
    }
  }

  lemma LooseHolds(items: seq<Item>, row: set<int>, key: set<int>)
    requires Answering(items) && row <= key && Holds(items, row, true)
    ensures Holds(items, key, false)
  {
    assert Ends(items, key, false);
    var k: nat :| ExecuteAs(items, row, true, k) == Answer(true);
    var m: nat :| ExecuteAs(items, key, false, m).Answer?;
    MoreStack(items, |items| - 1, Found(items, row), true, k, k + m);
    MoreStack(items, |items| - 1, Found(items, key), false, m, k + m);
    LooseExecute(items, |items| - 1, row, key, k + m);
    assert ExecuteAs(items, key, false, k + m) == Answer(true);
  }

  /** When the links fit it comes to an answer, which is the meaning of the tree. */
  lemma FittingAnswers(items: seq<Item>, q: Query)
    requires Stores(items, q) && LinksFit(q)
    ensures Answering(items)
    ensures forall s: set<int>, calcnot: bool :: Holds(items, s, calcnot) == Eval(q, In(s), calcnot)
  {
    forall s: set<int>, calcnot: bool
      ensures Ends(items, s, calcnot) && Holds(items, s, calcnot) == Eval(q, In(s), calcnot)
    {
      ExecuteFoundIsEval(items, q, s, calcnot, Height(q));
      assert ExecuteAs(items, s, calcnot, Height(q)).Answer?;
      HoldsIs(items, s, calcnot, Height(q));
    }
  }

  // ----- Every value of a query with different values matters -----

  predicate DistinctValues(q: Query) {
    match q
    case Val(_) => true
    case Not(p) => DistinctValues(p)
    case Bin(_, l, r) => DistinctValues(l) && DistinctValues(r) && Values(l) !! Values(r)
  }

  // The values to have for q to come out as b.
  function Force(q: Query, b: bool): (s: set<int>)
    ensures s <= Values(q)
  {
    match q
    case Val(v) => if b then {v} else {}
    case Not(p) => Force(p, !b)
    case Bin(_, l, r) => Force(l, b) + Force(r, b)
  }

  // s and u have the same values among those of q, apart from the ones left out.
  ghost predicate Agree(q: Query, s: set<int>, u: set<int>, out: set<int>) {
    forall v :: v in Values(q) && v !in out ==> (v in s <==> v in u)
  }

  lemma {:induction false} Forced(q: Query, s: set<int>, b: bool)
    requires DistinctValues(q) && Agree(q, s, Force(q, b), {})
    ensures Eval(q, In(s), true) == b
  {
    match q
    case Val(v) => assert v in Values(q);
    case Not(p) =>
      assert Agree(p, s, Force(p, !b), {});
      Forced(p, s, !b);
    case Bin(_, l, r) =>
      assert Agree(l, s, Force(l, b), {}) && Agree(r, s, Force(r, b), {});
      Forced(l, s, b);
      Forced(r, s, b);
  }

  // The other values to have for the truth of q to hang on v.
  function Around(q: Query, v: int): (s: set<int>)
    requires v in Values(q)
    ensures s <= Values(q)
  {
    match q
    case Val(_) => {}
    case Not(p) => Around(p, v)
    case Bin(op, l, r) =>
      if v in Values(l) then Around(l, v) + Force(r, op == AND) else Force(l, op == AND) + Around(r, v)
  }

  lemma {:induction false} ValueMatters(q: Query, v: int, s: set<int>, t: set<int>)
    requires DistinctValues(q) && v in Values(q) && v in s && v !in t
    requires Agree(q, s, Around(q, v), {v}) && Agree(q, t, Around(q, v), {v})
    ensures Eval(q, In(s), true) != Eval(q, In(t), true)
  {
    match q
    case Val(_) =>
    case Not(p) =>
      assert Agree(p, s, Around(p, v), {v}) && Agree(p, t, Around(p, v), {v});
      ValueMatters(p, v, s, t);
    case Bin(op, l, r) =>
      var here, there := if v in Values(l) then l else r, if v in Values(l) then r else l;
      AroundSplits(q, v, s, here, there);
      AroundSplits(q, v, t, here, there);
      ValueMatters(here, v, s, t);
      Forced(there, s, op == AND);
      Forced(there, t, op == AND);
  }

  lemma AroundSplits(q: Query, v: int, s: set<int>, here: Query, there: Query)
    requires q.Bin? && ((here == q.l && there == q.r) || (here == q.r && there == q.l))
    requires DistinctValues(q) && v in Values(here) && Agree(q, s, Around(q, v), {v})
    ensures Agree(here, s, Around(here, v), {v}) && Agree(there, s, Force(there, q.op == AND), {})
  {
    assert Values(q) == Values(here) + Values(there) && Values(here) !! Values(there);
    assert Around(q, v) == Around(here, v) + Force(there, q.op == AND);
  }

  // ----- A left operand that is out of reach -----

  // The left operand of the first operator, from outside in and from left to right, whose link wraps.
  function Hidden(q: Query): (h: Query)
    requires !LinksFit(q)
  {
    match q
    case Not(p) => Hidden(p)
    case Bin(_, l, r) => if Size(r) >= 0x8000 then l else if !LinksFit(l) then Hidden(l) else Hidden(r)
  }

  // Where it ends when q ends at cur.
  function HiddenAt(q: Query, cur: int): (h: int)
    requires !LinksFit(q)
    ensures cur - Size(q) + Size(Hidden(q)) <= h < cur
  {
    match q
    case Not(p) => HiddenAt(p, cur - 1)
    case Bin(_, l, r) =>
      if Size(r) >= 0x8000 then cur - 1 - Size(r)
      else if !LinksFit(l) then HiddenAt(l, cur - 1 - Size(r))
      else HiddenAt(r, cur - 1)
  }

  predicate InHidden(q: Query, cur: int, i: int)
    requires !LinksFit(q)
  {
    HiddenAt(q, cur) - Size(Hidden(q)) < i <= HiddenAt(q, cur)
  }

  // No call that execute makes at i is for an item of the hidden operand.
  ghost predicate Avoids(items: seq<Item>, q: Query, cur: int, i: int)
    requires !LinksFit(q) && 0 <= i < |items|
  {
    && (!items[i].node.Operand? ==> !InHidden(q, cur, i - 1))
    && (items[i].node.Binary? ==> !InHidden(q, cur, i + items[i].left))
  }

  // Calls from inside a query do not go back beyond its first item.
  lemma {:induction false} CallsStayAfter(items: seq<Item>, cur: int, q: Query, i: int)
    requires EndsAt(items, cur, q) && cur - Size(q) < i <= cur
    ensures 0 <= i < |items|
    ensures !items[i].node.Operand? ==> i - 1 > cur - Size(q)
    ensures items[i].node.Binary? ==> i + items[i].left > cur - Size(q)
    decreases q
  {
    match q
    case Val(_) =>
    case Not(p) =>
      if i < cur {
        CallsStayAfter(items, cur - 1, p, i);
      }
    case Bin(_, l, r) =>
      if i < cur - Size(r) {
        CallsStayAfter(items, cur - 1 - Size(r), l, i);
      } else if i < cur {
        CallsStayAfter(items, cur - 1, r, i);
      }
  }

  // When the links fit, nor do they go forward.
  lemma {:induction false} CallsGoBack(items: seq<Item>, cur: int, q: Query, i: int)
    requires EndsAt(items, cur, q) && cur - Size(q) < i <= cur && LinksFit(q)
    ensures 0 <= i < |items| && (items[i].node.Binary? ==> items[i].left < 0)
    decreases q
  {
    match q
    case Val(_) =>
    case Not(p) =>
      if i < cur {
        CallsGoBack(items, cur - 1, p, i);
      }
    case Bin(_, l, r) =>
      if i < cur - Size(r) {
        CallsGoBack(items, cur - 1 - Size(r), l, i);
      } else if i < cur {
        CallsGoBack(items, cur - 1, r, i);
      }
  }

  lemma {:induction false} HiddenIsAvoided(items: seq<Item>, cur: int, q: Query, i: int)
    requires EndsAt(items, cur, q) && !LinksFit(q)
    requires cur - Size(q) < i <= cur && !InHidden(q, cur, i)
    ensures 0 <= i < |items| && Avoids(items, q, cur, i)
    decreases q
  {
    match q
    case Not(p) =>
      if i < cur {
        HiddenIsAvoided(items, cur - 1, p, i);
      }
    case Bin(_, l, r) =>
      if i < cur {
        if i >= cur - Size(r) {
          CallsStayAfter(items, cur - 1, r, i);
          if Size(r) < 0x8000 && LinksFit(l) {
            HiddenIsAvoided(items, cur - 1, r, i);
          }
        } else if Size(r) < 0x8000 {
          if LinksFit(l) {
            CallsGoBack(items, cur - 1 - Size(r), l, i);
          } else {
            HiddenIsAvoided(items, cur - 1 - Size(r), l, i);
          }
        }
      }
  }

  /** Two ways of deciding operands that differ only inside the hidden operand get the same outcome. */
  lemma {:induction false} HiddenIsNotSeen(items: seq<Item>, q: Query, cur: int, chk: int -> bool, chk': int -> bool, stack: nat)
    requires Stores(items, q) && !LinksFit(q) && !InHidden(q, |items| - 1, cur)
    requires forall i :: 0 <= i < |items| && !InHidden(q, |items| - 1, i) ==> chk(i) == chk'(i)
    ensures Execute(items, cur, chk, true, stack) == Execute(items, cur, chk', true, stack)
    decreases stack
  {
    if stack > 0 && 0 <= cur < |items| {
      HiddenIsAvoided(items, |items| - 1, q, cur);
      if !items[cur].node.Operand? {
        HiddenIsNotSeen(items, q, cur - 1, chk, chk', stack - 1);
      }
      if items[cur].node.Binary? {
        HiddenIsNotSeen(items, q, cur + items[cur].left, chk, chk', stack - 1);
      }
    }
  }

  lemma {:induction false} HiddenHasValues(q: Query)
    requires !LinksFit(q)
    ensures Values(Hidden(q)) <= Values(q)
    decreases q
  {
    match q
    case Not(p) => HiddenHasValues(p);
    case Bin(_, l, r) =>
      if Size(r) < 0x8000 {
        HiddenHasValues(if LinksFit(l) then r else l);
      }
  }

  lemma {:induction false} SomeValue(q: Query) returns (v: int)
    ensures v in Values(q)
  {
    match q
    case Val(x) => v := x;
    case Not(p) => v := SomeValue(p);
    case Bin(_, l, _) => v := SomeValue(l);
  }

  lemma {:induction false} OperandsAreValues(items: seq<Item>, cur: int, q: Query, i: int)
    requires NodesEndAt(items, cur, q) && cur - Size(q) < i <= cur
    ensures 0 <= i < |items| && (items[i].node.Operand? ==> items[i].node.val in Values(q))
    decreases q
  {
    match q
    case Val(_) =>
    case Not(p) =>
      if i < cur {
        OperandsAreValues(items, cur - 1, p, i);
      }
    case Bin(_, l, r) =>
      if i < cur - Size(r) {
        OperandsAreValues(items, cur - 1 - Size(r), l, i);
      } else if i < cur {
        OperandsAreValues(items, cur - 1, r, i);
      }
  }

  // With different values, the values of the hidden operand stand nowhere else.
  lemma {:induction false} HiddenStandsAlone(items: seq<Item>, cur: int, q: Query, i: int)
    requires NodesEndAt(items, cur, q) && DistinctValues(q) && !LinksFit(q)
    requires cur - Size(q) < i <= cur && !InHidden(q, cur, i)
    ensures 0 <= i < |items| && (items[i].node.Operand? ==> items[i].node.val !in Values(Hidden(q)))
    decreases q
  {
    HiddenHasValues(q);
    match q
    case Not(p) =>
      if i < cur {
        HiddenStandsAlone(items, cur - 1, p, i);
      }
    case Bin(_, l, r) =>
      if i < cur {
        var inLeft := i < cur - Size(r);
        if inLeft {
          OperandsAreValues(items, cur - 1 - Size(r), l, i);
        } else {
          OperandsAreValues(items, cur - 1, r, i);
        }
        if Size(r) < 0x8000 {
          if LinksFit(l) {
            HiddenHasValues(r);
            if !inLeft {
              HiddenStandsAlone(items, cur - 1, r, i);
            }
          } else {
            HiddenHasValues(l);
            if inLeft {
              HiddenStandsAlone(items, cur - 1 - Size(r), l, i);
            }
          }
        }
      }
  }

  // A set and the same set without one value of the hidden operand get the same answers.
  lemma HiddenValueIsNotSeen(items: seq<Item>, q: Query, v: int, s: set<int>, t: set<int>, b: bool)
    requires Stores(items, q) && DistinctValues(q) && !LinksFit(q) && v in Values(Hidden(q))
    requires s - {v} == t - {v} && Says(items, s, b)
    ensures Says(items, t, b)
  {
    var last := |items| - 1;
    forall i | 0 <= i < |items| && !InHidden(q, last, i) ensures Found(items, s)(i) == Found(items, t)(i) {
      HiddenStandsAlone(items, last, q, i);
      if items[i].node.Operand? {
        assert items[i].node.val in s <==> items[i].node.val in s - {v};
        assert items[i].node.val in t <==> items[i].node.val in t - {v};
      }
    }
    var stack: nat :| ExecuteOn(items, s, stack) == Answer(b);
    HiddenIsNotSeen(items, q, last, Found(items, s), Found(items, t), stack);
    assert ExecuteOn(items, t, stack) == Answer(b);
  }

  /** If a link of the stored query wraps, what execute answers is not the meaning of any query with
      the same different values. */
  lemma WrappedLinkSpoils(items: seq<Item>, q: Query, meant: Query)
    requires Stores(items, q) && DistinctValues(q) && !LinksFit(q)
    requires DistinctValues(meant) && Values(meant) == Values(q)
    ensures !Means(items, meant)
  {
    var v := SomeValue(Hidden(q));
    HiddenHasValues(q);
    var t := Around(meant, v) - {v};
    var s := t + {v};
    ValueMatters(meant, v, s, t);
    if Means(items, meant) {
      assert Says(items, s, Eval(meant, In(s), true)) && Says(items, t, Eval(meant, In(t), true));
      HiddenValueIsNotSeen(items, q, v, s, t, Eval(meant, In(s), true));
      SaysOne(items, t, Eval(meant, In(s), true), Eval(meant, In(t), true));
    }
  }

  /** A stored query with different values means what its tree means if and only if every link fits. */
  lemma StoredMeansTreeIff(items: seq<Item>, q: Query)
    requires Stores(items, q) && DistinctValues(q)
    ensures Means(items, q) <==> LinksFit(q)
  {
    if LinksFit(q) {
      forall s: set<int> ensures Says(items, s, Eval(q, In(s), true)) {
        FittingLinksSay(items, q, s);
      }
    } else {
      WrappedLinkSpoils(items, q, q);
    }
  }
}
