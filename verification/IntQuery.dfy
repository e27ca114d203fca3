/** Boolean queries of intarray: the tree a query stands for, the array of items in polish notation
    it is stored as, the back links to left operands, and the evaluator that walks the array. */
module IntQuery {
  import opened Basics

  datatype BinOp = AND | OR

  datatype Query = Val(v: int) | Not(q: Query) | Bin(op: BinOp, l: Query, r: Query)

  // A node of the reverse polish notation, and an item of the stored array.
  datatype Node = Operand(val: int) | Negation | Binary(op: BinOp)
  datatype Item = Item(node: Node, left: int)

  function Size(q: Query): (n: nat)
    ensures n >= 1
  {
    match q
    case Val(_) => 1
    case Not(p) => Size(p) + 1
    case Bin(_, l, r) => Size(l) + Size(r) + 1
  }

  // ----- What a query means -----

  function Apply(op: BinOp, a: bool, b: bool): (c: bool) {
    if op == AND then a && b else a || b
  }

  // The truth of q when f says which values are present.  With calcnot false every negation counts
  // as true.
  function Eval(q: Query, f: int -> bool, calcnot: bool): (b: bool) {
    match q
    case Val(v) => f(v)
    case Not(p) => !calcnot || !Eval(p, f, calcnot)
    case Bin(op, l, r) => Apply(op, Eval(l, f, calcnot), Eval(r, f, calcnot))
  }

  function In(s: set<int>): (f: int -> bool) {
    v => v in s
  }

  function Values(q: Query): (s: set<int>) {
    match q
    case Val(v) => {v}
    case Not(p) => Values(p)
    case Bin(_, l, r) => Values(l) + Values(r)
  }

  /** Reading negations as true and looking in a larger set can only turn a query from false to
      true: the test on an inner index key never misses a row below it. */
  lemma {:induction false} LooseOverApproximates(q: Query, row: set<int>, key: set<int>, calcnot: bool)
    requires row <= key
    ensures Eval(q, In(row), calcnot) ==> Eval(q, In(key), false)
  {
    match q
    case Val(_) =>
    case Not(_) =>
    case Bin(_, l, r) => LooseOverApproximates(l, row, key, calcnot); LooseOverApproximates(r, row, key, calcnot);
  }

  // ----- Back links -----

  // Every back link fits its 16-bit field.
  predicate LinksFit(q: Query) {
    match q
    case Val(_) => true
    case Not(p) => LinksFit(p)
    case Bin(_, l, r) => LinksFit(l) && LinksFit(r) && Size(r) < 0x8000
  }

  // The nodes that end at cur are q in polish notation.
  predicate NodesEndAt(items: seq<Item>, cur: int, q: Query) {
    && 0 <= cur < |items|
    && match q
       case Val(v) => items[cur].node == Operand(v)
       case Not(p) => items[cur].node == Negation && NodesEndAt(items, cur - 1, p)
       case Bin(op, l, r) =>
         items[cur].node == Binary(op) && NodesEndAt(items, cur - 1, r) && NodesEndAt(items, cur - 1 - Size(r), l)
  }

  // Each binary operator of q, stored so that it ends at cur, knows how far back its left operand ends.
  predicate LinksEndAt(items: seq<Item>, cur: int, q: Query)
    requires NodesEndAt(items, cur, q)
  {
    match q
    case Val(_) => items[cur].left == 0
    case Not(p) => items[cur].left == -1 && LinksEndAt(items, cur - 1, p)
    case Bin(_, l, r) =>
      items[cur].left == Int2(-1 - Size(r)) && LinksEndAt(items, cur - 1, r) && LinksEndAt(items, cur - 1 - Size(r), l)
  }

  lemma {:induction false} NodesEndAtFrame(items: seq<Item>, items': seq<Item>, cur: int, q: Query)
    requires NodesEndAt(items, cur, q) && |items'| == |items|
    requires forall k :: cur - Size(q) < k <= cur && 0 <= k < |items| ==> items'[k].node == items[k].node
    ensures NodesEndAt(items', cur, q)
  {
    match q
    case Val(_) =>
    case Not(p) => NodesEndAtFrame(items, items', cur - 1, p);
    case Bin(_, l, r) =>
      NodesEndAtFrame(items, items', cur - 1, r);
      NodesEndAtFrame(items, items', cur - 1 - Size(r), l);
  }

  // The stored form of q, nodes and links, ends at cur.
  predicate EndsAt(items: seq<Item>, cur: int, q: Query) {
    NodesEndAt(items, cur, q) && LinksEndAt(items, cur, q)
  }

  lemma {:induction false} EndsAtFrame(items: seq<Item>, items': seq<Item>, cur: int, q: Query)
    requires EndsAt(items, cur, q) && |items'| == |items|
    requires forall k :: cur - Size(q) < k <= cur && 0 <= k < |items| ==> items'[k] == items[k]
    ensures EndsAt(items', cur, q)
    decreases q
  {
    match q
    case Val(_) =>
    case Not(p) => EndsAtFrame(items, items', cur - 1, p);
    case Bin(_, l, r) =>
      EndsAtFrame(items, items', cur - 1, r);
      EndsAtFrame(items, items', cur - 1 - Size(r), l);
  }

  lemma EndsAtNot(items: seq<Item>, cur: int, p: Query)
    ensures EndsAt(items, cur, Not(p)) <==>
            0 <= cur < |items| && items[cur] == Item(Negation, -1) && EndsAt(items, cur - 1, p)
  {
  }

  lemma EndsAtBin(items: seq<Item>, cur: int, op: BinOp, l: Query, r: Query)
    ensures EndsAt(items, cur, Bin(op, l, r)) <==>
            && 0 <= cur < |items| && items[cur] == Item(Binary(op), Int2(-1 - Size(r)))
            && EndsAt(items, cur - 1, r) && EndsAt(items, cur - 1 - Size(r), l)
  {
  }

  // Nothing but links has changed, and those only at positions lo + 1 .. hi.
  ghost predicate OnlyLinks(before: seq<Item>, after: seq<Item>, lo: int, hi: int) {
    && |after| == |before|
    && forall k :: 0 <= k < |before| ==> after[k].node == before[k].node && (!(lo < k <= hi) ==> after[k] == before[k])
  }

  /** findoprnd: one backward pass over the array that fills in the links of the query that ends at
      pos, and touches nothing else. */
  method FindOprnd(ptr: array<Item>, pos: int, ghost q: Query) returns (pos': int)
    requires NodesEndAt(ptr[..], pos, q)
    modifies ptr
    ensures pos' == pos - Size(q)
    ensures EndsAt(ptr[..], pos, q)
    ensures OnlyLinks(old(ptr[..]), ptr[..], pos', pos)
    decreases q, 1
  {
    pos' := pos;
    match ptr[pos].node {
      case Operand(_) =>
        ptr[pos] := ptr[pos].(left := 0);
        pos' := pos' - 1;
      case Negation =>
        ptr[pos] := ptr[pos].(left := -1);
        pos' := pos' - 1;
        NodesEndAtFrame(old(ptr[..]), ptr[..], pos', q.q);
        pos' := FindOprnd(ptr, pos', q.q);
        EndsAtNot(ptr[..], pos, q.q);
      case Binary(_) =>
        pos' := FindBinary(ptr, pos, q);
    }
  }

  // The branch for & and |: the right operand first, then the link, then the left operand.
  method FindBinary(ptr: array<Item>, pos: int, ghost q: Query) returns (pos': int)
    requires NodesEndAt(ptr[..], pos, q) && q.Bin?
    modifies ptr
    ensures pos' == pos - Size(q)
    ensures EndsAt(ptr[..], pos, q)
    ensures OnlyLinks(old(ptr[..]), ptr[..], pos', pos)
    decreases q, 0
  {
    var tmp := pos;
    pos' := FindOprnd(ptr, pos - 1, q.r);
    ghost var right := ptr[..];
    ptr[tmp] := ptr[tmp].(left := Int2(pos' - tmp));
    NodesEndAtFrame(old(ptr[..]), ptr[..], pos', q.l);
    pos' := FindOprnd(ptr, pos', q.l);
    EndsAtFrame(right, ptr[..], pos - 1, q.r);
    EndsAtBin(ptr[..], pos, q.op, q.l, q.r);
  }

  // ----- The evaluator -----

  // The truth of the query q that ends at cur, when chk decides each operand by its position.
  function EvalAt(q: Query, cur: int, chk: int -> bool, calcnot: bool): (b: bool) {
    match q
    case Val(_) => chk(cur)
    case Not(p) => !calcnot || !EvalAt(p, cur - 1, chk, calcnot)
    case Bin(op, l, r) => Apply(op, EvalAt(l, cur - 1 - Size(r), chk, calcnot), EvalAt(r, cur - 1, chk, calcnot))
  }

  // What a call of execute comes to.  It is lost when it leaves the array or the stack is used up.
  datatype Outcome = Answer(b: bool) | Lost

  /** execute: from cur follow the links; stack is how many nested calls there is room for. */
  function Execute(items: seq<Item>, cur: int, chk: int -> bool, calcnot: bool, stack: nat): (o: Outcome)
    decreases stack
  {
    if stack == 0 || !(0 <= cur < |items|) then Lost
    else
      match items[cur].node
      case Operand(_) => Answer(chk(cur))
      case Negation =>
        if calcnot then
          match Execute(items, cur - 1, chk, calcnot, stack - 1)
          case Answer(b) => Answer(if b then false else true)
          case Lost => Lost
        else Answer(true)
      case Binary(op) =>
        match Execute(items, cur + items[cur].left, chk, calcnot, stack - 1)
        case Answer(b) => if b == (op == AND) then Execute(items, cur - 1, chk, calcnot, stack - 1) else Answer(b)
        case Lost => Lost
  }

  // How deep the calls go when the links are right.
  function Height(q: Query): (h: nat)
    ensures h <= Size(q)
  {
    match q
    case Val(_) => 1
    case Not(p) => 1 + Height(p)
    case Bin(_, l, r) => 1 + if Height(l) < Height(r) then Height(r) else Height(l)
  }

  /** When every link fits its field, walking the array gives the value of the tree, with as many
      nested calls as the tree is high. */
  lemma {:induction false} ExecuteIsEval(items: seq<Item>, cur: int, q: Query, chk: int -> bool, calcnot: bool, stack: nat)
    requires EndsAt(items, cur, q) && LinksFit(q) && stack >= Height(q)
    ensures Execute(items, cur, chk, calcnot, stack) == Answer(EvalAt(q, cur, chk, calcnot))
    decreases q
  {
    match q
    case Val(_) =>
    case Not(p) => ExecuteIsEval(items, cur - 1, p, chk, calcnot, stack - 1);
    case Bin(op, l, r) =>
      EndsAtBin(items, cur, op, l, r);
      ExecuteIsEval(items, cur - 1 - Size(r), l, chk, calcnot, stack - 1);
      ExecuteIsEval(items, cur - 1, r, chk, calcnot, stack - 1);
  }

  // More stack does not change an answer.
  lemma {:induction false} MoreStack(items: seq<Item>, cur: int, chk: int -> bool, calcnot: bool, stack: nat, more: nat)
    requires Execute(items, cur, chk, calcnot, stack).Answer? && stack <= more
    ensures Execute(items, cur, chk, calcnot, more) == Execute(items, cur, chk, calcnot, stack)
    decreases stack
  {
    match items[cur].node
    case Operand(_) =>
    case Negation =>
      if calcnot {
        MoreStack(items, cur - 1, chk, calcnot, stack - 1, more - 1);
      }
    case Binary(op) =>
      MoreStack(items, cur + items[cur].left, chk, calcnot, stack - 1, more - 1);
      if Execute(items, cur + items[cur].left, chk, calcnot, stack - 1).b == (op == AND) {
        MoreStack(items, cur - 1, chk, calcnot, stack - 1, more - 1);
      }
  }

  // chk answers for each operand what f says of its value.
  ghost predicate Answers(items: seq<Item>, chk: int -> bool, f: int -> bool) {
    forall i :: 0 <= i < |items| && items[i].node.Operand? ==> chk(i) == f(items[i].node.val)
  }

  /** Deciding operands by position or by value is the same when the answers agree. */
  lemma {:induction false} EvalAtIsEval(items: seq<Item>, cur: int, q: Query, chk: int -> bool, f: int -> bool, calcnot: bool)
    requires NodesEndAt(items, cur, q) && Answers(items, chk, f)
    ensures EvalAt(q, cur, chk, calcnot) == Eval(q, f, calcnot)
  {
    match q
    case Val(_) =>
    case Not(p) => EvalAtIsEval(items, cur - 1, p, chk, f, calcnot);
    case Bin(_, l, r) =>
      EvalAtIsEval(items, cur - 1, r, chk, f, calcnot);
      EvalAtIsEval(items, cur - 1 - Size(r), l, chk, f, calcnot);
  }
}
