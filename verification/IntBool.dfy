/** bqarr_in, bqarr_out and boolop, step by step: the scanner and the parser with their mutable state,
    the copy of the node list into the item array, the printer, and the evaluator with its binary search. */
module IntBool {
  import opened Basics
  import opened CString
  import opened IntTool
  import opened IntQuery
  import opened IntLinks
  import opened IntParse
  import opened IntPrint
  import IntLex

  datatype Code = Done | BadSyntax | Complex

  // The operator stack as the list the parser's specification uses, top first.
  function Top(s: seq<Pending>): (l: List<Pending>)
    ensures Length(l) == |s|
  {
    if s == [] then Nil else Cons(s[|s| - 1], Top(s[..|s| - 1]))
  }

  // What the scanner finds where a number stands.
  lemma NumberIsFound(buf: string, start: nat, pos: nat, count: nat)
    requires start < pos <= |buf| && (IsDigit(buf[start]) || buf[start] == '-')
    requires AllDigits(buf[start + 1..pos]) && (pos == |buf| || !IsDigit(buf[pos]))
    ensures Lex(buf[start..], WaitOperand, count) ==
            if count > 0 && pos == |buf| then Cons(Err, Nil)
            else Cons(Value(Atoi(buf[start..pos])), Lex(buf[pos..], WaitOperator, count))
  {
    var s := buf[start..];
    DigitRunOf(buf[start + 1..pos], buf[pos..]);
    assert s[1..] == buf[start + 1..pos] + buf[pos..];
    assert s[..pos - start] == buf[start..pos] && s[pos - start..] == buf[pos..];
  }

  class WorkState {
    const buf: string
    var pos: nat
    var state: State
    var count: nat
    var str: List<Node>

    constructor (text: string)
      ensures Valid() && buf == text && str == Nil
      ensures Rest() == Lex(text, WaitOperand, 0)
      ensures pos == 0
    {
      buf := text;
      pos, state, count, str := 0, WaitOperand, 0, Nil;
      new;
      assert buf[0..] == text;
    }

    ghost predicate Valid()
      reads this
    {
      pos <= |buf|
    }

    // The tokens still to come.
    ghost function Rest(): (ts: List<Token>)
      requires Valid()
      reads this
    {
      Lex(buf[pos..], state, count)
    }

    /** gettoken: the next token, or None at the end of the text. */
    method GetToken() returns (tok: Option<Token>)
      requires Valid()
      modifies this`pos, this`state, this`count
      ensures Valid() && pos >= old(pos)
      ensures old(Rest()).Nil? ==> tok == None && Rest() == Nil
      ensures old(Rest()).Cons? ==> tok == Some(old(Rest()).head)
      ensures old(Rest()).Cons? && old(Rest()).head != Err ==> Rest() == old(Rest()).tail && pos > old(pos)
    {
      while pos < |buf| && buf[pos] == ' '
        invariant Valid() && pos >= old(pos)
        invariant Rest() == old(Rest())
      {
        assert buf[pos..][1..] == buf[pos + 1..];
        pos := pos + 1;
      }
      assert pos < |buf| ==> buf[pos..][0] == buf[pos] && buf[pos..][1..] == buf[pos + 1..];
      if state == WaitOperand {
        if pos < |buf| && (IsDigit(buf[pos]) || buf[pos] == '-') {
          tok := GetNumber();
        } else if pos < |buf| && buf[pos] == '!' {
          pos := pos + 1;
          tok := Some(Bang);
        } else if pos < |buf| && buf[pos] == '(' {
          count := count + 1;
          pos := pos + 1;
          tok := Some(Open);
        } else {
          tok := Some(Err);
        }
      } else if pos == |buf| {
        tok := if count > 0 then Some(Err) else None;
      } else if buf[pos] == '&' || buf[pos] == '|' {
        state := WaitOperand;
        tok := Some(if buf[pos] == '&' then Amp else Bar);
        pos := pos + 1;
      } else if buf[pos] == ')' {
        pos := pos + 1;
        if count == 0 {
          tok := Some(Err);
        } else {
          count := count - 1;
          tok := Some(Close);
        }
      } else {
        tok := Some(Err);
      }
    }

    // The state WAITENDOPERAND of gettoken: collect digits up to the first other character.
    method GetNumber() returns (tok: Option<Token>)
      requires Valid() && state == WaitOperand && pos < |buf| && (IsDigit(buf[pos]) || buf[pos] == '-')
      modifies this`pos, this`state
      ensures Valid() && pos > old(pos)
      ensures tok == Some(old(Rest()).head)
      ensures old(Rest()).head != Err ==> Rest() == old(Rest()).tail
    {
      ghost var start := pos;
      var nnn := [buf[pos]];
      pos := pos + 1;
      while pos < |buf| && IsDigit(buf[pos])
        invariant start < pos <= |buf|
        invariant nnn == buf[start..pos]
        invariant AllDigits(buf[start + 1..pos])
      {
        assert buf[start + 1..pos + 1] == buf[start + 1..pos] + [buf[pos]];
        nnn := nnn + [buf[pos]];
        pos := pos + 1;
      }
      NumberIsFound(buf, start, pos, count);
      state := WaitOperator;
      tok := Some(if count > 0 && pos == |buf| then Err else Value(Atoi(nnn)));
    }
  }

  ghost predicate Agrees(w: WorkState, code: Code, spec: Parsed)
    requires w.Valid()
    reads w
  {
    match spec
    case Parsed(rest, out) => code == Done && w.str == out && w.Rest() == rest
    case SyntaxError => code == BadSyntax
    case TooComplex => code == Complex
  }

  /** makepol: a stack of at most STACKDEPTH operators, the polish notation pushed on the list of w. */
  method MakePol(w: WorkState) returns (code: Code)
    requires w.Valid()
    modifies w
    ensures w.Valid() && w.pos >= old(w.pos)
    ensures Agrees(w, code, IntParse.MakePol(old(w.Rest()), Nil, old(w.str)))
    decreases |w.buf| - w.pos
  {
    ghost var spec := IntParse.MakePol(w.Rest(), Nil, w.str);
    var stack := new Pending[STACKDEPTH];
    var lenstack := 0;
    while true
      invariant w.Valid() && w.pos >= old(w.pos)
      invariant 0 <= lenstack <= STACKDEPTH
      invariant spec == IntParse.MakePol(w.Rest(), Top(stack[..lenstack]), w.str)
      decreases |w.buf| - w.pos
    {
      var tok := w.GetToken();
      match tok
      case None => break;
      case Some(Value(v)) =>
        w.str := Cons(Operand(v), w.str);
        lenstack := PopTightOps(w, stack, lenstack);
      case Some(Bang) =>
        if lenstack == STACKDEPTH {
          return Complex;
        }
        lenstack := PushOp(stack, lenstack, PNot);
      case Some(Amp) =>
        if lenstack == STACKDEPTH {
          return Complex;
        }
        lenstack := PushOp(stack, lenstack, PAnd);
      case Some(Bar) =>
        if lenstack > 0 {
          w.str := Cons(Binary(OR), w.str);
        } else {
          lenstack := PushOp(stack, lenstack, POr);
        }
      case Some(Open) =>
        code := MakePol(w);
        if code != Done {
          return;
        }
        lenstack := PopOneOp(w, stack, lenstack);
      case Some(Close) =>
        break;
      case Some(Err) =>
        return BadSyntax;
    }
    PopAllOps(w, stack, lenstack);
    code := Done;
  }

  method PushOp(stack: array<Pending>, len: nat, p: Pending) returns (len': nat)
    requires len < stack.Length
    modifies stack
    ensures len' == len + 1 && Top(stack[..len']) == Cons(p, Top(old(stack[..len])))
  {
    stack[len] := p;
    len' := len + 1;
    assert stack[..len'][..len] == old(stack[..len]);
  }

  method PopOneOp(w: WorkState, stack: array<Pending>, len: nat) returns (len': nat)
    requires len <= stack.Length
    modifies w`str
    ensures len' <= len
    ensures PopOne(Top(stack[..len]), old(w.str)) == (Top(stack[..len']), w.str)
  {
    len' := len;
    if len > 0 && (stack[len - 1] == PAnd || stack[len - 1] == PNot) {
      assert stack[..len][..len - 1] == stack[..len - 1];
      len' := len - 1;
      w.str := Cons(NodeOf(stack[len']), w.str);
    }
  }

  method PopTightOps(w: WorkState, stack: array<Pending>, len: nat) returns (len': nat)
    requires len <= stack.Length
    modifies w`str
    ensures len' <= len
    ensures PopTight(Top(stack[..len]), old(w.str)) == (Top(stack[..len']), w.str)
  {
    len' := len;
    while len' > 0 && (stack[len' - 1] == PAnd || stack[len' - 1] == PNot)
      invariant 0 <= len' <= len
      invariant PopTight(Top(stack[..len]), old(w.str)) == PopTight(Top(stack[..len']), w.str)
    {
      assert stack[..len'][..len' - 1] == stack[..len' - 1];
      len' := len' - 1;
      w.str := Cons(NodeOf(stack[len']), w.str);
    }
  }

  method PopAllOps(w: WorkState, stack: array<Pending>, len: nat)
    requires len <= stack.Length
    modifies w`str
    ensures w.str == PopAll(Top(stack[..len]), old(w.str))
  {
    var n := len;
    while n > 0
      invariant 0 <= n <= len
      invariant PopAll(Top(stack[..len]), old(w.str)) == PopAll(Top(stack[..n]), w.str)
    {
      assert stack[..n][..n - 1] == stack[..n - 1];
      n := n - 1;
      w.str := Cons(NodeOf(stack[n]), w.str);
    }
  }

  // ----- bqarr_in -----

  datatype Input = Items(items: array<Item>) | InputSyntaxError | InputTooComplex

  // The nodes at and before position cur are those of the list.
  predicate ListEndsAt(items: seq<Item>, cur: int, l: List<Node>) {
    l.Cons? ==> 0 <= cur < |items| && items[cur].node == l.head && ListEndsAt(items, cur - 1, l.tail)
  }

  lemma {:induction false} PushEndsAt(items: seq<Item>, cur: int, q: Query, out: List<Node>)
    requires ListEndsAt(items, cur, Push(q, out))
    ensures NodesEndAt(items, cur, q) && ListEndsAt(items, cur - Size(q), out)
    decreases q
  {
    match q
    case Val(_) =>
    case Not(p) => PushEndsAt(items, cur - 1, p, out);
    case Bin(_, l, r) =>
      PushEndsAt(items, cur - 1, r, Push(l, out));
      PushEndsAt(items, cur - 1 - Size(r), l, out);
  }

  // The nodes at positions hi, hi - 1, ..., lo + 1 are those of the list from up to its tail to.
  predicate Segment(items: seq<Item>, hi: int, lo: int, from: List<Node>, to: List<Node>)
    decreases hi - lo
  {
    if hi <= lo then hi == lo && from == to
    else 0 <= hi < |items| && from.Cons? && items[hi].node == from.head && Segment(items, hi - 1, lo, from.tail, to)
  }

  lemma {:induction false} SegmentExtend(items: seq<Item>, items': seq<Item>, hi: int, lo: int, from: List<Node>, to: List<Node>)
    requires Segment(items, hi, lo, from, to) && to.Cons? && 0 <= lo < |items'| == |items|
    requires items'[lo].node == to.head && forall k :: lo < k < |items| ==> items'[k] == items[k]
    ensures Segment(items', hi, lo - 1, from, to.tail)
    decreases hi - lo
  {
    if hi > lo {
      SegmentExtend(items, items', hi - 1, lo, from.tail, to);
    }
  }

  lemma {:induction false} SegmentIsList(items: seq<Item>, hi: int, l: List<Node>)
    requires hi >= -1 && Segment(items, hi, -1, l, Nil)
    ensures ListEndsAt(items, hi, l)
  {
    if hi > -1 {
      SegmentIsList(items, hi - 1, l.tail);
    }
  }

  lemma {:induction false} PushLength(q: Query, out: List<Node>)
    ensures Length(Push(q, out)) == Size(q) + Length(out)
    decreases q
  {
    match q
    case Val(_) =>
    case Not(p) => PushLength(p, out);
    case Bin(_, l, r) =>
      PushLength(r, Push(l, out));
      PushLength(l, out);
  }

  // Copy the list, latest node last.
  method Copy(str: List<Node>) returns (ptr: array<Item>)
    ensures fresh(ptr) && ptr.Length == Length(str)
    ensures ListEndsAt(ptr[..], ptr.Length - 1, str)
    decreases str
  {
    var num: int := CountNodes(str);
    ptr := new Item[num];
    var l, i := str, num - 1;
    while l.Cons?
      invariant -1 <= i < num && Length(l) == i + 1
      invariant Segment(ptr[..], num - 1, i, str, l)
      decreases l
    {
      ghost var before := ptr[..];
      ptr[i] := Item(l.head, 0);
      SegmentExtend(before, ptr[..], num - 1, i, str, l);
      l, i := l.tail, i - 1;
    }
    SegmentIsList(ptr[..], num - 1, str);
  }

  method CountNodes(str: List<Node>) returns (n: nat)
    ensures n == Length(str)
  {
    var l := str;
    n := 0;
    while l.Cons?
      invariant n + Length(l) == Length(str)
      decreases l
    {
      l, n := l.tail, n + 1;
    }
  }

  method StoreItems(str: List<Node>, ghost q: Query) returns (ptr: array<Item>)
    requires str == Push(q, Nil)
    ensures fresh(ptr) && Stores(ptr[..], q)
  {
    PushLength(q, Nil);
    ptr := Copy(str);
    PushEndsAt(ptr[..], ptr.Length - 1, q, Nil);
    var pos := FindOprnd(ptr, ptr.Length - 1, q);
  }

  /** bqarr_in, for a text that spells the units of e: the stored array holds the tree the parser builds,
      with its links, unless the operator stack is too small. */
  method BqarrIn(text: string, ghost e: Expr) returns (r: Input)
    requires IntLex.Spells(text, Tokens(e, Nil))
    ensures r.InputTooComplex? <==> !FitsStack(e, 0, 0)
    ensures !r.InputSyntaxError?
    ensures r.Items? ==> Stores(r.items[..], Built(e, FRESH))
  {
    var w := new WorkState(text);
    IntLex.LexExprIff(text, e);
    MakePolBuilds(e, Nil, Nil, FRESH);
    var code := MakePol(w);
    match code
    case Complex => return InputTooComplex;
    case BadSyntax => return InputSyntaxError;
    case Done =>
      var ptr := StoreItems(w.str, Built(e, FRESH));
      return Items(ptr);
  }

  // ----- bqarr_out -----

  /** infix: print the query that ends at cur, the right operand before the left one. */
  method Infix(items: seq<Item>, cur: int, first: bool, ghost q: Query) returns (cur': int, text: string)
    requires NodesEndAt(items, cur, q)
    ensures cur' == cur - Size(q) && text == Text(q, first)
    decreases q
  {
    match items[cur].node
    case Operand(v) =>
      cur', text := cur - 1, Decimal(v);
    case Negation =>
      var isopr := !items[cur - 1].node.Operand?;
      cur', text := Infix(items, cur - 1, isopr, q.q);
      text := "!" + if isopr then "( " + text + " )" else text;
    case Binary(op) =>
      var nrm;
      cur', nrm := Infix(items, cur - 1, false, q.r);
      cur', text := Infix(items, cur', false, q.l);
      text := text + (if op == AND then " & " else " | ") + nrm;
      if op == OR && !first {
        text := "( " + text + " )";
      }
  }

  /** bqarr_out. */
  method BqarrOut(items: seq<Item>, ghost q: Query) returns (text: string)
    requires NodesEndAt(items, |items| - 1, q)
    ensures text == Text(q, true)
  {
    var cur;
    cur, text := Infix(items, |items| - 1, true, q);
  }

  /** bqarr_out and then bqarr_in: what is stored answers on every set what q means exactly when q
      round-trips. */
  method OutThenIn(items: seq<Item>, ghost q: Query) returns (r: Input)
    requires Stores(items, q)
    ensures !r.InputSyntaxError?
    ensures RoundTrips(q) <==> r.Items? && Means(r.items[..], q)
  {
    var text := BqarrOut(items, q);
    LexText(q, true, [], 0);
    assert text + [] == text;
    IntLex.LexExprIff(text, Layout(q, true));
    r := BqarrIn(text, Layout(q, true));
    RereadBuilds(q);
    if r.Items? {
      ghost var q' := Built(Layout(q, true), FRESH);
      StoresIff(r.items[..], q');
      if RoundTrips(q) {
        ghost var p :| Reread(q) == Parsed(Nil, Push(p, Nil)) && Means(Stored(p), q);
        PushInjective(p, q', Nil, Nil);
      }
    }
  }

  // ----- boolop -----

  /** execute with checkcondition_arr, on a sorted array without repeats. */
  method ExecuteArr(items: seq<Item>, cur: int, arr: seq<int>, calcnot: bool, stack: nat) returns (o: Outcome)
    requires Strict(arr)
    ensures o == Execute(items, cur, Found(items, Elems(arr)), calcnot, stack)
    decreases stack
  {
    if stack == 0 || cur < 0 || cur >= |items| {
      return Lost;
    }
    match items[cur].node
    case Operand(v) =>
      var b := CheckConditionArr(arr, v);
      o := Answer(b);
    case Negation =>
      if !calcnot {
        return Answer(true);
      }
      o := ExecuteArr(items, cur - 1, arr, calcnot, stack - 1);
      if o.Answer? {
        o := Answer(!o.b);
      }
    case Binary(op) =>
      o := ExecuteArr(items, cur + items[cur].left, arr, calcnot, stack - 1);
      if o.Answer? && o.b == (op == AND) {
        o := ExecuteArr(items, cur - 1, arr, calcnot, stack - 1);
      }
  }

  // What boolop answers for an array.
  function Operator(val: seq<int>, items: seq<Item>, stack: nat): (o: Outcome) {
    if val == [] then Answer(false) else ExecuteOn(items, Elems(val), stack)
  }

  /** boolop: an empty array satisfies nothing; otherwise the array is sorted and the stored query
      executed, which decides the query when its links fit. */
  method Boolop(val: seq<int>, items: seq<Item>, stack: nat) returns (o: Outcome)
    ensures o == Operator(val, items, stack)
    ensures forall q :: Stores(items, q) && LinksFit(q) && stack >= Height(q) ==>
              o == Answer(val != [] && Eval(q, In(Elems(val)), true))
  {
    if val == [] {
      return Answer(false);
    }
    var a := new int[|val|](i requires 0 <= i < |val| => val[i]);
    assert a[..] == val;
    var n := Prepare(a);
    o := ExecuteArr(items, |items| - 1, a[..n], true, stack);
    forall q | Stores(items, q) && LinksFit(q) && stack >= Height(q)
      ensures ExecuteOn(items, Elems(val), stack) == Answer(Eval(q, In(Elems(val)), true))
    {
      ExecuteFoundIsEval(items, q, Elems(val), true, stack);
    }
  }
}
