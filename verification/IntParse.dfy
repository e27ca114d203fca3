/** The parser of intarray's boolean queries: makepol turns a stream of tokens into reverse polish
    notation with one small operator stack for each level of parentheses.  This module says exactly
    which tree it builds for every text with any number of ! in front of a number and at most one in front
    of a group. */
module IntParse {
  import opened IntQuery

  datatype List<T> = Nil | Cons(head: T, tail: List<T>)

  function Length<T>(l: List<T>): (n: nat) {
    if l.Nil? then 0 else 1 + Length(l.tail)
  }

  datatype Token = Value(v: int) | Bang | Amp | Bar | Open | Close | Err

  const STACKDEPTH := 16

  // An operator waiting on the stack.
  datatype Pending = PNot | PAnd | POr

  // The output is a list of nodes with the latest first.
  datatype Parsed = Parsed(rest: List<Token>, out: List<Node>) | SyntaxError | TooComplex

  function NodeOf(p: Pending): (n: Node) {
    match p
    case PNot => Negation
    case PAnd => Binary(AND)
    case POr => Binary(OR)
  }

  // Pop the whole stack to the output.
  function PopAll(stack: List<Pending>, out: List<Node>): (out': List<Node>) {
    if stack.Nil? then out else PopAll(stack.tail, Cons(NodeOf(stack.head), out))
  }

  // Pop the operators that bind tighter than |.
  function PopTight(stack: List<Pending>, out: List<Node>): (r: (List<Pending>, List<Node>)) {
    if stack.Nil? || stack.head == POr then (stack, out)
    else PopTight(stack.tail, Cons(NodeOf(stack.head), out))
  }

  // After a group at most one such operator is popped.
  function PopOne(stack: List<Pending>, out: List<Node>): (r: (List<Pending>, List<Node>)) {
    if stack.Nil? || stack.head == POr then (stack, out) else (stack.tail, Cons(NodeOf(stack.head), out))
  }

  // makepol, from a given token on, with the stack and the output it has at that point.
  function MakePol(toks: List<Token>, stack: List<Pending>, out: List<Node>): (r: Parsed)
    ensures r.Parsed? ==> Length(r.rest) <= Length(toks)
    decreases Length(toks)
  {
    if toks.Nil? then Parsed(Nil, PopAll(stack, out))
    else
      match toks.head
      case Value(v) =>
        var (stack', out') := PopTight(stack, Cons(Operand(v), out));
        MakePol(toks.tail, stack', out')
      case Bang => if Length(stack) == STACKDEPTH then TooComplex else MakePol(toks.tail, Cons(PNot, stack), out)
      case Amp => if Length(stack) == STACKDEPTH then TooComplex else MakePol(toks.tail, Cons(PAnd, stack), out)
      case Bar =>
        if stack.Cons? then MakePol(toks.tail, stack, Cons(Binary(OR), out))
        else MakePol(toks.tail, Cons(POr, Nil), out)
      case Open =>
        (match MakePol(toks.tail, Nil, out)
         case Parsed(rest, inner) =>
           var (stack', out') := PopOne(stack, inner);
           MakePol(rest, stack', out')
         case SyntaxError => SyntaxError
         case TooComplex => TooComplex)
      case Close => Parsed(toks.tail, PopAll(stack, out))
      case Err => SyntaxError
  }

  // ----- Texts -----

  // One level of a query text: units separated by & and |.  A unit is a number with any number of ! in
  // front, or a group in parentheses with at most one.
  datatype Expr = Last(u: Unit) | AndThen(u: Unit, rest: Expr) | OrThen(u: Unit, rest: Expr)
  datatype Unit = Num(bangs: nat, v: int) | Group(neg: bool, e: Expr)

  // The tokens of e, followed by those of tail.
  function Tokens(e: Expr, tail: List<Token>): (ts: List<Token>) {
    match e
    case Last(u) => UnitTokens(u, tail)
    case AndThen(u, r) => UnitTokens(u, Cons(Amp, Tokens(r, tail)))
    case OrThen(u, r) => UnitTokens(u, Cons(Bar, Tokens(r, tail)))
  }

  function UnitTokens(u: Unit, tail: List<Token>): (ts: List<Token>) {
    match u
    case Num(bangs, v) => Bangs(bangs, Cons(Value(v), tail))
    case Group(neg, e) => Bangs(if neg then 1 else 0, Cons(Open, Tokens(e, Cons(Close, tail))))
  }

  function Bangs(n: nat, tail: List<Token>): (ts: List<Token>) {
    if n == 0 then tail else Cons(Bang, Bangs(n - 1, tail))
  }

  // ----- The tree makepol builds -----

  // The state inside a level, between units: the alternatives already read, and the operands of the
  // & operators that still wait on the stack, one operand for each, the latest first.
  datatype Level = Level(alt: List<Query>, ws: List<Query>)

  const FRESH := Level(Nil, Nil)

  // w1 & (w2 & ( ... & q))
  function FoldAnd(ws: List<Query>, q: Query): (t: Query) {
    if ws.Nil? then q else FoldAnd(ws.tail, Bin(AND, ws.head, q))
  }

  // The operands after unit u with tree t: a number pops every waiting &, a group at most one.
  function AfterUnit(ws: List<Query>, u: Unit, t: Query): (ws': List<Query>)
    ensures ws'.Cons? && Length(ws') == WaitingAfter(u, Length(ws))
  {
    if u.Num? then Cons(FoldAnd(ws, t), Nil)
    else if u.neg || ws.Nil? then Cons(t, ws)
    else Cons(Bin(AND, ws.head, t), ws.tail)
  }

  function WaitingAfter(u: Unit, n: nat): (m: nat) {
    if u.Num? || n == 0 then 1 else if u.neg then n + 1 else n
  }

  function Alternative(alt: List<Query>, q: Query): (t: Query) {
    if alt.Nil? then q else Bin(OR, alt.head, q)
  }

  // After a |: with an & still waiting, the | joins the last two operands instead of closing the
  // alternative.
  function AfterBar(alt: List<Query>, ws: List<Query>): (l: Level)
    requires ws.Cons?
  {
    if ws.tail.Nil? then Level(Cons(Alternative(alt, ws.head), Nil), Nil)
    else Level(alt, Cons(Bin(OR, ws.tail.head, ws.head), ws.tail.tail))
  }

  // The tree built for the rest e of a level that has come to state l.
  function Built(e: Expr, l: Level): (t: Query)
    decreases e
  {
    var ws := AfterUnit(l.ws, e.u, BuiltUnit(e.u));
    match e
    case Last(u) => Alternative(l.alt, FoldAnd(ws.tail, ws.head))
    case AndThen(u, r) => Built(r, Level(l.alt, ws))
    case OrThen(u, r) => Built(r, AfterBar(l.alt, ws))
  }

  function BuiltUnit(u: Unit): (t: Query)
    decreases u
  {
    match u
    case Num(bangs, v) => Nots(bangs, Val(v))
    case Group(neg, e) => if neg then Not(Built(e, FRESH)) else Built(e, FRESH)
  }

  function Nots(n: nat, q: Query): (t: Query) {
    if n == 0 then q else Nots(n - 1, Not(q))
  }

  // The operator stack never needs more than STACKDEPTH places.  a is 1 when an alternative waits.
  predicate FitsStack(e: Expr, a: nat, n: nat)
    decreases e
  {
    var m := WaitingAfter(e.u, n);
    && UnitFitsStack(e.u, a, n)
    && match e
       case Last(_) => true
       case AndThen(_, r) => a + m - 1 < STACKDEPTH && FitsStack(r, a, m)
       case OrThen(_, r) => if m == 1 then FitsStack(r, 1, 0) else FitsStack(r, a, m - 1)
  }

  predicate UnitFitsStack(u: Unit, a: nat, n: nat)
    decreases u
  {
    match u
    case Num(bangs, _) => bangs > 0 ==> a + n + bangs <= STACKDEPTH
    case Group(neg, e) => (neg ==> a + n < STACKDEPTH) && FitsStack(e, 0, 0)
  }

  // The polish notation of q appended to out.
  function Push(q: Query, out: List<Node>): (out': List<Node>) {
    match q
    case Val(v) => Cons(Operand(v), out)
    case Not(p) => Cons(Negation, Push(p, out))
    case Bin(op, l, r) => Cons(Binary(op), Push(r, Push(l, out)))
  }

  function PushAll(qs: List<Query>, out: List<Node>): (out': List<Node>) {
    if qs.Nil? then out else Push(qs.head, PushAll(qs.tail, out))
  }

  function Output(pre: List<Node>, l: Level): (out: List<Node>) {
    PushAll(l.ws, PushAll(l.alt, pre))
  }

  // The stack when a alternatives (0 or 1) and n operators & wait.
  function Ops(a: nat, n: nat): (s: List<Pending>)
    ensures a <= 1 ==> Length(s) == a + n
  {
    if n > 0 then Cons(PAnd, Ops(a, n - 1)) else if a == 0 then Nil else Cons(POr, Nil)
  }

  predicate Proper(l: Level) {
    Length(l.alt) <= 1 && Length(l.alt) + Length(l.ws) <= STACKDEPTH
  }

  // ----- makepol builds exactly that tree -----

  lemma {:induction false} PopTightFolds(a: nat, ws: List<Query>, q: Query, base: List<Node>)
    requires a <= 1
    ensures PopTight(Ops(a, Length(ws)), Push(q, PushAll(ws, base))) == (Ops(a, 0), Push(FoldAnd(ws, q), base))
  {
    if ws.Cons? {
      PopTightFolds(a, ws.tail, Bin(AND, ws.head, q), base);
    }
  }

  lemma {:induction false} PopAllFolds(alt: List<Query>, ws: List<Query>, q: Query, pre: List<Node>)
    requires Length(alt) <= 1
    ensures PopAll(Ops(Length(alt), Length(ws)), Push(q, PushAll(ws, PushAll(alt, pre)))) ==
            Push(Alternative(alt, FoldAnd(ws, q)), pre)
  {
    if ws.Cons? {
      PopAllFolds(alt, ws.tail, Bin(AND, ws.head, q), pre);
    }
  }

  /** From state l of a level on, makepol reads the rest e of the level and its closing parenthesis
      (or the end of the text) and has then written the polish notation of Built(e, l), unless the
      operator stack overflows. */
  lemma {:induction false} MakePolBuilds(e: Expr, tail: List<Token>, pre: List<Node>, l: Level)
    requires Proper(l)
    requires tail.Nil? || tail.head == Close
    ensures MakePol(Tokens(e, tail), Ops(Length(l.alt), Length(l.ws)), Output(pre, l)) ==
            if FitsStack(e, Length(l.alt), Length(l.ws))
            then Parsed(if tail.Nil? then Nil else tail.tail, Push(Built(e, l), pre))
            else TooComplex
    decreases e
  {
    var u := e.u;
    var ws := AfterUnit(l.ws, u, BuiltUnit(u));
    match e {
      case Last(_) =>
        UnitStep(u, tail, pre, l);
        EndStep(tail, pre, l.alt, ws);
      case AndThen(_, r) =>
        UnitStep(u, Cons(Amp, Tokens(r, tail)), pre, l);
        AmpStep(Tokens(r, tail), pre, l.alt, ws);
        if Length(l.alt) + Length(ws) <= STACKDEPTH {
          MakePolBuilds(r, tail, pre, Level(l.alt, ws));
        }
      case OrThen(_, r) =>
        UnitStep(u, Cons(Bar, Tokens(r, tail)), pre, l);
        BarStep(Tokens(r, tail), pre, l.alt, ws);
        MakePolBuilds(r, tail, pre, AfterBar(l.alt, ws));
    }
  }

  // What follows a unit: the end of the level, an &, or a |.
  lemma EndStep(tail: List<Token>, pre: List<Node>, alt: List<Query>, ws: List<Query>)
    requires Length(alt) <= 1 && ws.Cons? && (tail.Nil? || tail.head == Close)
    ensures MakePol(tail, Ops(Length(alt), Length(ws) - 1), Output(pre, Level(alt, ws))) ==
            Parsed(if tail.Nil? then Nil else tail.tail, Push(Alternative(alt, FoldAnd(ws.tail, ws.head)), pre))
  {
    PopAllFolds(alt, ws.tail, ws.head, pre);
  }

  lemma AmpStep(more: List<Token>, pre: List<Node>, alt: List<Query>, ws: List<Query>)
    requires Length(alt) <= 1 && ws.Cons?
    ensures var a, n, out := Length(alt), Length(ws), Output(pre, Level(alt, ws));
            MakePol(Cons(Amp, more), Ops(a, n - 1), out) ==
            if a + n - 1 == STACKDEPTH then TooComplex else MakePol(more, Ops(a, n), out)
  {
  }

  lemma BarStep(more: List<Token>, pre: List<Node>, alt: List<Query>, ws: List<Query>)
    requires Length(alt) <= 1 && ws.Cons?
    ensures var l := AfterBar(alt, ws);
            MakePol(Cons(Bar, more), Ops(Length(alt), Length(ws) - 1), Output(pre, Level(alt, ws))) ==
            MakePol(more, Ops(Length(l.alt), Length(l.ws)), Output(pre, l))
  {
    var l := AfterBar(alt, ws);
    var base := PushAll(alt, pre);
    if ws.tail.Cons? {
      assert PushAll(ws, base) == Push(ws.head, Push(ws.tail.head, PushAll(ws.tail.tail, base)));
    } else {
      assert PushAll(ws, base) == Push(ws.head, base);
      if alt.Cons? {
        assert alt.tail.Nil?;
        assert PushAll(alt.tail, pre) == pre;
      }
    }
  }

  // Some ! are put on the stack, if there is room.
  function Waits(n: nat, stack: List<Pending>): (s: List<Pending>)
    ensures Length(s) == n + Length(stack)
  {
    if n == 0 then stack else Waits(n - 1, Cons(PNot, stack))
  }

  lemma {:induction false} BangsStep(n: nat, more: List<Token>, stack: List<Pending>, out: List<Node>)
    requires Length(stack) <= STACKDEPTH
    ensures MakePol(Bangs(n, more), stack, out) ==
            if n > 0 && n + Length(stack) > STACKDEPTH then TooComplex else MakePol(more, Waits(n, stack), out)
  {
    if n > 0 && Length(stack) < STACKDEPTH {
      BangsStep(n - 1, more, Cons(PNot, stack), out);
    }
  }

  // They are popped with the number.
  lemma {:induction false} PopNots(n: nat, stack: List<Pending>, q: Query, out: List<Node>)
    ensures PopTight(Waits(n, stack), Push(q, out)) == PopTight(stack, Push(Nots(n, q), out))
  {
    if n > 0 {
      PopNotsLast(n - 1, stack, q, out);
      PopNots(n - 1, stack, Not(q), out);
    }
  }

  lemma {:induction false} PopNotsLast(n: nat, stack: List<Pending>, q: Query, out: List<Node>)
    ensures PopTight(Waits(n + 1, stack), Push(q, out)) == PopTight(Waits(n, stack), Push(Not(q), out))
  {
    WaitsHead(n, stack);
  }

  lemma {:induction false} WaitsHead(n: nat, stack: List<Pending>)
    ensures Waits(n + 1, stack) == Cons(PNot, Waits(n, stack))
  {
    if n > 0 {
      WaitsHead(n - 1, Cons(PNot, stack));
    }
  }

  // One unit: its tokens are read, its tree becomes an operand, and waiting operators are popped.
  lemma {:induction false} UnitStep(u: Unit, more: List<Token>, pre: List<Node>, l: Level)
    requires Proper(l)
    ensures var a, n := Length(l.alt), Length(l.ws);
            var ws := AfterUnit(l.ws, u, BuiltUnit(u));
            MakePol(UnitTokens(u, more), Ops(a, n), Output(pre, l)) ==
            if UnitFitsStack(u, a, n) then MakePol(more, Ops(a, Length(ws) - 1), Output(pre, Level(l.alt, ws)))
            else TooComplex
    decreases u
  {
    match u
    case Num(bangs, v) => NumberStep(bangs, v, more, pre, l);
    case Group(neg, e) =>
      assert Output(Output(pre, l), FRESH) == Output(pre, l);
      MakePolBuilds(e, Cons(Close, more), Output(pre, l), FRESH);
      var stack := Ops(Length(l.alt), Length(l.ws));
      var ts := Cons(Open, Tokens(e, Cons(Close, more)));
      BangsStep(if neg then 1 else 0, ts, stack, Output(pre, l));
      assert Waits(1, stack) == Cons(PNot, stack);
  }

  lemma NumberStep(bangs: nat, v: int, more: List<Token>, pre: List<Node>, l: Level)
    requires Proper(l)
    ensures var a, n := Length(l.alt), Length(l.ws);
            MakePol(Bangs(bangs, Cons(Value(v), more)), Ops(a, n), Output(pre, l)) ==
            if bangs > 0 && a + n + bangs > STACKDEPTH then TooComplex
            else MakePol(more, Ops(a, 0), Output(pre, Level(l.alt, Cons(FoldAnd(l.ws, Nots(bangs, Val(v))), Nil))))
  {
    var a, n, t := Length(l.alt), Length(l.ws), Nots(bangs, Val(v));
    var out, base := Output(pre, l), PushAll(l.alt, pre);
    BangsStep(bangs, Cons(Value(v), more), Ops(a, n), out);
    PopNots(bangs, Ops(a, n), Val(v), out);
    PopTightFolds(a, l.ws, t, base);
    assert PushAll(Cons(FoldAnd(l.ws, t), Nil), base) == Push(FoldAnd(l.ws, t), base);
  }

  // ----- Repeated negation -----

  // !!(1 | 2) | 3
  const REPEATED_BANG := Cons(Bang, Cons(Bang, Cons(Open, Cons(Value(1), Cons(Bar, Cons(Value(2), Cons(Close,
                         Cons(Bar, Cons(Value(3), Nil)))))))))

  const ONE_OR_TWO := Cons(Binary(OR), Cons(Operand(2), Cons(Operand(1), Nil)))

  /** With two ! in front of a group one of them is left waiting, and the text may give no tree at all:
      !!(1 | 2) | 3 gives 1 2 | ! | 3 !, in which the second | has only one operand. */
  lemma RepeatedBangGivesNoTree()
    ensures MakePol(REPEATED_BANG, Nil, Nil) ==
            Parsed(Nil, Cons(Negation, Cons(Operand(3), Cons(Binary(OR), Cons(Negation, ONE_OR_TWO)))))
    ensures forall q :: MakePol(REPEATED_BANG, Nil, Nil) != Parsed(Nil, Push(q, Nil))
  {
    var one := Cons(PNot, Nil);
    var after := Cons(Bar, Cons(Value(3), Nil));
    var out := Cons(Binary(OR), Cons(Negation, ONE_OR_TWO));
    assert MakePol(Cons(Value(3), Nil), one, out) == Parsed(Nil, Cons(Negation, Cons(Operand(3), out)));
    assert MakePol(after, one, Cons(Negation, ONE_OR_TWO)) == Parsed(Nil, Cons(Negation, Cons(Operand(3), out)));
    assert MakePol(Cons(Bar, Cons(Value(2), Cons(Close, after))), Nil, Cons(Operand(1), Nil)) == Parsed(after, ONE_OR_TWO) by {
      assert MakePol(Cons(Close, after), Cons(POr, Nil), Cons(Operand(2), Cons(Operand(1), Nil))) == Parsed(after, ONE_OR_TWO);
    }
    forall q ensures Push(q, Nil) != Cons(Negation, Cons(Operand(3), out)) {
      if q.Not? && q.q.Val? {
        assert Push(q, Nil) == Cons(Negation, Cons(Operand(q.q.v), Nil));
      }
    }
  }
}
