/** The printer of intarray's boolean queries, and what reading its output back gives. */
module IntPrint {
  import opened CString
  import opened IntQuery
  import opened IntLinks
  import opened IntParse
  import opened IntPrecedence

  // ----- The text infix writes, as units -----

  function Join(e: Expr, op: BinOp, e': Expr): (j: Expr) {
    match e
    case Last(u) => if op == AND then AndThen(u, e') else OrThen(u, e')
    case AndThen(u, r) => AndThen(u, Join(r, op, e'))
    case OrThen(u, r) => OrThen(u, Join(r, op, e'))
  }

  // infix puts parentheses around a negated operator and around an | that is not outermost.
  function Layout(q: Query, first: bool): (e: Expr) {
    match q
    case Val(v) => Last(Num(0, v))
    case Not(p) => Last(if p.Val? then Num(1, p.v) else Group(true, Layout(p, true)))
    case Bin(op, l, r) =>
      var e := Join(Layout(l, false), op, Layout(r, false));
      if op == OR && !first then Last(Group(false, e)) else e
  }

  predicate NoBar(e: Expr) {
    !e.OrThen? && (e.AndThen? ==> NoBar(e.rest))
  }

  lemma {:induction false} JoinNoBar(e: Expr, e': Expr)
    requires NoBar(e) && NoBar(e')
    ensures NoBar(Join(e, AND, e'))
  {
    if e.AndThen? {
      JoinNoBar(e.rest, e');
    }
  }

  lemma {:induction false} InnerLayoutNoBar(q: Query)
    ensures NoBar(Layout(q, false))
  {
    if q.Bin? {
      InnerLayoutNoBar(q.l);
      InnerLayoutNoBar(q.r);
      JoinNoBar(Layout(q.l, false), Layout(q.r, false));
    }
  }

  lemma {:induction false} DenoteJoin(e: Expr, op: BinOp, e': Expr, f: int -> bool, a: bool)
    requires NoBar(e) && (op == AND ==> NoBar(e'))
    ensures Denote(Join(e, op, e'), f, a, false) == if op == AND then Denote(e', f, Denote(e, f, a, false), false)
                                                    else Denote(e, f, a, false) || Denote(e', f, true, false)
    decreases e
  {
    if e.AndThen? {
      DenoteJoin(e.rest, op, e', f, a && DenoteUnit(e.u, f, false));
    }
  }

  lemma {:induction false} DenoteNoBar(e: Expr, f: int -> bool, a: bool)
    requires NoBar(e)
    ensures Denote(e, f, a, false) == (a && Denote(e, f, true, false))
    decreases e
  {
    if e.AndThen? {
      DenoteNoBar(e.rest, f, a && DenoteUnit(e.u, f, false));
      DenoteNoBar(e.rest, f, DenoteUnit(e.u, f, false));
    }
  }

  /** The printer writes enough parentheses: with the usual precedence its text means the query. */
  lemma {:induction false} LayoutMeansQuery(q: Query, first: bool, f: int -> bool)
    ensures Meaning(Layout(q, first), f) == Eval(q, f, true)
    decreases q
  {
    UnitMeaning(Layout(q, first).u, f);
    match q
    case Val(_) =>
    case Not(p) =>
      if !p.Val? {
        LayoutMeansQuery(p, true, f);
      }
    case Bin(op, l, r) =>
      InnerLayoutNoBar(l);
      InnerLayoutNoBar(r);
      LayoutMeansQuery(l, false, f);
      LayoutMeansQuery(r, false, f);
      var el, er := Layout(l, false), Layout(r, false);
      DenoteJoin(el, op, er, f, true);
      DenoteNoBar(er, f, Denote(el, f, true, false));
  }

  lemma UnitMeaning(u: Unit, f: int -> bool)
    ensures Meaning(Last(u), f) == DenoteUnit(u, f, false)
    ensures u.Group? ==> DenoteUnit(u, f, false) == (Meaning(u.e, f) != u.neg)
  {
  }

  // ----- Characters -----

  // What sprintf writes for %d.
  function Decimal(v: int): (s: string)
    ensures s != []
  {
    if v < 0 then "-" + Digits(-v) else Digits(v)
  }

  // What atoi reads.
  function Atoi(s: string): (v: int) {
    if s != [] && s[0] == '-' then -NatOf(s[1..]) else NatOf(s)
  }

  function Text(q: Query, first: bool): (s: string) {
    match q
    case Val(v) => Decimal(v)
    case Not(p) => "!" + if p.Val? then Text(p, false) else "( " + Text(p, true) + " )"
    case Bin(op, l, r) =>
      var s := Text(l, false) + (if op == AND then " & " else " | ") + Text(r, false);
      if op == OR && !first then "( " + s + " )" else s
  }

  // ----- gettoken -----

  datatype State = WaitOperand | WaitOperator

  // All the tokens gettoken finds in s; count is the number of open parentheses.
  function Lex(s: string, st: State, count: nat): (ts: List<Token>)
    decreases |s|
  {
    match st
    case WaitOperand =>
      if s == [] then Cons(Err, Nil)
      else if IsDigit(s[0]) || s[0] == '-' then
        var n := 1 + DigitRun(s[1..]);
        if count > 0 && n == |s| then Cons(Err, Nil)
        else Cons(Value(Atoi(s[..n])), Lex(s[n..], WaitOperator, count))
      else if s[0] == '!' then Cons(Bang, Lex(s[1..], WaitOperand, count))
      else if s[0] == '(' then Cons(Open, Lex(s[1..], WaitOperand, count + 1))
      else if s[0] == ' ' then Lex(s[1..], WaitOperand, count)
      else Cons(Err, Nil)
    case WaitOperator =>
      if s == [] then if count > 0 then Cons(Err, Nil) else Nil
      else if s[0] == '&' then Cons(Amp, Lex(s[1..], WaitOperand, count))
      else if s[0] == '|' then Cons(Bar, Lex(s[1..], WaitOperand, count))
      else if s[0] == ')' then
        if count == 0 then Cons(Err, Nil) else Cons(Close, Lex(s[1..], WaitOperator, count - 1))
      else if s[0] == ' ' then Lex(s[1..], WaitOperator, count)
      else Cons(Err, Nil)
  }

  // What may follow a printed operand: a blank, or the end of the text outside all parentheses.
  predicate Follows(tail: string, count: nat) {
    if tail == [] then count == 0 else tail[0] == ' '
  }

  lemma LexDecimal(v: int, tail: string, count: nat)
    requires Follows(tail, count)
    ensures Lex(Decimal(v) + tail, WaitOperand, count) == Cons(Value(v), Lex(tail, WaitOperator, count))
  {
    var d := Decimal(v);
    var s := d + tail;
    var ds := Digits(if v < 0 then -v else v);
    DigitsRoundTrip(if v < 0 then -v else v);
    if v < 0 {
      assert s[1..] == ds + tail && d[1..] == ds;
      DigitRunOf(ds, tail);
    } else {
      assert s[1..] == ds[1..] + tail;
      DigitRunOf(ds[1..], tail);
    }
    assert s[..|d|] == d && s[|d|..] == tail;
  }

  lemma LexOpen(s: string, count: nat)
    ensures Lex("( " + s, WaitOperand, count) == Cons(Open, Lex(s, WaitOperand, count + 1))
  {
    assert ("( " + s)[1..] == " " + s;
    assert (" " + s)[1..] == s;
  }

  lemma LexClose(s: string, count: nat)
    requires count > 0
    ensures Lex(" )" + s, WaitOperator, count) == Cons(Close, Lex(s, WaitOperator, count - 1))
  {
    assert (" )" + s)[1..] == ")" + s;
    assert (")" + s)[1..] == s;
  }

  lemma LexOperator(op: BinOp, s: string, count: nat)
    ensures var sep := if op == AND then " & " else " | ";
            Lex(sep + s, WaitOperator, count) == Cons(if op == AND then Amp else Bar, Lex(s, WaitOperand, count))
  {
    var c := if op == AND then "&" else "|";
    var sep := if op == AND then " & " else " | ";
    assert (sep + s)[1..] == c + " " + s;
    assert Lex(sep + s, WaitOperator, count) == Lex(c + " " + s, WaitOperator, count);
    assert (c + " " + s)[1..] == " " + s;
    assert (" " + s)[1..] == s;
    assert Lex(" " + s, WaitOperand, count) == Lex(s, WaitOperand, count);
  }

  // A parenthesised text, when the text inside is read as e.
  lemma LexGroup(body: string, e: Expr, tail: string, count: nat)
    requires Lex(body + (" )" + tail), WaitOperand, count + 1) == Tokens(e, Lex(" )" + tail, WaitOperator, count + 1))
    ensures Lex("( " + body + " )" + tail, WaitOperand, count) ==
            Cons(Open, Tokens(e, Cons(Close, Lex(tail, WaitOperator, count))))
  {
    assert "( " + body + " )" + tail == "( " + (body + (" )" + tail));
    LexOpen(body + (" )" + tail), count);
    LexClose(tail, count + 1);
  }

  lemma {:induction false} TokensJoin(e: Expr, op: BinOp, e': Expr, tail: List<Token>)
    ensures Tokens(Join(e, op, e'), tail) == Tokens(e, Cons(if op == AND then Amp else Bar, Tokens(e', tail)))
  {
    if !e.Last? {
      TokensJoin(e.rest, op, e', tail);
    }
  }

  lemma LexBang(s: string, count: nat)
    ensures Lex("!" + s, WaitOperand, count) == Cons(Bang, Lex(s, WaitOperand, count))
  {
    assert ("!" + s)[1..] == s;
  }

  lemma LexNotNum(v: int, first: bool, tail: string, count: nat)
    requires Follows(tail, count)
    ensures Lex(Text(Not(Val(v)), first) + tail, WaitOperand, count) ==
            Tokens(Layout(Not(Val(v)), first), Lex(tail, WaitOperator, count))
  {
    LexDecimal(v, tail, count);
    LexBang(Decimal(v) + tail, count);
    assert Text(Val(v), false) == Decimal(v);
    assert Text(Not(Val(v)), first) + tail == "!" + (Decimal(v) + tail);
    var ts := Cons(Value(v), Lex(tail, WaitOperator, count));
    assert Bangs(1, ts) == Cons(Bang, Bangs(0, ts)) == Cons(Bang, ts);
  }

  lemma LexNotGroup(p: Query, first: bool, tail: string, count: nat)
    requires !p.Val?
    requires Lex(Text(p, true) + (" )" + tail), WaitOperand, count + 1) ==
             Tokens(Layout(p, true), Lex(" )" + tail, WaitOperator, count + 1))
    ensures Lex(Text(Not(p), first) + tail, WaitOperand, count) ==
            Tokens(Layout(Not(p), first), Lex(tail, WaitOperator, count))
  {
    var s := "( " + Text(p, true) + " )";
    LexGroup(Text(p, true), Layout(p, true), tail, count);
    LexBang(s + tail, count);
    assert Text(Not(p), first) + tail == "!" + (s + tail);
  }

  /** gettoken finds in the printed text the tokens of its layout. */
  lemma {:induction false} LexText(q: Query, first: bool, tail: string, count: nat)
    requires Follows(tail, count)
    ensures Lex(Text(q, first) + tail, WaitOperand, count) == Tokens(Layout(q, first), Lex(tail, WaitOperator, count))
    decreases q, 1
  {
    match q
    case Val(v) => LexDecimal(v, tail, count);
    case Not(p) =>
      if p.Val? {
        LexNotNum(p.v, first, tail, count);
      } else {
        LexText(p, true, " )" + tail, count + 1);
        LexNotGroup(p, first, tail, count);
      }
    case Bin(op, l, r) =>
      if op == OR && !first {
        LexBinary(q, " )" + tail, count + 1);
        LexGroup(Text(l, false) + " | " + Text(r, false), Join(Layout(l, false), OR, Layout(r, false)), tail, count);
      } else {
        LexBinary(q, tail, count);
      }
  }

  lemma {:induction false} LexBinary(q: Query, tail: string, count: nat)
    requires q.Bin? && Follows(tail, count)
    ensures var s := Text(q.l, false) + (if q.op == AND then " & " else " | ") + Text(q.r, false);
            Lex(s + tail, WaitOperand, count) ==
            Tokens(Join(Layout(q.l, false), q.op, Layout(q.r, false)), Lex(tail, WaitOperator, count))
    decreases q, 0
  {
    var sep := if q.op == AND then " & " else " | ";
    var s := Text(q.l, false) + sep + Text(q.r, false);
    var more := sep + (Text(q.r, false) + tail);
    assert s + tail == Text(q.l, false) + more;
    LexText(q.r, false, tail, count);
    LexOperator(q.op, Text(q.r, false) + tail, count);
    LexText(q.l, false, more, count);
    TokensJoin(Layout(q.l, false), q.op, Layout(q.r, false), Lex(tail, WaitOperator, count));
  }

  // ----- Printing and reading back -----

  // What bqarr_in makes of the text bqarr_out writes for q.
  function Reread(q: Query): (r: Parsed) {
    MakePol(Lex(Text(q, true), WaitOperand, 0), Nil, Nil)
  }

  // What is stored for the text answers, on every set, what q means.
  ghost predicate RoundTrips(q: Query) {
    exists q' :: Reread(q) == Parsed(Nil, Push(q', Nil)) && Means(Stored(q'), q)
  }

  // The condition on the printed text: the operator stack suffices, no & waits at a |, and the links of
  // what is read fit.
  predicate ReadsBack(q: Query) {
    var e := Layout(q, true);
    FitsStack(e, 0, 0) && Safe(e) && LinksFit(Built(e, FRESH))
  }

  lemma RereadBuilds(q: Query)
    ensures var e := Layout(q, true);
            Reread(q) == if FitsStack(e, 0, 0) then Parsed(Nil, Push(Built(e, FRESH), Nil)) else TooComplex
  {
    assert Text(q, true) + [] == Text(q, true);
    LexText(q, true, [], 0);
    MakePolBuilds(Layout(q, true), Nil, Nil, FRESH);
  }

  lemma SafeTextMeansQuery(q: Query, s: set<int>)
    requires Safe(Layout(q, true))
    ensures Eval(Built(Layout(q, true), FRESH), In(s), true) == Eval(q, In(s), true)
  {
    SafeIsStandard(Layout(q, true), In(s));
    LayoutMeansQuery(q, true, In(s));
  }

  /** Printing a query and reading it back keeps its meaning whenever the condition holds. */
  lemma RoundTripWhenReadsBack(q: Query)
    requires ReadsBack(q)
    ensures RoundTrips(q)
  {
    var q' := Built(Layout(q, true), FRESH);
    RereadBuilds(q);
    StoresIff(Stored(q'), q');
    forall s: set<int> ensures Says(Stored(q'), s, Eval(q, In(s), true)) {
      SafeTextMeansQuery(q, s);
      FittingLinksSay(Stored(q'), q', s);
    }
  }

  lemma {:induction false} PushInjective(q: Query, q': Query, out: List<Node>, out': List<Node>)
    requires Push(q, out) == Push(q', out')
    ensures q == q' && out == out'
    decreases q
  {
    match q
    case Val(_) =>
    case Not(p) => PushInjective(p, q'.q, out, out');
    case Bin(_, l, r) =>
      PushInjective(r, q'.r, Push(l, out), Push(q'.l, out'));
      PushInjective(l, q'.l, out, out');
  }

  lemma {:induction false} JoinSeparate(e: Expr, op: BinOp, e': Expr)
    ensures ExprValues(Join(e, op, e')) == ExprValues(e) + ExprValues(e')
    ensures Separate(e) && Separate(e') && ExprValues(e) !! ExprValues(e') ==> Separate(Join(e, op, e'))
  {
    if !e.Last? {
      JoinSeparate(e.rest, op, e');
    }
  }

  lemma {:induction false} LayoutSeparate(q: Query, first: bool)
    ensures ExprValues(Layout(q, first)) == Values(q)
    ensures DistinctValues(q) ==> Separate(Layout(q, first))
    decreases q
  {
    match q
    case Val(_) =>
    case Not(p) =>
      if !p.Val? {
        LayoutSeparate(p, true);
      }
    case Bin(op, l, r) =>
      LayoutSeparate(l, false);
      LayoutSeparate(r, false);
      JoinSeparate(Layout(l, false), op, Layout(r, false));
  }

  // ----- The values of what is built -----

  function AllValues(qs: List<Query>): (s: set<int>) {
    if qs.Nil? then {} else Values(qs.head) + AllValues(qs.tail)
  }

  predicate AllDistinct(qs: List<Query>) {
    qs.Nil? || (DistinctValues(qs.head) && AllDistinct(qs.tail) && Values(qs.head) !! AllValues(qs.tail))
  }

  lemma JoinTop(op: BinOp, q: Query, w: Query, ws: List<Query>)
    requires AllDistinct(Cons(q, Cons(w, ws)))
    ensures AllDistinct(Cons(Bin(op, w, q), ws))
    ensures AllValues(Cons(Bin(op, w, q), ws)) == AllValues(Cons(q, Cons(w, ws)))
  {
    assert AllDistinct(Cons(w, ws)) && AllValues(Cons(w, ws)) == Values(w) + AllValues(ws);
  }

  lemma {:induction false} FoldValues(ws: List<Query>, q: Query)
    ensures Values(FoldAnd(ws, q)) == AllValues(ws) + Values(q)
    ensures AllDistinct(Cons(q, ws)) ==> DistinctValues(FoldAnd(ws, q))
    decreases ws
  {
    if ws.Cons? {
      if AllDistinct(Cons(q, ws)) {
        JoinTop(AND, q, ws.head, ws.tail);
      }
      FoldValues(ws.tail, Bin(AND, ws.head, q));
    }
  }

  // All the operands of a state, none of whose values occurs twice.
  predicate Apart(l: Level) {
    AllDistinct(l.alt) && AllDistinct(l.ws) && AllValues(l.alt) !! AllValues(l.ws)
  }

  lemma {:induction false} NotsValues(n: nat, q: Query)
    ensures Values(Nots(n, q)) == Values(q) && (DistinctValues(Nots(n, q)) <==> DistinctValues(q))
  {
    if n > 0 {
      NotsValues(n - 1, Not(q));
    }
  }

  lemma {:induction false} AfterUnitValues(ws: List<Query>, u: Unit)
    requires UnitSeparate(u) && AllDistinct(ws) && AllValues(ws) !! UnitValues(u)
    ensures AllValues(AfterUnit(ws, u, BuiltUnit(u))) == AllValues(ws) + UnitValues(u)
    ensures AllDistinct(AfterUnit(ws, u, BuiltUnit(u)))
    decreases u
  {
    if u.Group? {
      BuiltValues(u.e, FRESH);
    } else {
      NotsValues(u.bangs, Val(u.v));
    }
    var t := BuiltUnit(u);
    assert Values(t) == UnitValues(u) && DistinctValues(t);
    FoldValues(ws, t);
    assert AllValues(Cons(FoldAnd(ws, t), Nil)) == Values(FoldAnd(ws, t));
  }

  /** What is built has exactly the values of the text, and each once when the text has each once. */
  lemma {:induction false} BuiltValues(e: Expr, l: Level)
    requires Separate(e) && Apart(l) && (AllValues(l.alt) + AllValues(l.ws)) !! ExprValues(e) && Length(l.alt) <= 1
    ensures Values(Built(e, l)) == AllValues(l.alt) + AllValues(l.ws) + ExprValues(e)
    ensures DistinctValues(Built(e, l))
    decreases e
  {
    AfterUnitValues(l.ws, e.u);
    var ws := AfterUnit(l.ws, e.u, BuiltUnit(e.u));
    match e
    case Last(_) =>
      FoldValues(ws.tail, ws.head);
      AlternativeValues(l.alt, FoldAnd(ws.tail, ws.head));
    case AndThen(_, r) => BuiltValues(r, Level(l.alt, ws));
    case OrThen(_, r) =>
      AfterBarValues(l.alt, ws);
      BuiltValues(r, AfterBar(l.alt, ws));
  }

  lemma AlternativeValues(alt: List<Query>, q: Query)
    requires Length(alt) <= 1
    ensures Values(Alternative(alt, q)) == AllValues(alt) + Values(q)
    ensures AllDistinct(alt) && DistinctValues(q) && AllValues(alt) !! Values(q) ==> DistinctValues(Alternative(alt, q))
  {
    if alt.Cons? {
      assert alt.tail.Nil?;
    }
  }

  lemma AfterBarValues(alt: List<Query>, ws: List<Query>)
    requires Length(alt) <= 1 && ws.Cons? && Apart(Level(alt, ws))
    ensures var l := AfterBar(alt, ws);
            Apart(l) && Length(l.alt) <= 1 && AllValues(l.alt) + AllValues(l.ws) == AllValues(alt) + AllValues(ws)
  {
    AlternativeValues(alt, ws.head);
    var one := Cons(Alternative(alt, ws.head), Nil);
    assert AllValues(one) == Values(one.head) && one.tail.Nil?;
    if ws.tail.Cons? {
      JoinTop(OR, ws.head, ws.tail.head, ws.tail.tail);
    }
  }

  /** For a query whose values are all different, the text reads back with the same meaning exactly
      under that condition. */
  lemma RoundTripIff(q: Query)
    requires DistinctValues(q)
    ensures RoundTrips(q) <==> ReadsBack(q)
  {
    if ReadsBack(q) {
      RoundTripWhenReadsBack(q);
    } else if RoundTrips(q) {
      var q' :| Reread(q) == Parsed(Nil, Push(q', Nil)) && Means(Stored(q'), q);
      RereadBuilds(q);
      PushInjective(q', Built(Layout(q, true), FRESH), Nil, Nil);
      NotReadBack(q, q');
    }
  }

  lemma NotReadBack(q: Query, q': Query)
    requires DistinctValues(q) && q' == Built(Layout(q, true), FRESH) && !(Safe(Layout(q, true)) && LinksFit(q'))
    ensures !Means(Stored(q'), q)
  {
    var e := Layout(q, true);
    LayoutSeparate(q, true);
    BuiltValues(e, FRESH);
    StoresIff(Stored(q'), q');
    if !LinksFit(q') {
      WrappedLinkSpoils(Stored(q'), q', q);
    } else {
      ParsedAsMeantIff(e);
      var s: set<int> :| Eval(q', In(s), true) != Meaning(e, In(s));
      LayoutMeansQuery(q, true, In(s));
      FittingLinksSay(Stored(q'), q', s);
      if Means(Stored(q'), q) {
        SaysOne(Stored(q'), s, Eval(q', In(s), true), Eval(q, In(s), true));
      }
    }
  }

  // ----- The size of what is built -----

  // The number of nodes of a text: its numbers and its operators.
  function NodeCount(e: Expr): (n: nat) {
    UnitCount(e.u) + if e.Last? then 0 else 1 + NodeCount(e.rest)
  }

  function UnitCount(u: Unit): (n: nat) {
    match u
    case Num(bangs, _) => bangs + 1
    case Group(neg, e) => (if neg then 1 else 0) + NodeCount(e)
  }

  // The nodes of operands and of the operators that wait for them.
  function Waiting(qs: List<Query>): (n: nat) {
    if qs.Nil? then 0 else Size(qs.head) + 1 + Waiting(qs.tail)
  }

  lemma {:induction false} FoldCounts(ws: List<Query>, q: Query)
    ensures Size(FoldAnd(ws, q)) == Waiting(ws) + Size(q)
    decreases ws
  {
    if ws.Cons? {
      FoldCounts(ws.tail, Bin(AND, ws.head, q));
    }
  }

  lemma {:induction false} NotsCount(n: nat, q: Query)
    ensures Size(Nots(n, q)) == n + Size(q)
  {
    if n > 0 {
      NotsCount(n - 1, Not(q));
    }
  }

  lemma {:induction false} UnitCounts(u: Unit)
    ensures Size(BuiltUnit(u)) == UnitCount(u)
    decreases u
  {
    if u.Group? {
      BuiltCounts(u.e, FRESH);
    } else {
      NotsCount(u.bangs, Val(u.v));
    }
  }

  /** What is built has a node for every number and every operator of the text. */
  lemma {:induction false} BuiltCounts(e: Expr, l: Level)
    requires Length(l.alt) <= 1
    ensures Size(Built(e, l)) == Waiting(l.alt) + Waiting(l.ws) + NodeCount(e)
    decreases e
  {
    UnitCounts(e.u);
    var t := BuiltUnit(e.u);
    var ws := AfterUnit(l.ws, e.u, t);
    FoldCounts(l.ws, t);
    assert Waiting(Cons(FoldAnd(l.ws, t), Nil)) == Size(FoldAnd(l.ws, t)) + 1;
    assert Waiting(ws) == Waiting(l.ws) + UnitCount(e.u) + 1;
    assert l.alt.Cons? ==> l.alt.tail.Nil?;
    match e
    case Last(_) => FoldCounts(ws.tail, ws.head);
    case AndThen(_, r) => BuiltCounts(r, Level(l.alt, ws));
    case OrThen(_, r) =>
      var one := Cons(Alternative(l.alt, ws.head), Nil);
      assert Waiting(one) == Size(one.head) + 1;
      BuiltCounts(r, AfterBar(l.alt, ws));
  }

  lemma {:induction false} JoinCounts(e: Expr, op: BinOp, e': Expr)
    ensures NodeCount(Join(e, op, e')) == NodeCount(e) + 1 + NodeCount(e')
  {
    if !e.Last? {
      JoinCounts(e.rest, op, e');
    }
  }

  lemma {:induction false} LayoutCounts(q: Query, first: bool)
    ensures NodeCount(Layout(q, first)) == Size(q)
    decreases q
  {
    match q
    case Val(_) =>
    case Not(p) =>
      if !p.Val? {
        LayoutCounts(p, true);
      }
    case Bin(op, l, r) =>
      LayoutCounts(l, false);
      LayoutCounts(r, false);
      JoinCounts(Layout(l, false), op, Layout(r, false));
  }

  // ----- Queries that do not survive -----

  const GROUP := Bin(OR, Val(2), Val(3))
  const GROUP_LAYOUT := OrThen(Num(0, 2), Last(Num(0, 3)))
  const FAILING := Bin(OR, Bin(AND, Val(1), Not(GROUP)), Val(4))
  const FAILING_LAYOUT := AndThen(Num(0, 1), OrThen(Group(true, GROUP_LAYOUT), Last(Num(0, 4))))

  lemma FailingLayout()
    ensures Layout(FAILING, true) == FAILING_LAYOUT
  {
    assert Layout(GROUP, true) == GROUP_LAYOUT;
    assert Layout(Bin(AND, Val(1), Not(GROUP)), false) == AndThen(Num(0, 1), Last(Group(true, GROUP_LAYOUT)));
  }

  lemma FailingBuilt()
    ensures FitsStack(FAILING_LAYOUT, 0, 0) && !Safe(FAILING_LAYOUT)
    ensures Built(FAILING_LAYOUT, FRESH) == Bin(AND, Bin(OR, Val(1), Not(GROUP)), Val(4))
  {
    assert FitsStack(GROUP_LAYOUT, 0, 0);
    assert Built(GROUP_LAYOUT, FRESH) == GROUP;
  }

  // (1 & !(2 | 3)) | 4 prints as "1 & !( 2 | 3 ) | 4", which reads back as (1 | !(2 | 3)) & 4.
  lemma RoundTripCanFail()
    ensures !RoundTrips(FAILING) && Reread(FAILING) == Parsed(Nil, Push(Bin(AND, Bin(OR, Val(1), Not(GROUP)), Val(4)), Nil))
  {
    FailingLayout();
    FailingBuilt();
    RoundTripIff(FAILING);
    RereadBuilds(FAILING);
  }

  // (1 & !g) & !h
  function LongText(v: int, g: Query, h: Query): (q: Query) {
    Bin(AND, Bin(AND, Val(v), Not(g)), Not(h))
  }

  lemma LongTextBuilt(v: int, g: Query, h: Query)
    requires !g.Val? && !h.Val?
    ensures var e, f := Layout(g, true), Layout(h, true);
            Built(Layout(LongText(v, g, h), true), FRESH) ==
            Bin(AND, Val(v), Bin(AND, Not(Built(e, FRESH)), Not(Built(f, FRESH))))
  {
    var e, f := Layout(g, true), Layout(h, true);
    var ug, uh := Group(true, e), Group(true, f);
    var first := AndThen(Num(0, v), Last(ug));
    assert Layout(Bin(AND, Val(v), Not(g)), false) == first by {
      assert Layout(Not(g), false) == Last(ug);
    }
    assert Layout(Not(h), false) == Last(uh);
    assert Layout(LongText(v, g, h), true) == Join(first, AND, Last(uh)) == AndThen(Num(0, v), AndThen(ug, Last(uh)));
    var one := Cons(Val(v), Nil);
    var two := Cons(BuiltUnit(ug), one);
    assert FoldAnd(Nil, Val(v)) == Val(v);
    assert AfterUnit(Nil, Num(0, v), Val(v)) == one;
    assert AfterUnit(one, ug, BuiltUnit(ug)) == two;
    assert Built(Last(uh), Level(Nil, two)) == FoldAnd(two, BuiltUnit(uh));
    assert FoldAnd(one, Bin(AND, BuiltUnit(ug), BuiltUnit(uh))) == Bin(AND, Val(v), Bin(AND, BuiltUnit(ug), BuiltUnit(uh)));
  }

  lemma LongTextWraps(v: int, g: Query, h: Query)
    requires !g.Val? && !h.Val? && Size(g) + Size(h) + 3 >= 0x8000
    ensures !LinksFit(Built(Layout(LongText(v, g, h), true), FRESH))
  {
    LongTextBuilt(v, g, h);
    RebuiltCounts(g);
    RebuiltCounts(h);
    LongOperandWraps(Val(v), Built(Layout(g, true), FRESH), Built(Layout(h, true), FRESH));
  }

  lemma RebuiltCounts(q: Query)
    ensures Size(Built(Layout(q, true), FRESH)) == Size(q)
  {
    LayoutCounts(q, true);
    BuiltCounts(Layout(q, true), FRESH);
  }

  lemma LongOperandWraps(p: Query, g: Query, h: Query)
    requires Size(g) + Size(h) + 3 >= 0x8000
    ensures !LinksFit(Bin(AND, p, Bin(AND, Not(g), Not(h))))
  {
    assert Size(Not(g)) == Size(g) + 1 && Size(Not(h)) == Size(h) + 1;
    assert Size(Bin(AND, Not(g), Not(h))) >= 0x8000;
  }

  /** (v & !g) & !h reads back as v & (!g & !h): when g and h are long the link to v wraps, and the
      text does not mean the query although every link of the query may fit. */
  lemma LongTextCanFail(v: int, g: Query, h: Query)
    requires !g.Val? && !h.Val? && DistinctValues(LongText(v, g, h)) && Size(g) + Size(h) + 3 >= 0x8000
    ensures !RoundTrips(LongText(v, g, h))
    ensures LinksFit(g) && LinksFit(h) && Size(g) < 0x7fff && Size(h) < 0x7fff ==> LinksFit(LongText(v, g, h))
  {
    var q := LongText(v, g, h);
    LongTextWraps(v, g, h);
    assert !ReadsBack(q);
    RoundTripIff(q);
  }

  // ----- A condition on the query itself -----

  // The first thing written for the inner layout of q is a negated group.
  predicate StartsNegatedGroup(q: Query) {
    match q
    case Val(_) => false
    case Not(p) => !p.Val?
    case Bin(op, l, _) => op == AND && StartsNegatedGroup(l)
  }

  // No right operand of & starts with ! over an operator.
  predicate Plain(q: Query) {
    match q
    case Val(_) => true
    case Not(p) => Plain(p)
    case Bin(op, l, r) => Plain(l) && Plain(r) && !(op == AND && StartsNegatedGroup(r))
  }

  // Every unit of e after the first of a conjunction is no negated group, so at most one & waits.
  predicate Tame(e: Expr, n: nat) {
    && (n > 0 ==> !(e.u.Group? && e.u.neg))
    && (e.AndThen? ==> Tame(e.rest, 1))
    && (e.OrThen? ==> Tame(e.rest, 0))
    && (if e.u.Num? then e.u.bangs <= 1 else Tame(e.u.e, 0))
  }

  lemma {:induction false} TameReadsBack(e: Expr, a: nat, n: nat)
    requires Tame(e, n) && a <= 1 && n <= 1
    ensures FitsStack(e, a, n) && LevelSafe(e, n) && GroupsSafe(e)
    decreases e
  {
    if e.u.Group? {
      TameReadsBack(e.u.e, 0, 0);
    }
    if e.AndThen? {
      TameReadsBack(e.rest, a, 1);
    } else if e.OrThen? {
      TameReadsBack(e.rest, 1, 0);
    }
  }

  lemma {:induction false} JoinTame(e: Expr, op: BinOp, e': Expr, n: nat)
    requires Tame(e, n) && Tame(e', if op == AND then 1 else 0)
    ensures Tame(Join(e, op, e'), n)
    decreases e
  {
    if e.AndThen? {
      JoinTame(e.rest, op, e', 1);
    } else if e.OrThen? {
      JoinTame(e.rest, op, e', 0);
    }
  }

  lemma {:induction false} PlainIsTame(q: Query, first: bool)
    requires Plain(q)
    ensures Tame(Layout(q, first), 0)
    ensures !first && !StartsNegatedGroup(q) ==> Tame(Layout(q, first), 1)
    decreases q
  {
    match q
    case Val(_) =>
    case Not(p) =>
      if !p.Val? {
        PlainIsTame(p, true);
      }
    case Bin(op, l, r) =>
      PlainIsTame(l, false);
      PlainIsTame(r, false);
      JoinTame(Layout(l, false), op, Layout(r, false), 0);
      if op == AND && !StartsNegatedGroup(l) {
        JoinTame(Layout(l, false), op, Layout(r, false), 1);
      }
  }

  // ----- Its links -----

  // The nodes of the first conjunction.
  function ConjCount(e: Expr): (n: nat) {
    UnitCount(e.u) + if e.AndThen? then 1 + ConjCount(e.rest) else 0
  }

  // When at most one & waits, what follows an & is a unit and what follows a | is a conjunction.
  // None of them is too long for a link; started says that e goes on with a conjunction.
  predicate PartsFit(e: Expr, started: bool) {
    && (started ==> UnitCount(e.u) < 0x8000)
    && (e.u.Group? ==> PartsFit(e.u.e, false))
    && (e.AndThen? ==> PartsFit(e.rest, true))
    && (e.OrThen? ==> ConjCount(e.rest) < 0x8000 && PartsFit(e.rest, false))
  }

  // At most one alternative and one operand, with links that fit.
  predicate ShortLevel(l: Level) {
    && Length(l.alt) <= 1 && (l.alt.Cons? ==> LinksFit(l.alt.head))
    && Length(l.ws) <= 1 && (l.ws.Cons? ==> LinksFit(l.ws.head))
  }

  lemma TameUnit(ws: List<Query>, u: Unit, t: Query)
    requires Length(ws) <= 1 && (ws.Cons? ==> !(u.Group? && u.neg))
    ensures AfterUnit(ws, u, t) == Cons(if ws.Nil? then t else Bin(AND, ws.head, t), Nil)
  {
    if ws.Cons? {
      assert ws.tail.Nil?;
      assert FoldAnd(ws.tail, Bin(AND, ws.head, t)) == Bin(AND, ws.head, t);
    }
  }

  /** The links of a tame text fit when its parts are short enough. */
  lemma {:induction false} TameFits(e: Expr, l: Level)
    requires Tame(e, Length(l.ws)) && ShortLevel(l) && PartsFit(e, l.ws.Cons?)
    requires l.alt.Cons? ==> Waiting(l.ws) + ConjCount(e) < 0x8000
    ensures LinksFit(Built(e, l))
    decreases e
  {
    var t := BuiltUnit(e.u);
    UnitCounts(e.u);
    if e.u.Group? {
      TameFits(e.u.e, FRESH);
    }
    TameUnit(l.ws, e.u, t);
    var w := if l.ws.Nil? then t else Bin(AND, l.ws.head, t);
    assert l.ws.Cons? ==> l.ws.tail.Nil?;
    assert Size(w) == Waiting(l.ws) + UnitCount(e.u) && LinksFit(w);
    assert Waiting(Cons(w, Nil)) == Size(w) + 1;
    match e
    case Last(_) =>
    case AndThen(_, r) => TameFits(r, Level(l.alt, Cons(w, Nil)));
    case OrThen(_, r) => TameFits(r, Level(Cons(Alternative(l.alt, w), Nil), Nil));
  }

  lemma {:induction false} JoinFits(e: Expr, op: BinOp, e': Expr, started: bool)
    requires NoBar(e) && PartsFit(e, started)
    requires if op == AND then PartsFit(e', true) else ConjCount(e') < 0x8000 && PartsFit(e', false)
    ensures PartsFit(Join(e, op, e'), started)
    decreases e
  {
    if e.AndThen? {
      JoinFits(e.rest, op, e', true);
    }
  }

  lemma {:induction false} NoBarCounts(e: Expr)
    requires NoBar(e)
    ensures ConjCount(e) == NodeCount(e)
    ensures PartsFit(e, false) && NodeCount(e) < 0x8000 ==> PartsFit(e, true)
  {
    if e.AndThen? {
      NoBarCounts(e.rest);
    }
  }

  // The parts of the layout of a query are operands of the query.
  lemma {:induction false} LayoutFits(q: Query, first: bool)
    requires LinksFit(q)
    ensures PartsFit(Layout(q, first), false)
    decreases q
  {
    match q
    case Val(_) =>
    case Not(p) =>
      if !p.Val? {
        LayoutFits(p, true);
      }
    case Bin(op, l, r) =>
      LayoutFits(l, false);
      LayoutFits(r, false);
      InnerLayoutNoBar(l);
      InnerLayoutNoBar(r);
      NoBarCounts(Layout(r, false));
      LayoutCounts(r, false);
      JoinFits(Layout(l, false), op, Layout(r, false), false);
  }

  /** Printing and reading back is safe for every query no right operand of & of which starts with !
      over an operator, and whose own links fit. */
  lemma PlainRoundTrips(q: Query)
    requires Plain(q) && LinksFit(q)
    ensures RoundTrips(q)
  {
    PlainIsTame(q, true);
    TameReadsBack(Layout(q, true), 0, 0);
    LayoutFits(q, true);
    TameFits(Layout(q, true), FRESH);
    RoundTripWhenReadsBack(q);
  }
}
