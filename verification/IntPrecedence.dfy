/** What a query text means with the usual precedence, ! over & over |, and exactly when the parser
    of intarray gives it that meaning. */
module IntPrecedence {
  import opened IntQuery
  import opened IntParse

  // ----- The meaning of a text -----

  // The truth of the rest e of a level when the units already read of the current conjunction came to a.
  // With built, groups count for what the parser makes of them.
  function Denote(e: Expr, f: int -> bool, a: bool, built: bool): (b: bool)
    decreases e
  {
    var a' := a && DenoteUnit(e.u, f, built);
    match e
    case Last(_) => a'
    case AndThen(_, r) => Denote(r, f, a', built)
    case OrThen(_, r) => a' || Denote(r, f, true, built)
  }

  function DenoteUnit(u: Unit, f: int -> bool, built: bool): (b: bool)
    decreases u
  {
    match u
    case Num(bangs, v) => f(v) != Odd(bangs)
    case Group(neg, e) => (if built then Eval(Built(e, FRESH), f, true) else Denote(e, f, true, false)) != neg
  }

  predicate Odd(n: nat) {
    n % 2 == 1
  }

  lemma {:induction false} EvalNots(n: nat, q: Query, f: int -> bool)
    ensures Eval(Nots(n, q), f, true) == (Eval(q, f, true) != Odd(n))
  {
    if n > 0 {
      EvalNots(n - 1, Not(q), f);
    }
  }

  lemma BuiltUnitMeans(u: Unit, f: int -> bool)
    ensures DenoteUnit(u, f, true) == Eval(BuiltUnit(u), f, true)
  {
    if u.Num? {
      EvalNots(u.bangs, Val(u.v), f);
    }
  }

  function Meaning(e: Expr, f: int -> bool): (b: bool) {
    Denote(e, f, true, false)
  }

  // ----- When the parser agrees -----

  // No & waits when a | is read, n being the number of & that wait when e starts.
  predicate LevelSafe(e: Expr, n: nat)
    decreases e
  {
    var m := WaitingAfter(e.u, n);
    match e
    case Last(_) => true
    case AndThen(_, r) => LevelSafe(r, m)
    case OrThen(_, r) => m == 1 && LevelSafe(r, 0)
  }

  // No & waits at any | of the text, in whatever parentheses.
  predicate Safe(e: Expr)
    decreases e, 1
  {
    LevelSafe(e, 0) && GroupsSafe(e)
  }

  predicate GroupsSafe(e: Expr)
    decreases e, 0
  {
    UnitSafe(e.u) && (e.Last? || GroupsSafe(e.rest))
  }

  predicate UnitSafe(u: Unit)
    decreases u
  {
    u.Group? ==> Safe(u.e)
  }

  function Conj(ws: List<Query>, f: int -> bool): (b: bool) {
    ws.Nil? || (Conj(ws.tail, f) && Eval(ws.head, f, true))
  }

  lemma {:induction false} EvalFoldAnd(ws: List<Query>, q: Query, f: int -> bool)
    ensures Eval(FoldAnd(ws, q), f, true) == (Conj(ws, f) && Eval(q, f, true))
  {
    if ws.Cons? {
      EvalFoldAnd(ws.tail, Bin(AND, ws.head, q), f);
    }
  }

  lemma {:induction false} ConjAfterUnit(ws: List<Query>, u: Unit, f: int -> bool)
    ensures Conj(AfterUnit(ws, u, BuiltUnit(u)), f) == (Conj(ws, f) && DenoteUnit(u, f, true))
  {
    EvalFoldAnd(ws, BuiltUnit(u), f);
    BuiltUnitMeans(u, f);
    if u.Num? {
      assert Conj(Cons(FoldAnd(ws, BuiltUnit(u)), Nil), f) == Eval(FoldAnd(ws, BuiltUnit(u)), f, true);
    }
  }

  // A level without a waiting & at any | is read with the usual precedence.
  lemma {:induction false} SafeLevelIsStandard(e: Expr, l: Level, f: int -> bool)
    requires LevelSafe(e, Length(l.ws))
    ensures Eval(Built(e, l), f, true) ==
            ((l.alt.Cons? && Eval(l.alt.head, f, true)) || Denote(e, f, Conj(l.ws, f), true))
    decreases e
  {
    var ws := AfterUnit(l.ws, e.u, BuiltUnit(e.u));
    ConjAfterUnit(l.ws, e.u, f);
    match e {
      case Last(_) => EvalFoldAnd(ws.tail, ws.head, f);
      case AndThen(_, r) => SafeLevelIsStandard(r, Level(l.alt, ws), f);
      case OrThen(_, r) =>
        assert Length(ws) == 1 && Length(ws.tail) == 0;
        SafeLevelIsStandard(r, AfterBar(l.alt, ws), f);
    }
  }

  // When every group is read as it should be, it does not matter how groups count.
  lemma {:induction false} SafeGroupsAgree(e: Expr, f: int -> bool, a: bool)
    requires GroupsSafe(e)
    ensures Denote(e, f, a, true) == Denote(e, f, a, false)
    decreases e, 0
  {
    var u := e.u;
    if u.Group? {
      SafeIsStandard(u.e, f);
    }
    if !e.Last? {
      SafeGroupsAgree(e.rest, f, true);
      SafeGroupsAgree(e.rest, f, a && DenoteUnit(u, f, true));
    }
  }

  /** The parser reads a text with the usual precedence if no & waits when it meets a |. */
  lemma {:induction false} SafeIsStandard(e: Expr, f: int -> bool)
    requires Safe(e)
    ensures Eval(Built(e, FRESH), f, true) == Meaning(e, f)
    decreases e, 1
  {
    SafeLevelIsStandard(e, FRESH, f);
    SafeGroupsAgree(e, f, true);
  }

  // ----- And only then -----

  function ExprValues(e: Expr): (s: set<int>) {
    UnitValues(e.u) + if e.Last? then {} else ExprValues(e.rest)
  }

  function UnitValues(u: Unit): (s: set<int>) {
    match u
    case Num(_, v) => {v}
    case Group(_, e) => ExprValues(e)
  }

  // No value occurs twice.
  predicate Separate(e: Expr) {
    && UnitSeparate(e.u)
    && (!e.Last? ==> Separate(e.rest) && UnitValues(e.u) !! ExprValues(e.rest))
  }

  predicate UnitSeparate(u: Unit) {
    u.Group? ==> Separate(u.e)
  }

  // The values to have, among those of e, for every unit of e to come out as b, however it is read.
  function Force(e: Expr, b: bool): (s: set<int>)
    ensures s <= ExprValues(e)
  {
    ForceUnit(e.u, b) + if e.Last? then {} else Force(e.rest, b)
  }

  function ForceUnit(u: Unit, b: bool): (s: set<int>)
    ensures s <= UnitValues(u)
  {
    match u
    case Num(bangs, v) => if b != Odd(bangs) then {v} else {}
    case Group(neg, e) => Force(e, b != neg)
  }

  predicate AllAre(e: Expr, f: int -> bool, built: bool, b: bool) {
    DenoteUnit(e.u, f, built) == b && (e.Last? || AllAre(e.rest, f, built, b))
  }

  predicate WaitingAre(ws: List<Query>, f: int -> bool, b: bool) {
    ws.Nil? || (Eval(ws.head, f, true) == b && WaitingAre(ws.tail, f, b))
  }

  lemma {:induction false} DenoteAll(e: Expr, f: int -> bool, a: bool, built: bool, b: bool)
    requires AllAre(e, f, built, b) && (b ==> a)
    ensures Denote(e, f, a, built) == b
    decreases e
  {
    if !e.Last? {
      DenoteAll(e.rest, f, true, built, b);
      if b || e.AndThen? {
        DenoteAll(e.rest, f, a && b, built, b);
      }
    }
  }

  lemma {:induction false} WaitingFold(ws: List<Query>, q: Query, f: int -> bool, b: bool)
    requires WaitingAre(ws, f, b) && Eval(q, f, true) == b
    ensures Eval(FoldAnd(ws, q), f, true) == b
  {
    if ws.Cons? {
      WaitingFold(ws.tail, Bin(AND, ws.head, q), f, b);
    }
  }

  lemma {:induction false} BuiltAll(e: Expr, l: Level, f: int -> bool, b: bool)
    requires AllAre(e, f, true, b) && WaitingAre(l.ws, f, b)
    requires l.alt.Cons? ==> Eval(l.alt.head, f, true) == b
    ensures Eval(Built(e, l), f, true) == b
    decreases e
  {
    var t := BuiltUnit(e.u);
    BuiltUnitMeans(e.u, f);
    var ws := AfterUnit(l.ws, e.u, t);
    WaitingFold(l.ws, t, f, b);
    assert WaitingAre(ws, f, b);
    match e {
      case Last(_) => WaitingFold(ws.tail, ws.head, f, b);
      case AndThen(_, r) => BuiltAll(r, Level(l.alt, ws), f, b);
      case OrThen(_, r) => BuiltAll(r, AfterBar(l.alt, ws), f, b);
    }
  }

  lemma {:induction false} Forced(e: Expr, s: set<int>, built: bool, b: bool)
    requires Separate(e) && s * ExprValues(e) == Force(e, b)
    ensures AllAre(e, In(s), built, b)
    decreases e
  {
    assert s * UnitValues(e.u) == ForceUnit(e.u, b);
    ForcedUnit(e.u, s, built, b);
    if !e.Last? {
      assert s * ExprValues(e.rest) == Force(e.rest, b);
      Forced(e.rest, s, built, b);
    }
  }

  lemma {:induction false} ForcedUnit(u: Unit, s: set<int>, built: bool, b: bool)
    requires UnitSeparate(u) && s * UnitValues(u) == ForceUnit(u, b)
    ensures DenoteUnit(u, In(s), built) == b
    decreases u
  {
    match u
    case Num(_, v) => assert v in s <==> v in s * UnitValues(u);
    case Group(neg, e) =>
      var c := b != neg;
      Forced(e, s, true, c);
      Forced(e, s, false, c);
      BuiltAll(e, FRESH, In(s), c);
      DenoteAll(e, In(s), true, false, c);
  }

  // The first conjunction of e comes out true and what follows it false.
  function ForceFirst(e: Expr): (s: set<int>)
    ensures s <= ExprValues(e)
  {
    ForceUnit(e.u, true) +
    match e
    case Last(_) => {}
    case AndThen(_, r) => ForceFirst(r)
    case OrThen(_, r) => Force(r, false)
  }

  lemma {:induction false} FirstDecides(e: Expr, s: set<int>, a: bool, built: bool)
    requires Separate(e) && s * ExprValues(e) == ForceFirst(e)
    ensures Denote(e, In(s), a, built) == a
    decreases e
  {
    assert s * UnitValues(e.u) == ForceUnit(e.u, true);
    ForcedUnit(e.u, s, built, true);
    match e {
      case Last(_) =>
      case AndThen(_, r) =>
        assert s * ExprValues(r) == ForceFirst(r);
        FirstDecides(r, s, a, built);
      case OrThen(_, r) =>
        assert s * ExprValues(r) == Force(r, false);
        Forced(r, s, built, false);
        DenoteAll(r, In(s), true, built, false);
    }
  }

  // ----- A level with an & waiting at some | -----

  // Everything up to that | false, the conjunction after it true, the rest false.
  function BarWitness(e: Expr, n: nat): (s: set<int>)
    requires !LevelSafe(e, n)
    ensures s <= ExprValues(e)
    decreases e
  {
    var m := WaitingAfter(e.u, n);
    ForceUnit(e.u, false) +
    match e
    case AndThen(_, r) => BarWitness(r, m)
    case OrThen(_, r) => if m == 1 then BarWitness(r, 0) else ForceFirst(r)
  }

  lemma {:induction false} FalseToTheEnd(e: Expr, l: Level, f: int -> bool)
    requires AllAre(e, f, true, false)
    requires l.alt.Cons? ==> !Eval(l.alt.head, f, true)
    ensures !Eval(Built(e, l), f, true)
    decreases e
  {
    var ws := AfterUnit(l.ws, e.u, BuiltUnit(e.u));
    ConjAfterUnit(l.ws, e.u, f);
    match e {
      case Last(_) => EvalFoldAnd(ws.tail, ws.head, f);
      case AndThen(_, r) => FalseToTheEnd(r, Level(l.alt, ws), f);
      case OrThen(_, r) => FalseToTheEnd(r, AfterBar(l.alt, ws), f);
    }
  }

  // A waiting operand that is false spoils the conjunction that follows it.
  lemma {:induction false} WaitingSpoils(e: Expr, l: Level, s: set<int>)
    requires Separate(e) && s * ExprValues(e) == ForceFirst(e)
    requires !Conj(l.ws, In(s)) && (l.alt.Cons? ==> !Eval(l.alt.head, In(s), true))
    ensures !Eval(Built(e, l), In(s), true)
    decreases e
  {
    var ws := AfterUnit(l.ws, e.u, BuiltUnit(e.u));
    ConjAfterUnit(l.ws, e.u, In(s));
    match e {
      case Last(_) => EvalFoldAnd(ws.tail, ws.head, In(s));
      case AndThen(_, r) =>
        assert s * ExprValues(r) == ForceFirst(r);
        WaitingSpoils(r, Level(l.alt, ws), s);
      case OrThen(_, r) =>
        assert s * ExprValues(r) == Force(r, false);
        Forced(r, s, true, false);
        FalseToTheEnd(r, AfterBar(l.alt, ws), In(s));
    }
  }

  lemma {:induction false} BarDisagrees(e: Expr, l: Level, s: set<int>, a: bool)
    requires Separate(e) && !LevelSafe(e, Length(l.ws)) && s * ExprValues(e) == BarWitness(e, Length(l.ws))
    requires WaitingAre(l.ws, In(s), false) && (l.alt.Cons? ==> !Eval(l.alt.head, In(s), true))
    ensures !Eval(Built(e, l), In(s), true) && Denote(e, In(s), a, false)
    decreases e
  {
    var f, t := In(s), BuiltUnit(e.u);
    assert s * UnitValues(e.u) == ForceUnit(e.u, false);
    ForcedUnit(e.u, s, true, false);
    ForcedUnit(e.u, s, false, false);
    BuiltUnitMeans(e.u, f);
    var ws := AfterUnit(l.ws, e.u, t);
    WaitingFold(l.ws, t, f, false);
    assert WaitingAre(ws, f, false);
    match e {
      case AndThen(_, r) =>
        assert s * ExprValues(r) == BarWitness(r, Length(ws));
        BarDisagrees(r, Level(l.alt, ws), s, false);
      case OrThen(_, r) =>
        if Length(ws) == 1 {
          assert Length(ws.tail) == 0;
          assert s * ExprValues(r) == BarWitness(r, 0);
          BarDisagrees(r, AfterBar(l.alt, ws), s, true);
        } else {
          assert ws.tail.Cons?;
          assert s * ExprValues(r) == ForceFirst(r);
          WaitingSpoils(r, AfterBar(l.alt, ws), s);
          FirstDecides(r, s, true, false);
        }
    }
  }

  // ----- A group that is read wrongly inside a level that is not -----

  // A group of the first conjunction of e is unsafe.
  predicate FirstUnsafe(e: Expr) {
    !UnitSafe(e.u) || (e.AndThen? && FirstUnsafe(e.rest))
  }

  function Disagreement(e: Expr): (s: set<int>)
    requires !Safe(e)
    ensures s <= ExprValues(e)
    decreases e, 3
  {
    if !LevelSafe(e, 0) then BarWitness(e, 0) else GroupWitness(e)
  }

  // The first conjunction with an unsafe group decides; conjunctions before and after it are false.
  function GroupWitness(e: Expr): (s: set<int>)
    requires !GroupsSafe(e)
    ensures s <= ExprValues(e)
    decreases e, 2
  {
    if FirstUnsafe(e) then UnsafeFirst(e) else SkipFirst(e)
  }

  function UnsafeFirst(e: Expr): (s: set<int>)
    requires FirstUnsafe(e)
    ensures s <= ExprValues(e)
    decreases e, 1
  {
    if UnitSafe(e.u) then ForceUnit(e.u, true) + UnsafeFirst(e.rest)
    else
      Disagreement(e.u.e) +
      match e
      case Last(_) => {}
      case AndThen(_, r) => ForceFirst(r)
      case OrThen(_, r) => Force(r, false)
  }

  function SkipFirst(e: Expr): (s: set<int>)
    requires !FirstUnsafe(e) && !GroupsSafe(e)
    ensures s <= ExprValues(e)
    decreases e, 1
  {
    ForceUnit(e.u, false) +
    match e
    case AndThen(_, r) => SkipFirst(r)
    case OrThen(_, r) => GroupWitness(r)
  }

  lemma {:induction false} SkipFirstDisagrees(e: Expr, s: set<int>, a: bool)
    requires Separate(e) && !FirstUnsafe(e) && !GroupsSafe(e) && s * ExprValues(e) == SkipFirst(e)
    ensures Denote(e, In(s), a, true) != Denote(e, In(s), a, false)
    decreases e, 1
  {
    assert s * UnitValues(e.u) == ForceUnit(e.u, false);
    ForcedUnit(e.u, s, true, false);
    ForcedUnit(e.u, s, false, false);
    match e {
      case AndThen(_, r) =>
        assert s * ExprValues(r) == SkipFirst(r);
        SkipFirstDisagrees(r, s, false);
      case OrThen(_, r) =>
        assert s * ExprValues(r) == GroupWitness(r);
        GroupDisagrees(r, s);
    }
  }

  lemma {:induction false} GroupDisagrees(e: Expr, s: set<int>)
    requires Separate(e) && !GroupsSafe(e) && s * ExprValues(e) == GroupWitness(e)
    ensures Denote(e, In(s), true, true) != Denote(e, In(s), true, false)
    decreases e, 2
  {
    if FirstUnsafe(e) {
      UnsafeFirstDisagrees(e, s);
    } else {
      SkipFirstDisagrees(e, s, true);
    }
  }

  lemma {:induction false} UnsafeFirstDisagrees(e: Expr, s: set<int>)
    requires Separate(e) && FirstUnsafe(e) && s * ExprValues(e) == UnsafeFirst(e)
    ensures Denote(e, In(s), true, true) != Denote(e, In(s), true, false)
    decreases e, 1
  {
    var u := e.u;
    if UnitSafe(u) {
      assert s * UnitValues(u) == ForceUnit(u, true);
      ForcedUnit(u, s, true, true);
      ForcedUnit(u, s, false, true);
      assert s * ExprValues(e.rest) == UnsafeFirst(e.rest);
      UnsafeFirstDisagrees(e.rest, s);
    } else {
      assert s * ExprValues(u.e) == Disagreement(u.e);
      UnsafeDisagrees(u.e, s);
      match e {
        case Last(_) =>
        case AndThen(_, r) =>
          assert s * ExprValues(r) == ForceFirst(r);
          FirstDecides(r, s, DenoteUnit(u, In(s), true), true);
          FirstDecides(r, s, DenoteUnit(u, In(s), false), false);
        case OrThen(_, r) =>
          assert s * ExprValues(r) == Force(r, false);
          Forced(r, s, true, false);
          Forced(r, s, false, false);
          DenoteAll(r, In(s), true, true, false);
          DenoteAll(r, In(s), true, false, false);
      }
    }
  }

  lemma {:induction false} UnsafeDisagrees(e: Expr, s: set<int>)
    requires Separate(e) && !Safe(e) && s * ExprValues(e) == Disagreement(e)
    ensures Eval(Built(e, FRESH), In(s), true) != Meaning(e, In(s))
    decreases e, 3
  {
    if !LevelSafe(e, 0) {
      BarDisagrees(e, FRESH, s, true);
    } else {
      GroupDisagrees(e, s);
      SafeLevelIsStandard(e, FRESH, In(s));
    }
  }

  /** The parser reads a text whose values are all different with the usual precedence if and only
      if no & waits when it meets a |. */
  lemma ParsedAsMeantIff(e: Expr)
    requires Separate(e)
    ensures Safe(e) <==> forall s: set<int> :: Eval(Built(e, FRESH), In(s), true) == Meaning(e, In(s))
  {
    if Safe(e) {
      forall s: set<int> ensures Eval(Built(e, FRESH), In(s), true) == Meaning(e, In(s)) {
        SafeIsStandard(e, In(s));
      }
    } else {
      var s := Disagreement(e);
      assert s * ExprValues(e) == s;
      UnsafeDisagrees(e, s);
    }
  }
}
