/** Query texts with any number of ! in front of numbers and groups: exactly when what makepol writes for
    them is the polish notation of a tree.  After a group one ! is popped, so others stay on the stack, and a
    | that finds the stack not empty is written at once. */
module IntBangs {
  import opened Basics
  import opened IntQuery
  import opened IntParse

  // ----- Texts -----

  datatype Text = End(u: Piece) | And(u: Piece, rest: Text) | Or(u: Piece, rest: Text)
  datatype Piece = Number(bangs: nat, v: int) | Paren(bangs: nat, t: Text)

  function TextTokens(t: Text, tail: List<Token>): (ts: List<Token>) {
    match t
    case End(u) => PieceTokens(u, tail)
    case And(u, r) => PieceTokens(u, Cons(Amp, TextTokens(r, tail)))
    case Or(u, r) => PieceTokens(u, Cons(Bar, TextTokens(r, tail)))
  }

  function PieceTokens(u: Piece, tail: List<Token>): (ts: List<Token>) {
    match u
    case Number(bangs, v) => Bangs(bangs, Cons(Value(v), tail))
    case Paren(bangs, t) => Bangs(bangs, Cons(Open, TextTokens(t, Cons(Close, tail))))
  }

  // ----- The stack -----

  // What a number and a group leave of the stack.
  function Tight(stack: List<Pending>): (s: List<Pending>)
    ensures Length(s) <= Length(stack)
  {
    if stack.Nil? || stack.head == POr then stack else Tight(stack.tail)
  }

  function One(stack: List<Pending>): (s: List<Pending>)
    ensures Length(s) <= Length(stack)
  {
    if stack.Nil? || stack.head == POr then stack else stack.tail
  }

  function AfterPiece(stack: List<Pending>, u: Piece): (s: List<Pending>)
    ensures Length(s) <= u.bangs + Length(stack)
  {
    if u.Number? then Tight(Waits(u.bangs, stack)) else One(Waits(u.bangs, stack))
  }

  // How many operators & and | wait.
  function Binaries(stack: List<Pending>): (n: nat) {
    if stack.Nil? then 0 else (if stack.head == PNot then 0 else 1) + Binaries(stack.tail)
  }

  // The stacks of all levels have room.
  predicate HasRoom(t: Text, stack: List<Pending>)
    decreases t
  {
    var s := AfterPiece(stack, t.u);
    && PieceHasRoom(t.u, stack)
    && match t
       case End(_) => true
       case And(_, r) => Length(s) < STACKDEPTH && HasRoom(r, Cons(PAnd, s))
       case Or(_, r) => HasRoom(r, if s.Nil? then Cons(POr, Nil) else s)
  }

  predicate PieceHasRoom(u: Piece, stack: List<Pending>)
    decreases u
  {
    && (u.bangs > 0 ==> u.bangs + Length(stack) <= STACKDEPTH)
    && (u.Paren? ==> HasRoom(u.t, Nil))
  }

  /** The condition on a text: whenever a | finds something on the stack of its level, an & or a | waits there
      or in a level around it.  outer is the number of those that wait around the level. */
  predicate BarsHaveOperands(t: Text, stack: List<Pending>, outer: nat)
    decreases t
  {
    var s := AfterPiece(stack, t.u);
    && PieceHasOperands(t.u, stack, outer)
    && match t
       case End(_) => true
       case And(_, r) => BarsHaveOperands(r, Cons(PAnd, s), outer)
       case Or(_, r) =>
         if s.Nil? then BarsHaveOperands(r, Cons(POr, Nil), outer)
         else Binaries(s) + outer > 0 && BarsHaveOperands(r, s, outer)
  }

  predicate PieceHasOperands(u: Piece, stack: List<Pending>, outer: nat)
    decreases u
  {
    u.Paren? ==> BarsHaveOperands(u.t, Nil, outer + Binaries(stack))
  }

  // ----- Polish notation -----

  // How many operands the output leaves; None when an operator lacks one.
  function Depth(out: List<Node>): (d: Option<nat>) {
    if out.Nil? then Some(0)
    else
      var d := Depth(out.tail);
      match out.head
      case Operand(_) => if d.Some? then Some(d.value + 1) else None
      case Negation => if d.Some? && d.value >= 1 then d else None
      case Binary(_) => if d.Some? && d.value >= 2 then Some(d.value - 1) else None
  }

  // The trees the output stands for, the latest first.
  function Forest(out: List<Node>): (qs: List<Query>)
    requires Depth(out).Some?
    ensures Length(qs) == Depth(out).value && PushAll(qs, Nil) == out
  {
    if out.Nil? then Nil
    else
      var qs := Forest(out.tail);
      match out.head
      case Operand(v) => Cons(Val(v), qs)
      case Negation => Cons(Not(qs.head), qs.tail)
      case Binary(op) => Cons(Bin(op, qs.tail.head, qs.head), qs.tail.tail)
  }

  lemma {:induction false} PushDeepens(q: Query, out: List<Node>)
    requires Depth(out).Some?
    ensures Depth(Push(q, out)) == Some(Depth(out).value + 1)
  {
    match q
    case Val(_) =>
    case Not(p) => PushDeepens(p, out);
    case Bin(_, l, r) =>
      PushDeepens(l, out);
      PushDeepens(r, Push(l, out));
  }

  ghost predicate IsTree(out: List<Node>) {
    exists q :: out == Push(q, Nil)
  }

  lemma TreeIsDepthOne(out: List<Node>)
    ensures IsTree(out) <==> Depth(out) == Some(1)
  {
    if Depth(out) == Some(1) {
      var qs := Forest(out);
      assert Length(qs) == 1 && Length(qs.tail) == 0;
      assert out == Push(qs.head, PushAll(qs.tail, Nil));
    }
    if IsTree(out) {
      var q :| out == Push(q, Nil);
      PushDeepens(q, Nil);
    }
  }

  // ----- Depth during parsing -----

  // The output has an operand for every operator that waits, and extra more, or is broken already.
  predicate Balanced(out: List<Node>, extra: nat, stack: List<Pending>) {
    Depth(out).Some? ==> Depth(out).value == extra + Binaries(stack)
  }

  lemma {:induction false} PopAllBalanced(stack: List<Pending>, out: List<Node>, extra: nat)
    requires extra > 0 && Balanced(out, extra, stack)
    ensures Balanced(PopAll(stack, out), extra, Nil) && (Depth(PopAll(stack, out)).Some? <==> Depth(out).Some?)
  {
    if stack.Cons? {
      PopAllBalanced(stack.tail, Cons(NodeOf(stack.head), out), extra);
    }
  }

  lemma {:induction false} PopTightBalanced(stack: List<Pending>, out: List<Node>, extra: nat)
    requires extra > 0 && Balanced(out, extra, stack)
    ensures var (s, o) := PopTight(stack, out);
            s == Tight(stack) && Balanced(o, extra, s) && (Depth(o).Some? <==> Depth(out).Some?)
  {
    if stack.Cons? && stack.head != POr {
      PopTightBalanced(stack.tail, Cons(NodeOf(stack.head), out), extra);
    }
  }

  lemma PopOneBalanced(stack: List<Pending>, out: List<Node>, extra: nat)
    requires extra > 0 && Balanced(out, extra, stack)
    ensures var (s, o) := PopOne(stack, out);
            s == One(stack) && Balanced(o, extra, s) && (Depth(o).Some? <==> Depth(out).Some?)
  {
  }

  lemma {:induction false} WaitsBinaries(n: nat, stack: List<Pending>)
    ensures Binaries(Waits(n, stack)) == Binaries(stack)
  {
    if n > 0 {
      WaitsBinaries(n - 1, Cons(PNot, stack));
    }
  }

  // What reading on with more gives after a piece, from the state it leaves.
  ghost predicate Continues(u: Piece, more: List<Token>, stack: List<Pending>, out: List<Node>, outer: nat, o: List<Node>) {
    var s := AfterPiece(stack, u);
    && MakePol(PieceTokens(u, more), stack, out) == MakePol(more, s, o)
    && Balanced(o, outer + 1, s)
    && (Depth(o).Some? <==> Depth(out).Some? && PieceHasOperands(u, stack, outer))
  }

  lemma ReadNumber(u: Piece, more: List<Token>, stack: List<Pending>, out: List<Node>, outer: nat) returns (o: List<Node>)
    requires u.Number? && Length(stack) <= STACKDEPTH && Balanced(out, outer, stack)
    ensures if PieceHasRoom(u, stack) then Continues(u, more, stack, out, outer, o)
            else MakePol(PieceTokens(u, more), stack, out) == TooComplex
  {
    var stack' := Waits(u.bangs, stack);
    WaitsBinaries(u.bangs, stack);
    BangsStep(u.bangs, Cons(Value(u.v), more), stack, out);
    PopTightBalanced(stack', Cons(Operand(u.v), out), outer + 1);
    o := PopTight(stack', Cons(Operand(u.v), out)).1;
  }

  // A group with n times ! in front, whose tokens ts were read as inner.
  lemma EndGroup(n: nat, ts: List<Token>, more: List<Token>, stack: List<Pending>, out: List<Node>, inner: List<Node>,
                 extra: nat) returns (o: List<Node>)
    requires n + Length(stack) <= STACKDEPTH && MakePol(ts, Nil, out) == Parsed(more, inner)
    requires extra > 0 && Balanced(inner, extra, stack)
    ensures var s := One(Waits(n, stack));
            && MakePol(Bangs(n, Cons(Open, ts)), stack, out) == MakePol(more, s, o)
            && Balanced(o, extra, s) && (Depth(o).Some? <==> Depth(inner).Some?)
  {
    WaitsBinaries(n, stack);
    BangsStep(n, Cons(Open, ts), stack, out);
    PopOneBalanced(Waits(n, stack), inner, extra);
    o := PopOne(Waits(n, stack), inner).1;
  }

  lemma GroupTooComplex(n: nat, ts: List<Token>, stack: List<Pending>, out: List<Node>)
    requires Length(stack) <= STACKDEPTH
    requires (n > 0 && n + Length(stack) > STACKDEPTH) || MakePol(ts, Nil, out) == TooComplex
    ensures MakePol(Bangs(n, Cons(Open, ts)), stack, out) == TooComplex
  {
    BangsStep(n, Cons(Open, ts), stack, out);
  }

  lemma {:induction false} ReadPiece(u: Piece, more: List<Token>, stack: List<Pending>, out: List<Node>, outer: nat)
    returns (o: List<Node>)
    requires Length(stack) <= STACKDEPTH && Balanced(out, outer, stack)
    ensures if PieceHasRoom(u, stack) then Continues(u, more, stack, out, outer, o)
            else MakePol(PieceTokens(u, more), stack, out) == TooComplex
    decreases u
  {
    if u.Number? {
      o := ReadNumber(u, more, stack, out, outer);
    } else {
      o := out;
      var ts := TextTokens(u.t, Cons(Close, more));
      ReadText(u.t, Cons(Close, more), Nil, out, outer + Binaries(stack));
      if PieceHasRoom(u, stack) {
        o := EndGroup(u.bangs, ts, more, stack, out, MakePol(ts, Nil, out).out, outer + 1);
      } else {
        GroupTooComplex(u.bangs, ts, stack, out);
      }
    }
  }

  /** A level of any text: makepol fails exactly when a stack has no room, and otherwise leaves one operand
      more exactly when every | has its operands. */
  lemma {:induction false} ReadText(t: Text, tail: List<Token>, stack: List<Pending>, out: List<Node>, outer: nat)
    requires Length(stack) <= STACKDEPTH && Balanced(out, outer, stack) && (tail.Nil? || tail.head == Close)
    ensures var r := MakePol(TextTokens(t, tail), stack, out);
            if HasRoom(t, stack)
            then && r.Parsed? && r.rest == (if tail.Nil? then Nil else tail.tail) && Balanced(r.out, outer + 1, Nil)
                 && (Depth(r.out).Some? <==> Depth(out).Some? && BarsHaveOperands(t, stack, outer))
            else r == TooComplex
    decreases t
  {
    var s := AfterPiece(stack, t.u);
    match t
    case End(u) =>
      var o := ReadPiece(u, tail, stack, out, outer);
      if PieceHasRoom(u, stack) {
        PopAllBalanced(s, o, outer + 1);
      }
    case And(u, r) =>
      var o := ReadPiece(u, Cons(Amp, TextTokens(r, tail)), stack, out, outer);
      if PieceHasRoom(u, stack) && Length(s) < STACKDEPTH {
        ReadText(r, tail, Cons(PAnd, s), o, outer);
      }
    case Or(u, r) =>
      var o := ReadPiece(u, Cons(Bar, TextTokens(r, tail)), stack, out, outer);
      if PieceHasRoom(u, stack) {
        if s.Nil? {
          ReadText(r, tail, Cons(POr, Nil), o, outer);
        } else {
          ReadText(r, tail, s, Cons(Binary(OR), o), outer);
        }
      }
  }

  /** What makepol writes for a text is a tree if and only if every | that finds something on the stack has
      two operands to join, unless the text is too complex. */
  lemma TreeIff(t: Text)
    ensures var r := MakePol(TextTokens(t, Nil), Nil, Nil);
            && (r.TooComplex? <==> !HasRoom(t, Nil))
            && (HasRoom(t, Nil) ==> r.Parsed? && (IsTree(r.out) <==> BarsHaveOperands(t, Nil, 0)))
  {
    ReadText(t, Nil, Nil, Nil, 0);
    if HasRoom(t, Nil) {
      TreeIsDepthOne(MakePol(TextTokens(t, Nil), Nil, Nil).out);
    }
  }
}
