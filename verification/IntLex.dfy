/** The texts of boolean queries, by themselves: numbers, !, &, | and parentheses with any number of blanks before,
    between and after them.  gettoken finds in a text the tokens of a query exactly when the text spells them. */
module IntLex {
  import opened Basics
  import opened CString
  import opened IntQuery
  import opened IntParse
  import opened IntBangs
  import opened IntPrint

  // ----- Spelling -----

  // A number as it is written: a digit or a minus, and digits.
  predicate IsNumeral(x: string) {
    x != "" && (IsDigit(x[0]) || x[0] == '-') && AllDigits(x[1..])
  }

  // The text at the start of s is the token t, and its length is n.
  predicate SpellsToken(s: string, n: nat, t: Token) {
    && 0 < n <= |s|
    && match t
       case Value(v) => IsNumeral(s[..n]) && Atoi(s[..n]) == v && (n == |s| || !IsDigit(s[n]))
       case Bang => s[..n] == "!"
       case Amp => s[..n] == "&"
       case Bar => s[..n] == "|"
       case Open => s[..n] == "("
       case Close => s[..n] == ")"
       case Err => false
  }

  /** The text s is the tokens ts, with blanks wherever one likes. */
  ghost predicate Spells(s: string, ts: List<Token>)
    decreases |s|
  {
    if s != "" && s[0] == ' ' then Spells(s[1..], ts)
    else if ts.Nil? then s == ""
    else exists n: nat :: SpellsToken(s, n, ts.head) && Spells(s[n..], ts.tail)
  }

  // ----- gettoken finds what is spelled -----

  lemma {:induction false} LexBlank(s: string, st: State, count: nat)
    requires s != "" && s[0] == ' '
    ensures Lex(s, st, count) == Lex(s[1..], st, count)
  {
  }

  lemma LexNumeral(s: string, n: nat, v: int, count: nat)
    requires SpellsToken(s, n, Value(v)) && (count > 0 ==> n < |s|)
    ensures Lex(s, WaitOperand, count) == Cons(Value(v), Lex(s[n..], WaitOperator, count))
  {
    var x := s[..n];
    assert s[1..] == x[1..] + s[n..] && s[0] == x[0];
    DigitRunOf(x[1..], s[n..]);
  }

  // Leading blanks away.
  lemma {:induction false} SkipBlanks(s: string, ts: List<Token>, st: State, count: nat) returns (s': string)
    requires Spells(s, ts)
    ensures Spells(s', ts) && (s' == "" || s'[0] != ' ') && Lex(s, st, count) == Lex(s', st, count) && |s'| <= |s|
    decreases |s|
  {
    if s != "" && s[0] == ' ' {
      LexBlank(s, st, count);
      s' := SkipBlanks(s[1..], ts, st, count);
    } else {
      s' := s;
    }
  }

  // The first token of a text, and what follows it.
  lemma FirstToken(s: string, t: Token, ts: List<Token>) returns (n: nat)
    requires Spells(s, Cons(t, ts)) && (s == "" || s[0] != ' ')
    ensures SpellsToken(s, n, t) && Spells(s[n..], ts)
  {
    n :| SpellsToken(s, n, t) && Spells(s[n..], ts);
  }

  lemma LexSign(s: string, n: nat, t: Token, count: nat)
    requires SpellsToken(s, n, t) && !t.Value?
    ensures n == 1
    ensures t == Bang ==> Lex(s, WaitOperand, count) == Cons(t, Lex(s[1..], WaitOperand, count))
    ensures t == Open ==> Lex(s, WaitOperand, count) == Cons(t, Lex(s[1..], WaitOperand, count + 1))
    ensures t == Amp || t == Bar ==> Lex(s, WaitOperator, count) == Cons(t, Lex(s[1..], WaitOperand, count))
    ensures t == Close && count > 0 ==> Lex(s, WaitOperator, count) == Cons(t, Lex(s[1..], WaitOperator, count - 1))
  {
    assert |s[..n]| == n && s[0] == s[..n][0];
  }

  // A sign, after any blanks, is found, and the text after it is left.
  lemma FindSign(s: string, t: Token, ts: List<Token>, st: State, count: nat) returns (s': string)
    requires Spells(s, Cons(t, ts)) && !t.Value? && t != Err
    requires (t == Bang || t == Open) == (st == WaitOperand) && (t == Close ==> count > 0)
    ensures Spells(s', ts)
    ensures var after := if t == Close then WaitOperator else WaitOperand;
            Lex(s, st, count) ==
            Cons(t, Lex(s', after, if t == Open then count + 1 else if t == Close then count - 1 else count))
  {
    var u := SkipBlanks(s, Cons(t, ts), st, count);
    var n := FirstToken(u, t, ts);
    LexSign(u, n, t, count);
    s' := u[1..];
  }

  lemma FindNumeral(s: string, v: int, ts: List<Token>, count: nat) returns (s': string)
    requires Spells(s, Cons(Value(v), ts)) && (count > 0 ==> ts.Cons?)
    ensures Spells(s', ts) && Lex(s, WaitOperand, count) == Cons(Value(v), Lex(s', WaitOperator, count))
  {
    var u := SkipBlanks(s, Cons(Value(v), ts), WaitOperand, count);
    var n := FirstToken(u, Value(v), ts);
    s' := u[n..];
    LexNumeral(u, n, v, count);
  }

  lemma {:induction false} FindBangs(s: string, n: nat, ts: List<Token>, count: nat) returns (s': string)
    requires Spells(s, Bangs(n, ts))
    ensures Spells(s', ts) && Lex(s, WaitOperand, count) == Bangs(n, Lex(s', WaitOperand, count))
    decreases n
  {
    if n == 0 {
      s' := s;
    } else {
      var u := FindSign(s, Bang, Bangs(n - 1, ts), WaitOperand, count);
      s' := FindBangs(u, n - 1, ts, count);
    }
  }

  lemma {:induction false} FindPiece(s: string, u: Piece, ts: List<Token>, count: nat) returns (s': string)
    requires Spells(s, PieceTokens(u, ts)) && (count > 0 ==> ts.Cons?)
    ensures Spells(s', ts) && Lex(s, WaitOperand, count) == PieceTokens(u, Lex(s', WaitOperator, count))
    decreases u
  {
    match u
    case Number(bangs, v) =>
      var a := FindBangs(s, bangs, Cons(Value(v), ts), count);
      s' := FindNumeral(a, v, ts, count);
    case Paren(bangs, t) =>
      var a := FindBangs(s, bangs, Cons(Open, TextTokens(t, Cons(Close, ts))), count);
      var b := FindSign(a, Open, TextTokens(t, Cons(Close, ts)), WaitOperand, count);
      var c := FindText(b, t, Cons(Close, ts), count + 1);
      s' := FindSign(c, Close, ts, WaitOperator, count + 1);
  }

  lemma {:induction false} FindText(s: string, t: Text, ts: List<Token>, count: nat) returns (s': string)
    requires Spells(s, TextTokens(t, ts)) && (count > 0 ==> ts.Cons?)
    ensures Spells(s', ts) && Lex(s, WaitOperand, count) == TextTokens(t, Lex(s', WaitOperator, count))
    decreases t
  {
    match t
    case End(u) => s' := FindPiece(s, u, ts, count);
    case And(u, r) =>
      var a := FindPiece(s, u, Cons(Amp, TextTokens(r, ts)), count);
      var b := FindSign(a, Amp, TextTokens(r, ts), WaitOperator, count);
      s' := FindText(b, r, ts, count);
    case Or(u, r) =>
      var a := FindPiece(s, u, Cons(Bar, TextTokens(r, ts)), count);
      var b := FindSign(a, Bar, TextTokens(r, ts), WaitOperator, count);
      s' := FindText(b, r, ts, count);
  }

  // ----- What is found is spelled -----

  predicate NoErr(ts: List<Token>) {
    ts.Nil? || (ts.head != Err && NoErr(ts.tail))
  }

  lemma {:induction false} DigitRunIs(s: string)
    ensures var n := DigitRun(s); AllDigits(s[..n]) && (n == |s| || !IsDigit(s[n]))
  {
    if s != "" && IsDigit(s[0]) {
      DigitRunIs(s[1..]);
      var n := DigitRun(s[1..]);
      assert s[..n + 1] == [s[0]] + s[1..][..n];
    }
  }

  lemma {:induction false} FoundIsSpelled(s: string, st: State, count: nat)
    requires NoErr(Lex(s, st, count))
    ensures Spells(s, Lex(s, st, count))
    decreases |s|
  {
    if s != "" {
      if s[0] == ' ' {
        FoundIsSpelled(s[1..], st, count);
      } else if st == WaitOperand && (IsDigit(s[0]) || s[0] == '-') {
        NumeralIsSpelled(s, count);
        FoundIsSpelled(s[1 + DigitRun(s[1..])..], WaitOperator, count);
      } else {
        var t, st', count' := SignFound(s, st, count);
        FoundIsSpelled(s[1..], st', count');
        assert SpellsToken(s, 1, t);
      }
    }
  }

  lemma NumeralIsSpelled(s: string, count: nat)
    requires s != "" && (IsDigit(s[0]) || s[0] == '-') && NoErr(Lex(s, WaitOperand, count))
    ensures var n := 1 + DigitRun(s[1..]);
            && SpellsToken(s, n, Value(Atoi(s[..n])))
            && Lex(s, WaitOperand, count) == Cons(Value(Atoi(s[..n])), Lex(s[n..], WaitOperator, count))
  {
    var n := 1 + DigitRun(s[1..]);
    DigitRunIs(s[1..]);
    assert s[..n][1..] == s[1..][..n - 1];
  }

  lemma SignFound(s: string, st: State, count: nat) returns (t: Token, st': State, count': nat)
    requires s != "" && s[0] != ' ' && !(st == WaitOperand && (IsDigit(s[0]) || s[0] == '-')) && NoErr(Lex(s, st, count))
    ensures SpellsToken(s, 1, t) && Lex(s, st, count) == Cons(t, Lex(s[1..], st', count'))
  {
    assert s[..1] == [s[0]];
    t := Lex(s, st, count).head;
    st' := if t == Close then WaitOperator else WaitOperand;
    count' := if t == Open then count + 1 else if t == Close then count - 1 else count;
  }

  lemma {:induction false} TextHasNoErr(t: Text, ts: List<Token>)
    requires NoErr(ts)
    ensures NoErr(TextTokens(t, ts))
    decreases t
  {
    match t
    case End(u) => PieceHasNoErr(u, ts);
    case And(u, r) =>
      TextHasNoErr(r, ts);
      PieceHasNoErr(u, Cons(Amp, TextTokens(r, ts)));
    case Or(u, r) =>
      TextHasNoErr(r, ts);
      PieceHasNoErr(u, Cons(Bar, TextTokens(r, ts)));
  }

  lemma {:induction false} PieceHasNoErr(u: Piece, ts: List<Token>)
    requires NoErr(ts)
    ensures NoErr(PieceTokens(u, ts))
    decreases u
  {
    match u
    case Number(bangs, v) => BangsHaveNoErr(bangs, Cons(Value(v), ts));
    case Paren(bangs, t) =>
      TextHasNoErr(t, Cons(Close, ts));
      BangsHaveNoErr(bangs, Cons(Open, TextTokens(t, Cons(Close, ts))));
  }

  lemma {:induction false} BangsHaveNoErr(n: nat, ts: List<Token>)
    requires NoErr(ts)
    ensures NoErr(Bangs(n, ts))
  {
    if n > 0 {
      BangsHaveNoErr(n - 1, ts);
    }
  }

  /** gettoken finds in a text the tokens of a query if and only if the text spells them. */
  lemma LexIff(s: string, t: Text)
    ensures Lex(s, WaitOperand, 0) == TextTokens(t, Nil) <==> Spells(s, TextTokens(t, Nil))
  {
    if Spells(s, TextTokens(t, Nil)) {
      var s' := FindText(s, t, Nil, 0);
      var u := SkipBlanks(s', Nil, WaitOperator, 0);
    }
    if Lex(s, WaitOperand, 0) == TextTokens(t, Nil) {
      TextHasNoErr(t, Nil);
      FoundIsSpelled(s, WaitOperand, 0);
    }
  }

  // ----- Texts with at most one ! before a group -----

  function ExprText(e: Expr): (t: Text) {
    match e
    case Last(u) => End(UnitPiece(u))
    case AndThen(u, r) => And(UnitPiece(u), ExprText(r))
    case OrThen(u, r) => Or(UnitPiece(u), ExprText(r))
  }

  function UnitPiece(u: Unit): (p: Piece) {
    match u
    case Num(bangs, v) => Number(bangs, v)
    case Group(neg, e) => Paren(if neg then 1 else 0, ExprText(e))
  }

  lemma {:induction false} ExprTokens(e: Expr, ts: List<Token>)
    ensures TextTokens(ExprText(e), ts) == Tokens(e, ts)
    decreases e
  {
    match e
    case Last(u) => UnitTokensAre(u, ts);
    case AndThen(u, r) =>
      ExprTokens(r, ts);
      UnitTokensAre(u, Cons(Amp, Tokens(r, ts)));
    case OrThen(u, r) =>
      ExprTokens(r, ts);
      UnitTokensAre(u, Cons(Bar, Tokens(r, ts)));
  }

  lemma {:induction false} UnitTokensAre(u: Unit, ts: List<Token>)
    ensures PieceTokens(UnitPiece(u), ts) == UnitTokens(u, ts)
    decreases u
  {
    if u.Group? {
      ExprTokens(u.e, Cons(Close, ts));
    }
  }

  lemma LexExprIff(s: string, e: Expr)
    ensures Lex(s, WaitOperand, 0) == Tokens(e, Nil) <==> Spells(s, Tokens(e, Nil))
  {
    ExprTokens(e, Nil);
    LexIff(s, ExprText(e));
  }
}
