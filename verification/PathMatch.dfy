/** Matching a path with a path query: checkCond walks the levels of the query and the labels of the path
    together, tries later labels after a wildcard first, and collects what negated levels must not match. */
module PathMatch {
  import opened Basics
  import opened CString
  import opened LTree
  import opened PathQuery

  predicate IsWild(l: Level) {
    l.variants == []
  }

  // FieldNot: the levels and the labels that a run of negated levels spans; NoNeg when there is none.
  datatype Neg = NoNeg | Neg(q: nat, nq: nat, t: nat, nt: int, post: nat)

  // ----- checkCond as a function -----

  // n more labels pass while negated levels wait.
  function Pass(neg: Neg, n: nat): Neg {
    if neg.Neg? then neg.(nt := neg.nt + n) else neg
  }

  function AfterWild(ls: seq<Level>, j: nat): bool
    requires j < |ls|
  {
    j > 0 && IsWild(ls[j - 1])
  }

  // Negated level j joins the run, with the label at position c; prevt is the label before any were skipped.
  function AddNot(ls: seq<Level>, j: nat, neg: Neg, prevt: nat, c: nat, tn: nat): (neg': Neg)
    requires j < |ls|
    ensures neg'.Neg?
  {
    var n := if neg.Neg? then neg.(nt := neg.nt + 1, nq := neg.nq + 1)
             else if AfterWild(ls, j) then Neg(j - 1, 2, prevt, 1, c)
             else Neg(j, 1, prevt, 1, c);
    if j + 1 == |ls| && n.q < |ls| && IsWild(ls[n.q]) then n.(nt := tn - n.post) else n
  }

  // Wildcard j joins the run, if there is one.
  function AddWild(ls: seq<Level>, j: nat, neg: Neg, tn: nat): (neg': Neg)
    requires j < |ls|
  {
    if neg.NoNeg? then neg
    else neg.(nq := neg.nq + 1, nt := if j + 1 == |ls| then tn - neg.post else neg.nt)
  }

  // The levels of the run match the labels of the run.
  ghost predicate NegMatches(ls: seq<Level>, p: Path, neg: Neg)
    requires neg.Neg?
    decreases 1, 0, 0, 0, 0
  {
    && neg.nt >= 0 && neg.q + neg.nq <= |ls| && neg.t + neg.nt <= |p|
    && Cond(ls[neg.q..neg.q + neg.nq], p[neg.t..neg.t + neg.nt], false, 0, 0, 0, 0, 0, NoNeg)
  }

  /** What checkCond answers from level j on.  The call began at label b of the path and has consumed c
      labels; level j may match at positions low to high from b.  nots tells whether negated levels count. */
  ghost predicate Cond(ls: seq<Level>, p: Path, nots: bool, b: nat, c: nat, j: nat, low: nat, high: nat, neg: Neg)
    requires b + c <= |p| && j <= |ls|
    decreases if nots then 2 else 0, |p| - b, |ls| - j, 2, 0
  {
    var tn := |p| - b;
    if c == tn || j == |ls| then Finish(ls, p, nots, b, c, j, low, high, neg)
    else if IsWild(ls[j]) then
      Cond(ls, p, nots, b, c, j + 1, c + ls[j].low, c + ls[j].high, AddWild(ls, j, neg, tn))
    else if c < low && low >= tn then false
    else
      var at := if c < low then low else c;
      var neg' := Pass(neg, at - c);
      if nots && ls[j].not then
        Cond(ls, p, nots, b, at + 1, j + 1, low, if high < at + 1 then high + 1 else high,
             AddNot(ls, j, neg', b + c, at, tn))
      else Try(ls, p, nots, b, at, j, high, neg')
  }

  // Looking for a label for level j from position c on; after a wildcard later labels come first.
  ghost predicate Try(ls: seq<Level>, p: Path, nots: bool, b: nat, c: nat, j: nat, high: nat, neg: Neg)
    requires b + c <= |p| && j < |ls|
    decreases if nots then 2 else 0, |p| - b, |ls| - j, 1, |p| - b - c
  {
    var tn := |p| - b;
    if c > high || c == tn then false
    else if !LevelMatches(ls[j], p[b + c]) then Try(ls, p, nots, b, c + 1, j, high, Pass(neg, 1))
    else if AfterWild(ls, j) && c + 1 < tn && c + 1 <= high && Cond(ls, p, nots, b + c + 1, 0, j, 0, high - (c + 1), neg)
    then true
    else Placed(ls, p, nots, b, c + 1, j, neg)
  }

  // Level j has its label, the one before position c.
  ghost predicate Placed(ls: seq<Level>, p: Path, nots: bool, b: nat, c: nat, j: nat, neg: Neg)
    requires b + c <= |p| && j < |ls|
    decreases if nots then 2 else 0, |p| - b, |ls| - j, 0, 0
  {
    if neg.Neg? then nots && !NegMatches(ls, p, neg) && Cond(ls, p, nots, b, c, j + 1, c, c, NoNeg)
    else Cond(ls, p, nots, b, c, j + 1, c, c, NoNeg)
  }

  // The bounds left by the levels from j on, when no labels are left; None when a level needs a label.
  function Leftover(ls: seq<Level>, c: nat, j: nat, low: nat, high: nat): (r: Option<(nat, nat)>)
    requires j <= |ls|
    decreases |ls| - j
  {
    if j == |ls| then Some((low, high))
    else if IsWild(ls[j]) then Leftover(ls, c, j + 1, c + ls[j].low, c + ls[j].high)
    else if ls[j].not then Leftover(ls, c, j + 1, low, high)
    else None
  }

  ghost predicate Finish(ls: seq<Level>, p: Path, nots: bool, b: nat, c: nat, j: nat, low: nat, high: nat, neg: Neg)
    requires b + c <= |p| && j <= |ls|
    decreases if nots then 2 else 0, |p| - b, |ls| - j, 1, 0
  {
    var tn := |p| - b;
    && low <= tn <= high
    && Leftover(ls, c, j, low, high).Some?
    && Leftover(ls, c, j, low, high).value.0 <= tn <= Leftover(ls, c, j, low, high).value.1
    && (neg.Neg? ==> nots && !NegMatches(ls, p, neg))
  }

  /** What ltq_regex answers. */
  ghost predicate Matches(q: LQuery, p: Path) {
    Cond(q.levels, p, q.hasnot, 0, 0, 0, 0, 0, NoNeg)
  }

  // ----- Labels -----

  lemma LowerKeepsNoNul(s: string)
    requires NoNul(s)
    ensures NoNul(LowerAll(s))
  {
  }

  // cmpptr over the length of w: strncmp, or the same of the strings in lower case.
  method SameName(v: Variant, w: string, x: string) returns (r: bool)
    requires |w| <= |x| && NoNul(w) && NoNul(x)
    ensures r <==> if v.incase then LowerAll(w) == LowerAll(x[..|w|]) else w == x[..|w|]
  {
    var a, b := w, x[..|w|];
    if v.incase {
      LowerKeepsNoNul(a);
      LowerKeepsNoNul(b);
      a, b := LowerAll(a), LowerAll(b);
    }
    StrncmpZero(a, b);
    r := Strncmp(a, b) == 0;
  }

  // The test both comparisons share: the lengths, then the characters.
  method CheckName(v: Variant, w: string, x: string) returns (r: bool)
    requires NoNul(w) && NoNul(x)
    ensures r <==> NameMatches(v, w, x)
  {
    r := false;
    if |x| == |w| || (|x| > |w| && v.anyend) {
      r := SameName(v, w, x);
    }
  }

  /** getlexeme: where the next word starts and ends. */
  method GetLexeme(s: string, from: nat) returns (r: Option<(nat, nat)>)
    requires from <= |s|
    ensures r.None? <==> Words(s, from) == []
    ensures r.Some? ==> from <= r.value.0 < r.value.1 <= |s|
    ensures r.Some? ==> Words(s, from) == [s[r.value.0..r.value.1]] + Words(s, r.value.1)
  {
    var start := from;
    while start < |s| && s[start] == '_'
      invariant from <= start <= |s| && SkipBars(s, start) == SkipBars(s, from)
    {
      start := start + 1;
    }
    if start == |s| {
      return None;
    }
    var ptr := start;
    while ptr < |s| && s[ptr] != '_'
      invariant start <= ptr <= |s| && WordEnd(s, ptr) == WordEnd(s, start)
    {
      ptr := ptr + 1;
    }
    r := Some((start, ptr));
  }

  // The inner loop of compare_subnode: some word of the label matches w.
  method FindWord(v: Variant, w: string, name: string) returns (isok: bool)
    requires NoNul(w) && NoNul(name)
    ensures isok <==> WordMatches(v, w, Words(name, 0))
  {
    ghost var all := Words(name, 0);
    ghost var n := 0;
    var tn := 0;
    while true
      invariant tn <= |name| && n <= |all| && Words(name, tn) == all[n..]
      invariant forall j :: 0 <= j < n ==> !NameMatches(v, w, all[j])
      decreases |name| - tn
    {
      var word := GetLexeme(name, tn);
      if word.None? {
        return false;
      }
      assert all[n] == name[word.value.0..word.value.1];
      assert all[n + 1..] == all[n..][1..];
      isok := CheckName(v, w, name[word.value.0..word.value.1]);
      if isok {
        return true;
      }
      tn := word.value.1;
      n := n + 1;
    }
  }

  /** compare_subnode: every word of the variant matches some word of the label. */
  method CompareSubnode(v: Variant, name: string) returns (r: bool)
    requires NoNul(v.name) && NoNul(name)
    ensures r <==> WordsMatch(v, name)
  {
    ghost var all := Words(v.name, 0);
    ghost var n := 0;
    var qn := 0;
    while true
      invariant qn <= |v.name| && n <= |all| && Words(v.name, qn) == all[n..]
      invariant forall i :: 0 <= i < n ==> WordMatches(v, all[i], Words(name, 0))
      decreases |v.name| - qn
    {
      var word := GetLexeme(v.name, qn);
      if word.None? {
        return true;
      }
      assert all[n] == v.name[word.value.0..word.value.1];
      assert all[n + 1..] == all[n..][1..];
      var isok := FindWord(v, v.name[word.value.0..word.value.1], name);
      if !isok {
        return false;
      }
      qn := word.value.1;
      n := n + 1;
    }
  }

  predicate CleanLevel(l: Level) {
    forall i :: 0 <= i < |l.variants| ==> NoNul(l.variants[i].name)
  }

  predicate CleanLevels(ls: seq<Level>) {
    forall j :: 0 <= j < |ls| ==> CleanLevel(ls[j])
  }

  /** checkLevel: some variant of the level matches the label. */
  method CheckLevel(l: Level, name: string) returns (r: bool)
    requires CleanLevel(l) && NoNul(name)
    ensures r <==> LevelMatches(l, name)
  {
    var i := 0;
    while i < |l.variants|
      invariant 0 <= i <= |l.variants| && forall k :: 0 <= k < i ==> !VariantMatches(l.variants[k], name)
    {
      var v := l.variants[i];
      var ok;
      if v.sublexeme {
        ok := CompareSubnode(v, name);
      } else {
        ok := CheckName(v, v.name, name);
      }
      if ok {
        return true;
      }
      i := i + 1;
    }
    return false;
  }

  // ----- checkCond -----

  // The run of negated levels ends before level j and its labels are among those consumed, or, once it
  // reaches the end of the query, among those of the path.  Then it can be cut out of both.
  predicate InReach(ls: seq<Level>, p: Path, b: nat, c: nat, j: nat, neg: Neg) {
    neg.Neg? ==>
      && neg.q + neg.nq == j <= |ls| && neg.t <= b + neg.post && neg.t + neg.nt <= |p|
      && (j < |ls| ==> neg.t + neg.nt <= b + c)
  }

  lemma PassReaches(ls: seq<Level>, p: Path, b: nat, c: nat, j: nat, neg: Neg, n: nat)
    requires InReach(ls, p, b, c, j, neg) && j < |ls| && b + c + n <= |p|
    ensures InReach(ls, p, b, c + n, j, Pass(neg, n))
  {
  }

  lemma AddNotReaches(ls: seq<Level>, p: Path, b: nat, c: nat, at: nat, j: nat, neg: Neg)
    requires InReach(ls, p, b, at, j, neg) && j < |ls| && c <= at && b + at < |p|
    ensures InReach(ls, p, b, at + 1, j + 1, AddNot(ls, j, neg, b + c, at, |p| - b))
  {
  }

  lemma AddWildReaches(ls: seq<Level>, p: Path, b: nat, c: nat, j: nat, neg: Neg)
    requires InReach(ls, p, b, c, j, neg) && j < |ls| && b + c <= |p|
    ensures InReach(ls, p, b, c, j + 1, AddWild(ls, j, neg, |p| - b))
  {
  }

  // What comes of looking for a label: none, a match of everything, or a label before position c.
  datatype Found = Miss | Whole | At(c: nat, neg: Neg)

  // SomeStack, through which a call that tries later labels learns how far it may go.
  class SomeStack {
    var muse: bool
    var highPos: nat

    constructor ()
      ensures !muse
    {
      muse, highPos := false, 0;
    }

    // The negated part, which is matched without regard to further negations.
    method NegPart(ls: seq<Level>, p: Path, neg: Neg) returns (r: bool)
      requires neg.Neg? && neg.q + neg.nq <= |ls| && neg.t + neg.nt <= |p| && CleanLevels(ls) && CleanPath(p) && !muse
      modifies this
      ensures !muse && (r <==> NegMatches(ls, p, neg))
      decreases 1, 0, 0, 0
    {
      if neg.nt < 0 {
        return false;
      }
      r := CheckCond(ls[neg.q..neg.q + neg.nq], p[neg.t..neg.t + neg.nt], false, 0, 0, NoNeg);
    }

    // The loop that looks for a label for level j.
    method FindLabel(ls: seq<Level>, p: Path, nots: bool, b: nat, c0: nat, j: nat, high: nat, neg0: Neg) returns (r: Found)
      requires b + c0 <= |p| && j < |ls| && CleanLevels(ls) && CleanPath(p) && !muse
      requires (neg0.Neg? ==> nots) && InReach(ls, p, b, c0, j, neg0)
      modifies this
      ensures !muse && (r.At? ==> c0 < r.c && b + r.c <= |p|)
      ensures r.At? ==> (r.neg.Neg? ==> nots) && InReach(ls, p, b, r.c, j, r.neg)
      ensures Try(ls, p, nots, b, c0, j, high, neg0) <==> r == Whole || (r.At? && Placed(ls, p, nots, b, r.c, j, r.neg))
      decreases if nots then 2 else 0, |p| - b, 0, |p| - b - c0
    {
      var tn := |p| - b;
      var c: nat, neg := c0, neg0;
      while c <= high && c < tn
        invariant c0 <= c <= tn && !muse && (neg.Neg? ==> nots) && InReach(ls, p, b, c, j, neg)
        invariant Try(ls, p, nots, b, c0, j, high, neg0) <==> Try(ls, p, nots, b, c, j, high, neg)
      {
        var isok := CheckLevel(ls[j], p[b + c]);
        if isok {
          if AfterWild(ls, j) && c + 1 < tn && c + 1 <= high {
            highPos := high - (c + 1);
            muse := true;
            var later := CheckCond(ls, p, nots, b + c + 1, j - 1, neg);
            if later {
              return Whole;
            }
          }
          return At(c + 1, neg);
        }
        c, neg := c + 1, Pass(neg, 1);
      }
      r := Miss;
    }

    // Finds a label for level j and settles the negated levels before it: the answer, if that decides, or the
    // position after the label.
    method TakeLabel(ls: seq<Level>, p: Path, nots: bool, b: nat, at: nat, j: nat, high: nat, neg: Neg)
      returns (answer: Option<bool>, c: nat)
      requires b + at <= |p| && j < |ls| && CleanLevels(ls) && CleanPath(p) && !muse
      requires (neg.Neg? ==> nots) && InReach(ls, p, b, at, j, neg)
      modifies this
      ensures !muse && b + c <= |p|
      ensures Try(ls, p, nots, b, at, j, high, neg) <==>
              if answer.Some? then answer.value else Cond(ls, p, nots, b, c, j + 1, c, c, NoNeg)
      decreases if nots then 2 else 0, |p| - b, 0, |p| - b - at + 1
    {
      var found := FindLabel(ls, p, nots, b, at, j, high, neg);
      match found
      case Miss => return Some(false), 0;
      case Whole => return Some(true), 0;
      case At(n, neg') =>
        if neg'.Neg? {
          var hit := NegPart(ls, p, neg');
          if hit {
            return Some(false), 0;
          }
        }
        return None, n;
    }

    // The loop over the levels that are left when the labels have run out.
    method Rest(ls: seq<Level>, c: nat, j0: nat, low0: nat, high0: nat) returns (r: Option<(nat, nat)>)
      requires j0 <= |ls|
      ensures r == Leftover(ls, c, j0, low0, high0)
    {
      var j: nat, low: nat, high: nat := j0, low0, high0;
      while j < |ls|
        invariant j0 <= j <= |ls| && Leftover(ls, c, j, low, high) == Leftover(ls, c, j0, low0, high0)
      {
        if |ls[j].variants| > 0 {
          if !ls[j].not {
            return None;
          }
        } else {
          low, high := c + ls[j].low, c + ls[j].high;
        }
        j := j + 1;
      }
      r := Some((low, high));
    }

    // One round of the main loop, for level j: the answer, if that decides, or the state before level j + 1.
    method Round(ls: seq<Level>, p: Path, nots: bool, b: nat, c: nat, j: nat, low: nat, high: nat, neg: Neg)
      returns (answer: Option<bool>, c': nat, low': nat, high': nat, neg': Neg)
      requires b + c < |p| && j < |ls| && CleanLevels(ls) && CleanPath(p) && !muse
      requires (neg.Neg? ==> nots) && InReach(ls, p, b, c, j, neg)
      modifies this
      ensures !muse && b + c' <= |p| && (neg'.Neg? ==> nots) && (answer.None? ==> InReach(ls, p, b, c', j + 1, neg'))
      ensures Cond(ls, p, nots, b, c, j, low, high, neg) <==>
              if answer.Some? then answer.value else Cond(ls, p, nots, b, c', j + 1, low', high', neg')
      decreases if nots then 2 else 0, |p| - b, 0, |p| - b + 2
    {
      var tn := |p| - b;
      answer, c', low', high', neg' := None, c, low, high, neg;
      if |ls[j].variants| == 0 {
        AddWildReaches(ls, p, b, c, j, neg);
        neg' := AddWild(ls, j, neg, tn);
        low', high' := c + ls[j].low, c + ls[j].high;
        return;
      }
      if c < low && low >= tn {
        answer := Some(false);
        return;
      }
      var at := if c < low then low else c;
      PassReaches(ls, p, b, c, j, neg, at - c);
      neg' := Pass(neg, at - c);
      if nots && ls[j].not {
        AddNotReaches(ls, p, b, c, at, j, neg');
        neg' := AddNot(ls, j, neg', b + c, at, tn);
        c' := at + 1;
        high' := if high < c' then high + 1 else high;
      } else {
        answer, c' := TakeLabel(ls, p, nots, b, at, j, high, neg');
        neg', low', high' := NoNeg, c', c';
      }
    }

    /** checkCond, from the label b of the path and the level first of the query on; with muse set, that
        level is the wildcard whose labels are tried again. */
    method CheckCond(ls: seq<Level>, p: Path, nots: bool, b: nat, first: nat, neg0: Neg) returns (r: bool)
      requires b <= |p| && first <= |ls| && (muse ==> first < |ls|) && CleanLevels(ls) && CleanPath(p)
      requires (neg0.Neg? ==> nots) && InReach(ls, p, b, 0, if muse then first + 1 else first, neg0)
      modifies this
      ensures !muse
      ensures r <==> Cond(ls, p, nots, b, 0, if old(muse) then first + 1 else first,
                          0, if old(muse) then old(highPos) else 0, neg0)
      decreases if nots then 2 else 0, |p| - b, 1, 0
    {
      var c: nat, low: nat, high: nat, j: nat, neg := 0, 0, 0, first, neg0;
      if muse {
        high, j := highPos, j + 1;
        muse := false;
      }
      ghost var whole := Cond(ls, p, nots, b, c, j, low, high, neg);
      while c < |p| - b && j < |ls|
        invariant b + c <= |p| && j <= |ls| && !muse && (neg.Neg? ==> nots) && InReach(ls, p, b, c, j, neg)
        invariant whole == Cond(ls, p, nots, b, c, j, low, high, neg)
        decreases |ls| - j
      {
        var answer;
        answer, c, low, high, neg := Round(ls, p, nots, b, c, j, low, high, neg);
        if answer.Some? {
          return answer.value;
        }
        j := j + 1;
      }
      r := End(ls, p, nots, b, c, j, low, high, neg);
    }

    // What follows the main loop.
    method End(ls: seq<Level>, p: Path, nots: bool, b: nat, c: nat, j: nat, low: nat, high: nat, neg: Neg) returns (r: bool)
      requires b + c <= |p| && j <= |ls| && CleanLevels(ls) && CleanPath(p) && !muse
      requires neg.Neg? ==> nots && neg.q + neg.nq <= |ls| && neg.t + neg.nt <= |p|
      modifies this
      ensures !muse && (r <==> Finish(ls, p, nots, b, c, j, low, high, neg))
      decreases if nots then 2 else 0, |p| - b, 0, 0
    {
      var tn := |p| - b;
      if low > tn || tn > high {
        return false;
      }
      var rest := Rest(ls, c, j, low, high);
      if rest.None? || rest.value.0 > tn || tn > rest.value.1 {
        return false;
      }
      if neg.Neg? {
        var hit := NegPart(ls, p, neg);
        return !hit;
      }
      return true;
    }
  }

  /** ltq_regex */
  method LtqRegex(q: LQuery, p: Path) returns (res: bool)
    requires CleanLevels(q.levels) && CleanPath(p)
    ensures res <==> Matches(q, p)
  {
    var stack := new SomeStack();
    res := stack.CheckCond(q.levels, p, q.hasnot, 0, 0, NoNeg);
  }
}
