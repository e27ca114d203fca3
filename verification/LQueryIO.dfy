/** lquery_in and lquery_out as the loops they are. */
module LQueryIO {
  import opened Basics
  import opened CString
  import opened LTree
  import opened PathQuery
  import opened LQueryText
  import opened LQueryStore
  import opened LQueryImage

  // The parser's variables: the levels read so far, and the level and the variant being read.
  class QueryScan {
    const text: string
    var st: St
    var levels: seq<Level>
    var vars: seq<Variant>
    var not: bool
    var low: nat
    var high: nat
    var start: nat
    var wlen: nat
    var incase: bool
    var anyend: bool
    var sublexeme: bool
    var hasnot: bool

    constructor (s: string)
      ensures text == s && State() == Fresh([]) && !hasnot
    {
      text := s;
      st, levels, vars, not, low, high, start, wlen := WaitLevel, [], [], false, 0, 0, 0, 0;
      incase, anyend, sublexeme, hasnot := false, false, false, false;
    }

    function State(): P
      reads this
    {
      P(st, levels, vars, not, low, high, start, wlen, Flags(incase, anyend, sublexeme))
    }

    // hasnot says whether some level, or the one being read, is negated.
    ghost predicate Valid()
      reads this
    {
      hasnot <==> AnyNot(levels) || not
    }

    method StartVariant(at: nat)
      modifies this
      ensures State() == old(State()).(st := WaitDelim, start := at, wlen := 0, flags := NONE)
      ensures hasnot == old(hasnot)
    {
      start, wlen, st := at, 0, WaitDelim;
      incase, anyend, sublexeme := false, false, false;
    }

    method SetFlag(c: char)
      modifies this`incase, this`anyend, this`sublexeme
      ensures Flags(incase, anyend, sublexeme) == AddFlag(old(Flags(incase, anyend, sublexeme)), c)
    {
      if c == '@' {
        incase := true;
      } else if c == '*' {
        anyend := true;
      } else if c == '%' {
        sublexeme := true;
      }
    }

    method CloseVariant(ptr: nat)
      requires ptr <= |text|
      modifies this`vars
      ensures State() == old(State()).(vars := old(vars) + [VariantAt(text, old(State()), ptr)])
    {
      var n := (if sublexeme then 1 else 0) + (if incase then 1 else 0) + (if anyend then 1 else 0);
      var name := if start + n <= ptr then text[start..ptr - n] else "";
      vars := vars + [Variant(name, incase, anyend, sublexeme)];
    }

    method CloseLevel()
      requires Valid()
      modifies this
      ensures Valid() && State() == LQueryText.CloseLevel(old(State()))
    {
      ghost var was := levels;
      levels := levels + [Level(vars, not, low, high)];
      AnyNotSnoc(was, levels[|was|]);
      vars, not, low, high, st := [], false, 0, 0, WaitLevel;
      start, wlen, incase, anyend, sublexeme := 0, 0, false, false, false;
    }

    // The character at ptr, before a level or a variant.
    method TakeStart(ptr: nat) returns (error: Option<Error>)
      requires Valid() && ptr < |text| && (st == WaitLevel || st == WaitVar)
      modifies this
      ensures Valid()
      ensures Step(text, ptr, old(State())) == if error.Some? then Stop(error.value) else Go(State())
    {
      var c := text[ptr];
      error := None;
      if IsAlnum(c) {
        StartVariant(ptr);
        wlen := 1;
      } else if st == WaitLevel && c == '!' {
        StartVariant(ptr + 1);
        wlen, not, hasnot := 1, true, true;
      } else if st == WaitLevel && c == '*' {
        st := WaitOpen;
      } else {
        error := Some(SyntaxError(ptr));
      }
    }

    // The character at ptr, in a variant.
    method TakeName(ptr: nat) returns (error: Option<Error>)
      requires Valid() && ptr < |text| && st == WaitDelim
      modifies this
      ensures Valid()
      ensures Step(text, ptr, old(State())) == if error.Some? then Stop(error.value) else Go(State())
    {
      var c := text[ptr];
      error := None;
      if IsFlag(c) {
        if start == ptr {
          return Some(SyntaxError(ptr));
        }
        SetFlag(c);
        wlen := wlen + 1;
      } else if c == '|' || c == '.' {
        if wlen > 255 {
          return Some(NameTooLong(wlen, ptr));
        }
        CloseVariant(ptr);
        if c == '|' {
          st := WaitVar;
        } else {
          CloseLevel();
        }
      } else if IsAlnum(c) && !incase && !anyend && !sublexeme {
        wlen := wlen + 1;
      } else {
        error := Some(SyntaxError(ptr));
      }
    }

    // The character at ptr, in a wildcard.
    method TakeBounds(ptr: nat) returns (error: Option<Error>)
      requires Valid() && ptr < |text| && st != WaitLevel && st != WaitVar && st != WaitDelim
      modifies this
      ensures Valid()
      ensures Step(text, ptr, old(State())) == if error.Some? then Stop(error.value) else Go(State())
    {
      var c := text[ptr];
      error := None;
      if st == WaitOpen && c == '{' {
        st := WaitFNum;
      } else if st == WaitOpen && c == '.' {
        low, high := 0, ANY;
        CloseLevel();
      } else if st == WaitFNum && c == ',' {
        st := WaitSNum;
      } else if st == WaitFNum && IsDigit(c) {
        low, st := Atoi16(text, ptr), WaitND;
      } else if st == WaitSNum && IsDigit(c) {
        high, st := Atoi16(text, ptr), WaitClose;
      } else if st == WaitSNum && c == '}' {
        high, st := ANY, WaitEnd;
      } else if st == WaitClose && c == '}' {
        st := WaitEnd;
      } else if st == WaitND && c == '}' {
        high, st := low, WaitEnd;
      } else if st == WaitND && c == ',' {
        st := WaitSNum;
      } else if st == WaitEnd && c == '.' {
        CloseLevel();
      } else if !((st == WaitClose || st == WaitND) && IsDigit(c)) {
        error := Some(SyntaxError(ptr));
      }
    }

    // What follows the last character.
    method TakeEnd() returns (error: Option<Error>)
      requires Valid()
      modifies this
      ensures Valid()
      ensures Finish(text, old(State())) == if error.Some? then Refused(error.value) else Done(levels)
      ensures error.None? ==> !not
    {
      error := None;
      if st == WaitDelim {
        if start >= |text| {
          return Some(UnexpectedEnd);
        }
        CloseVariant(|text|);
        if vars[|vars| - 1].name == "" {
          return Some(UnexpectedEnd);
        }
        if wlen > 255 {
          return Some(NameTooLong(wlen, |text|));
        }
        CloseLevel();
      } else if st == WaitOpen {
        high := ANY;
        CloseLevel();
      } else if st == WaitEnd {
        CloseLevel();
      } else {
        error := Some(UnexpectedEnd);
      }
    }

    // The main loop.
    method Scan() returns (error: Option<Error>)
      requires Valid() && State() == Fresh([])
      modifies this
      ensures Valid() && (error.None? ==> !not)
      ensures Parse(text) == if error.Some? then Refused(error.value) else Done(levels)
    {
      var ptr := 0;
      while ptr < |text|
        invariant 0 <= ptr <= |text| && Valid() && Run(text, ptr, State()) == Parse(text)
      {
        if st == WaitLevel || st == WaitVar {
          error := TakeStart(ptr);
        } else if st == WaitDelim {
          error := TakeName(ptr);
        } else {
          error := TakeBounds(ptr);
        }
        if error.Some? {
          return;
        }
        ptr := ptr + 1;
      }
      error := TakeEnd();
    }
  }

  lemma AnyNotSnoc(ls: seq<Level>, l: Level)
    ensures AnyNot(ls + [l]) <==> AnyNot(ls) || l.not
  {
    if AnyNot(ls) {
      var i :| 0 <= i < |ls| && ls[i].not;
      assert (ls + [l])[i] == ls[i];
    }
    assert (ls + [l])[|ls|] == l;
  }

  // The loop that refuses wildcards whose bounds are in the wrong order.
  method CheckBounds(ls: seq<Level>) returns (bad: Option<Level>)
    ensures bad == FirstCrossed(ls)
  {
    var i := 0;
    assert ls[0..] == ls;
    while i < |ls|
      invariant 0 <= i <= |ls| && FirstCrossed(ls[i..]) == FirstCrossed(ls)
    {
      assert ls[i..][1..] == ls[i + 1..];
      if |ls[i].variants| == 0 && ls[i].low > ls[i].high {
        return Some(ls[i]);
      }
      i := i + 1;
    }
    return None;
  }

  method LevelFlagged(l: Level) returns (r: bool)
    ensures r == Flagged(l)
  {
    r := l.not;
    var i := 0;
    while i < |l.variants|
      invariant 0 <= i <= |l.variants|
      invariant r <==> l.not || exists k :: 0 <= k < i && (l.variants[k].incase || l.variants[k].anyend || l.variants[k].sublexeme)
    {
      var v := l.variants[i];
      if v.incase || v.anyend || v.sublexeme {
        r := true;
      }
      i := i + 1;
    }
  }

  // ----- Storing the levels -----

  // The loop that counts the good levels at the start.
  method CountGood(ls: seq<Level>) returns (firstgood: nat)
    ensures firstgood == UInt2(CountedGood(ls))
  {
    firstgood := 0;
    var wasbad := false;
    var i := 0;
    ghost var n: nat := 0;
    assert ls[0..] == ls;
    while i < |ls|
      invariant 0 <= i <= |ls| && firstgood == UInt2(n)
      invariant if wasbad then n == CountedGood(ls) else n + CountedGood(ls[i..]) == CountedGood(ls)
    {
      assert ls[i..][1..] == ls[i + 1..] && ls[i..][0] == ls[i];
      var flagged := LevelFlagged(ls[i]);
      var numvar := UInt2(|ls[i].variants|);
      if numvar > 0 {
        if numvar > 1 || flagged {
          wasbad := true;
        } else if !wasbad {
          UInt2Adds(n, 1);
          firstgood := UInt2(firstgood + 1);
          n := n + 1;
        }
      } else {
        wasbad := true;
      }
      i := i + 1;
    }
  }

  // The loop that copies the variants of a level and adds up their sizes.
  method LengthOf(l: Level) returns (totallen: nat)
    ensures totallen == TotalLen(l)
  {
    var vs := Copied(l);
    totallen := LQL_HDRSIZE;
    var i := 0;
    assert vs[..0] == [];
    while i < |vs|
      invariant 0 <= i <= |vs| && totallen == UInt2(LQL_HDRSIZE + 8 * VariantsWords(vs[..i]))
    {
      assert vs[..i + 1][..i] == vs[..i];
      UInt2Adds(LQL_HDRSIZE + 8 * VariantsWords(vs[..i]), 8 * VariantWords(vs[i]));
      totallen := UInt2(totallen + (LVAR_HDRSIZE + Align(|vs[i].name|)));
      i := i + 1;
    }
    assert vs[..i] == vs;
  }

  // The loop that writes the levels, each after the one before it as its length says.
  method Write(ls: seq<Level>) returns (ws: seq<Written>)
    ensures |ws| == |ls| && forall i :: 0 <= i < |ls| ==> ws[i] == WriteLevel(ls, i)
  {
    ws := [];
    var cur := 0;
    var i := 0;
    while i < |ls|
      invariant 0 <= i <= |ls| && |ws| == i && cur == Start(ls, i)
      invariant forall k :: 0 <= k < i ==> ws[k] == WriteLevel(ls, k)
    {
      var totallen := LengthOf(ls[i]);
      ws := ws + [Written(cur, totallen, UInt2(|ls[i].variants|), ls[i])];
      cur := cur + Align(totallen);
      i := i + 1;
    }
  }

  datatype Outcome = Accepted(st: Stored) | Rejected(error: Error)

  /** lquery_in: the query that is read, stored with the widths of its fields, or the error. */
  method In(text: string) returns (r: Outcome)
    ensures r == match Parse(text) case Read(q) => Accepted(Store(q)) case Refused(e) => Rejected(e)
  {
    var scan := new QueryScan(text);
    var error := scan.Scan();
    if error.Some? {
      return Rejected(error.value);
    }
    var bad := CheckBounds(scan.levels);
    if bad.Some? {
      return Rejected(LowIsGreater(bad.value.low, bad.value.high));
    }
    var firstgood := CountGood(scan.levels);
    var levels := Write(scan.levels);
    r := Accepted(Stored(UInt2(|scan.levels|), firstgood, scan.hasnot, levels));
  }

  // ----- lquery_out -----

  // Appends item i with the separator before it.
  method Append(text: string, i: nat, item: string, sep: string, ghost items: seq<string>) returns (text': string)
    requires i < |items| && items[i] == item
    ensures text' + Remaining(items, sep, i + 1) == text + Remaining(items, sep, i)
  {
    WriteNext(text, items, sep, i);
    text' := (if i != 0 then text + sep else text) + item;
  }

  method OutVariant(v: Variant) returns (t: string)
    ensures t == SpellVariant(v)
  {
    t := v.name;
    var mods := "";
    if v.sublexeme {
      mods := mods + "%";
    }
    if v.incase {
      mods := mods + "@";
    }
    if v.anyend {
      mods := mods + "*";
    }
    t := t + mods;
  }

  method OutVariants(pre: string, vs: seq<Variant>) returns (t: string)
    ensures t == pre + Join(Spellings(vs), "|", 0)
  {
    ghost var items := Spellings(vs);
    t := pre;
    var j := 0;
    while j < |vs|
      invariant 0 <= j <= |vs| && t + Remaining(items, "|", j) == pre + Remaining(items, "|", 0)
    {
      var v := OutVariant(vs[j]);
      t := Append(t, j, v, "|", items);
      j := j + 1;
    }
    assert t + "" == t;
  }

  method OutBounds(low: nat, high: nat) returns (t: string)
    ensures t == SpellBounds(low, high)
  {
    if low == high {
      t := Exactly(Digits(low));
    } else if low == 0 {
      if high == ANY {
        t := "*";
      } else {
        t := FromTo("", Digits(high));
      }
    } else if high == ANY {
      t := FromTo(Digits(low), "");
    } else {
      t := FromTo(Digits(low), Digits(high));
    }
  }

  method OutLevel(l: Level) returns (t: string)
    ensures t == SpellLevel(l)
  {
    if |l.variants| > 0 {
      t := OutVariants(if l.not then "!" else "", l.variants);
    } else {
      t := OutBounds(l.low, l.high);
    }
  }

  // Level i of the text.
  method OutItem(ls: seq<Level>, i: nat, ghost items: seq<string>) returns (t: string)
    requires i < |ls| == |items| && items == LevelTexts(ls)
    ensures t == items[i]
  {
    t := OutLevel(ls[i]);
  }

  // The loop over the levels.
  method OutLevels(ls: seq<Level>, ghost items: seq<string>) returns (text: string)
    requires |ls| == |items| && items == LevelTexts(ls)
    ensures text == Join(items, ".", 0)
  {
    text := "";
    var i := 0;
    while i < |ls|
      invariant 0 <= i <= |ls| && text + Remaining(items, ".", i) == "" + Remaining(items, ".", 0)
    {
      var t := OutItem(ls, i, items);
      text := Append(text, i, t, ".", items);
      i := i + 1;
    }
    assert text + "" == text;
  }

  /** lquery_out */
  method Out(q: LQuery) returns (text: string)
    ensures text == Print(q)
  {
    text := OutLevels(q.levels, LevelTexts(q.levels));
  }

  /** lquery_in, lquery_out and lquery_in again.  The query of a text is stored intact if and only if its
      sizes fit, and then what is printed is read as the same query and stored the same way. */
  method InOutIn(text: string) returns (a: Outcome, b: Outcome)
    ensures a.Accepted? <==> Parse(text).Read?
    ensures a.Accepted? ==> (Intact(a.st) <==> SizesFit(Parse(text).q))
    ensures a.Accepted? && Intact(a.st) ==> QueryOf(a.st) == Parse(text).q && b == a
  {
    a := In(text);
    b := a;
    if a.Accepted? {
      ReadIsWellFormed(text);
      IntactIff(Parse(text).q);
      if Intact(a.st) {
        PrintingIsFaithful(text);
        var printed := Out(QueryOf(a.st));
        b := In(printed);
      }
    }
  }
}
