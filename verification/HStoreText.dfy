/** The text form of an hstore: what the two state machines of the parser read, what the printer writes,
    and that reading undoes writing. */
module HStoreText {
  import opened Basics
  import opened CString
  import opened HStoreLayout

  // ----- Reading -----

  datatype Error = UnexpectedEnd | SyntaxError(c: char, pos: nat) | KeyTooLong | ValueTooLong

  // The states of get_val
  datatype ValState = WaitVal | InVal | InEscVal | WaitEscIn | WaitEscEscIn

  // What get_val leaves: the word, whether it was quoted and where the cursor stands, or nothing.
  datatype Got = Got(word: string, escaped: bool, ptr: nat) | NoVal | Bad(error: Error)

  // The character under the cursor; a C string ends with NUL.
  function CharAt(s: string, ptr: nat): char
    requires ptr <= |s|
  {
    if ptr < |s| then s[ptr] else '\0'
  }

  predicate IsSpace(c: char) {
    c == ' ' || '\t' <= c <= '\r'
  }

  function GetVal(s: string, ptr: nat, st: ValState, word: string, escaped: bool, ignoreeq: bool): (r: Got)
    requires NoNul(s) && ptr <= |s| && (st == InVal ==> ptr > 0)
    ensures r.Got? ==> ptr <= r.ptr + 1 <= |s| && (st == WaitVal ==> ptr <= r.ptr)
    decreases |s| - ptr
  {
    var c := CharAt(s, ptr);
    if c == '\0' then
      (match st
       case WaitVal => NoVal
       case InVal => Got(word, escaped, ptr - 1)
       case _ => Bad(UnexpectedEnd))
    else
      match st
      case WaitVal =>
        if c == '"' then GetVal(s, ptr + 1, InEscVal, word, true, ignoreeq)
        else if c == '=' && !ignoreeq then Bad(SyntaxError(c, ptr))
        else if c == '\\' then GetVal(s, ptr + 1, WaitEscIn, word, escaped, ignoreeq)
        else if !IsSpace(c) then GetVal(s, ptr + 1, InVal, word + [c], escaped, ignoreeq)
        else GetVal(s, ptr + 1, WaitVal, word, escaped, ignoreeq)
      case InVal =>
        if c == '\\' then GetVal(s, ptr + 1, WaitEscIn, word, escaped, ignoreeq)
        else if (c == '=' && !ignoreeq) || (c == ',' && ignoreeq) then Got(word, escaped, ptr - 1)
        else if IsSpace(c) then Got(word, escaped, ptr)
        else GetVal(s, ptr + 1, InVal, word + [c], escaped, ignoreeq)
      case InEscVal =>
        if c == '\\' then GetVal(s, ptr + 1, WaitEscEscIn, word, escaped, ignoreeq)
        else if c == '"' then Got(word, escaped, ptr)
        else GetVal(s, ptr + 1, InEscVal, word + [c], escaped, ignoreeq)
      case WaitEscIn => GetVal(s, ptr + 1, InVal, word + [c], escaped, ignoreeq)
      case WaitEscEscIn => GetVal(s, ptr + 1, InEscVal, word + [c], escaped, ignoreeq)
  }

  // The states of parse_hstore; a key is pending from WEq to WVal.
  datatype State = WKey | WEq(key: string) | WGt(key: string) | WVal(key: string) | WDel

  datatype Parsed = Ok(pairs: seq<Pair>) | Fail(error: Error)

  predicate IsNull(word: string, escaped: bool) {
    |word| == 4 && !escaped && Lower(word[0]) == 'n' && Lower(word[1]) == 'u' && Lower(word[2]) == 'l' && Lower(word[3]) == 'l'
  }

  function ReadVal(key: string, word: string, escaped: bool): Pair {
    Pair(key, if IsNull(word, escaped) then None else Some(word))
  }

  function Parse(s: string, ptr: nat, st: State, pairs: seq<Pair>): Parsed
    requires NoNul(s) && ptr <= |s|
    decreases |s| - ptr
  {
    var c := CharAt(s, ptr);
    match st
    case WKey =>
      (match GetVal(s, ptr, WaitVal, "", false, false)
       case NoVal => Ok(pairs)
       case Bad(e) => Fail(e)
       case Got(word, _, p) => if |word| > HSTORE_MAX_KEY_LEN then Fail(KeyTooLong) else Parse(s, p + 1, WEq(word), pairs))
    case WEq(key) =>
      if c == '=' then Parse(s, ptr + 1, WGt(key), pairs)
      else if c == '\0' then Fail(UnexpectedEnd)
      else if !IsSpace(c) then Fail(SyntaxError(c, ptr))
      else Parse(s, ptr + 1, st, pairs)
    case WGt(key) =>
      if c == '>' then Parse(s, ptr + 1, WVal(key), pairs)
      else if c == '\0' then Fail(UnexpectedEnd)
      else Fail(SyntaxError(c, ptr))
    case WVal(key) =>
      (match GetVal(s, ptr, WaitVal, "", false, true)
       case NoVal => Fail(UnexpectedEnd)
       case Bad(e) => Fail(e)
       case Got(word, escaped, p) =>
         if |word| > HSTORE_MAX_VALUE_LEN then Fail(ValueTooLong)
         else Parse(s, p + 1, WDel, pairs + [ReadVal(key, word, escaped)]))
    case WDel =>
      if c == ',' then Parse(s, ptr + 1, WKey, pairs)
      else if c == '\0' then Ok(pairs)
      else if !IsSpace(c) then Fail(SyntaxError(c, ptr))
      else Parse(s, ptr + 1, st, pairs)
  }

  // ----- Writing -----

  // cpw
  function Escape(w: string): string {
    if w == "" then "" else (if w[0] == '"' || w[0] == '\\' then ['\\', w[0]] else [w[0]]) + Escape(w[1..])
  }

  function Quote(w: string): string {
    "\"" + Escape(w) + "\""
  }

  function PrintVal(v: Option<string>): string {
    if v.None? then "NULL" else Quote(v.value)
  }

  function PrintPair(p: Pair): string {
    Quote(p.key) + "=>" + PrintVal(p.val)
  }

  function Items(ps: seq<Pair>): seq<string> {
    seq(|ps|, i requires 0 <= i < |ps| => PrintPair(ps[i]))
  }

  function Print(ps: seq<Pair>): string {
    Join(Items(ps), ", ", 0)
  }

  // ----- Reading what was written -----

  // Inside quotes, the escaped form of w adds w to the word.
  lemma {:induction false} ReadEscape(s: string, ptr: nat, w: string, word: string, ignoreeq: bool)
    requires NoNul(s) && Has(s, ptr, Escape(w))
    ensures GetVal(s, ptr, InEscVal, word, true, ignoreeq)
            == GetVal(s, ptr + |Escape(w)|, InEscVal, word + w, true, ignoreeq)
    decreases w
  {
    if w == "" {
      assert word + w == word;
    } else {
      var first := if w[0] == '"' || w[0] == '\\' then ['\\', w[0]] else [w[0]];
      HasSplit(s, ptr, first, Escape(w[1..]));
      assert s[ptr] == first[0];
      ReadEscape(s, ptr + |first|, w[1..], word + [w[0]], ignoreeq);
      assert word + [w[0]] + w[1..] == word + w;
      if |first| == 2 {
        assert s[ptr + 1] == first[1];
      }
    }
  }

  lemma ReadQuote(s: string, ptr: nat, w: string, ignoreeq: bool)
    requires NoNul(s) && Has(s, ptr, Quote(w))
    ensures GetVal(s, ptr, WaitVal, "", false, ignoreeq) == Got(w, true, ptr + |Quote(w)| - 1)
  {
    HasSplit(s, ptr, "\"" + Escape(w), "\"");
    HasSplit(s, ptr, "\"", Escape(w));
    assert s[ptr] == "\""[0];
    ReadEscape(s, ptr + 1, w, "", ignoreeq);
    var last := ptr + 1 + |Escape(w)|;
    assert s[last] == "\""[0];
    assert "" + w == w;
  }

  // A bare NULL ends at a comma or at the end of the text.
  lemma ReadNull(s: string, ptr: nat)
    requires NoNul(s) && Has(s, ptr, "NULL") && (ptr + 4 == |s| || s[ptr + 4] == ',')
    ensures GetVal(s, ptr, WaitVal, "", false, true) == Got("NULL", false, ptr + 3)
  {
    HasAt(s, ptr, "NULL", 0);
    HasAt(s, ptr, "NULL", 1);
    HasAt(s, ptr, "NULL", 2);
    HasAt(s, ptr, "NULL", 3);
    assert "" + ['N'] == "N" && "N" + ['U'] == "NU" && "NU" + ['L'] == "NUL" && "NUL" + ['L'] == "NULL";
    assert GetVal(s, ptr, WaitVal, "", false, true) == GetVal(s, ptr + 1, InVal, "N", false, true);
    assert GetVal(s, ptr + 1, InVal, "N", false, true) == GetVal(s, ptr + 2, InVal, "NU", false, true);
    assert GetVal(s, ptr + 2, InVal, "NU", false, true) == GetVal(s, ptr + 3, InVal, "NUL", false, true);
    assert GetVal(s, ptr + 3, InVal, "NUL", false, true) == GetVal(s, ptr + 4, InVal, "NULL", false, true);
  }

  lemma ReadPrintedVal(s: string, ptr: nat, key: string, v: Option<string>)
    requires NoNul(s) && Has(s, ptr, PrintVal(v))
    requires ptr + |PrintVal(v)| == |s| || s[ptr + |PrintVal(v)|] == ','
    ensures var r := GetVal(s, ptr, WaitVal, "", false, true);
            r.Got? && r.ptr + 1 == ptr + |PrintVal(v)| && ReadVal(key, r.word, r.escaped) == Pair(key, v)
            && (v.Some? ==> r.word == v.value) && (v.None? ==> r.word == "NULL")
  {
    if v.None? {
      ReadNull(s, ptr);
    } else {
      ReadQuote(s, ptr, v.value, true);
    }
  }

  lemma ParseArrow(s: string, ptr: nat, key: string, acc: seq<Pair>)
    requires NoNul(s) && Has(s, ptr, "=>")
    ensures Parse(s, ptr, WEq(key), acc) == Parse(s, ptr + 2, WVal(key), acc)
  {
    HasAt(s, ptr, "=>", 0);
    HasAt(s, ptr, "=>", 1);
    assert Parse(s, ptr + 1, WGt(key), acc) == Parse(s, ptr + 2, WVal(key), acc);
  }

  lemma ParseSeparator(s: string, ptr: nat, acc: seq<Pair>)
    requires NoNul(s) && Has(s, ptr, ", ")
    ensures Parse(s, ptr, WDel, acc) == Parse(s, ptr + 2, WKey, acc) && s[ptr] == ','
  {
    HasAt(s, ptr, ", ", 0);
    HasAt(s, ptr, ", ", 1);
    assert GetVal(s, ptr + 1, WaitVal, "", false, false) == GetVal(s, ptr + 2, WaitVal, "", false, false);
    assert Parse(s, ptr + 1, WKey, acc) == Parse(s, ptr + 2, WKey, acc);
  }

  // One printed pair adds that pair.
  lemma ParsePair(s: string, ptr: nat, p: Pair, acc: seq<Pair>)
    requires NoNul(s) && WellSized(p) && Has(s, ptr, PrintPair(p))
    requires ptr + |PrintPair(p)| == |s| || s[ptr + |PrintPair(p)|] == ','
    ensures Parse(s, ptr, WKey, acc) == Parse(s, ptr + |PrintPair(p)|, WDel, acc + [p])
  {
    HasSplit(s, ptr, Quote(p.key) + "=>", PrintVal(p.val));
    HasSplit(s, ptr, Quote(p.key), "=>");
    ReadQuote(s, ptr, p.key, false);
    var eq := ptr + |Quote(p.key)|;
    ParseArrow(s, eq, p.key, acc);
    ReadPrintedVal(s, eq + 2, p.key, p.val);
  }

  lemma ParseLast(s: string, ptr: nat, p: Pair, item: string, acc: seq<Pair>)
    requires NoNul(s) && WellSized(p) && item == PrintPair(p) && Has(s, ptr, item) && ptr + |item| == |s|
    ensures Parse(s, ptr, WKey, acc) == Ok(acc + [p])
  {
    ParsePair(s, ptr, p, acc);
  }

  lemma ParseItem(s: string, ptr: nat, p: Pair, item: string, acc: seq<Pair>)
    requires NoNul(s) && WellSized(p) && item == PrintPair(p) && Has(s, ptr, item) && Has(s, ptr + |item|, ", ")
    ensures Parse(s, ptr, WKey, acc) == Parse(s, ptr + |item| + 2, WKey, acc + [p])
  {
    ParseSeparator(s, ptr + |item|, acc + [p]);
    ParsePair(s, ptr, p, acc);
  }

  // Parsing goes past item i and has the pairs up to it.
  lemma StandingStep(s: string, ptr: nat, ps: seq<Pair>, i: nat, acc: seq<Pair>) returns (ptr': nat)
    requires NoNul(s) && AllWellSized(ps) && i + 1 < |ps| && ptr <= |s| && Standing(s, ptr, |s|, Items(ps), ", ", i)
    ensures ptr' <= |s| && Standing(s, ptr', |s|, Items(ps), ", ", i + 1)
    ensures Parse(s, ptr, WKey, acc) == Parse(s, ptr', WKey, acc + [ps[i]])
  {
    var item := Items(ps)[i];
    ptr' := ptr + |item| + 2;
    ParseItem(s, ptr, ps[i], item, acc);
  }

  lemma {:induction false} ParseStanding(s: string, ptr: nat, ps: seq<Pair>, i: nat)
    requires NoNul(s) && AllWellSized(ps) && i < |ps| && ptr <= |s| && Standing(s, ptr, |s|, Items(ps), ", ", i)
    ensures Parse(s, ptr, WKey, ps[..i]) == Ok(ps)
    decreases |ps| - i
  {
    assert ps[..i] + [ps[i]] == ps[..i + 1];
    if i + 1 == |ps| {
      ParseLast(s, ptr, ps[i], Items(ps)[i], ps[..i]);
      assert ps[..i + 1] == ps;
    } else {
      var ptr' := StandingStep(s, ptr, ps, i, ps[..i]);
      ParseStanding(s, ptr', ps, i + 1);
    }
  }

  lemma {:induction false} EscapeNoNul(w: string)
    requires NoNul(w)
    ensures NoNul(Escape(w))
  {
    if w != "" {
      EscapeNoNul(w[1..]);
    }
  }

  lemma PairNoNul(p: Pair)
    requires WellSized(p)
    ensures NoNul(PrintPair(p))
  {
    EscapeNoNul(p.key);
    if p.val.Some? {
      EscapeNoNul(p.val.value);
    }
    assert NoNul(PrintVal(p.val));
  }

  lemma PrintNoNul(ps: seq<Pair>)
    requires AllWellSized(ps)
    ensures NoNul(Print(ps))
  {
    forall j | 0 <= j < |ps| ensures NoNul(Items(ps)[j]) {
      PairNoNul(ps[j]);
    }
    JoinNoNul(Items(ps), ", ", 0);
  }

  /** Parsing a printed list of pairs gives the pairs back: NULL stays NULL, the string "NULL" stays a
      string, quotes and backslashes survive, and no order of the keys is needed. */
  lemma PrintedParsesBack(ps: seq<Pair>)
    requires AllWellSized(ps)
    ensures NoNul(Print(ps)) && Parse(Print(ps), 0, WKey, []) == Ok(ps)
  {
    var s := Print(ps);
    PrintNoNul(ps);
    if ps != [] {
      JoinStands(s, 0, |s|, Items(ps), ", ", 0);
      ParseStanding(s, 0, ps, 0);
      assert ps[..0] == [];
    }
  }
}
