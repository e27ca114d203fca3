/** The texts of an hstore, by themselves: lists of key => value with words in quotes or bare, any character
    after a backslash, and blanks around.  The parser accepts exactly these texts and reads exactly their
    pairs. */
module HStoreGrammar {
  import opened Basics
  import opened CString
  import opened HStoreLayout
  import opened HStoreText

  // ----- Texts -----

  // A character as it is written, by itself or after a backslash.
  datatype Spelled = Plain(c: char) | Escaped(c: char)

  datatype Word = Quoted(cs: seq<Spelled>) | Bare(cs: seq<Spelled>)

  function SpelledText(x: Spelled): (s: string) {
    if x.Plain? then [x.c] else ['\\', x.c]
  }

  function Spell(cs: seq<Spelled>): (s: string) {
    if cs == [] then "" else SpelledText(cs[0]) + Spell(cs[1..])
  }

  // What the word says.
  function Letters(cs: seq<Spelled>): (s: string)
    ensures |s| == |cs|
  {
    seq(|cs|, i requires 0 <= i < |cs| => cs[i].c)
  }

  function WordText(w: Word): (s: string) {
    if w.Quoted? then "\"" + Spell(w.cs) + "\"" else Spell(w.cs)
  }

  // Inside quotes only a quote and a backslash must be escaped.
  predicate InQuotes(x: Spelled) {
    x.c != '\0' && (x.Plain? ==> x.c != '"' && x.c != '\\')
  }

  // In a bare word blanks, backslashes and the character that ends it must be; at its start a quote and, in a
  // key, an equals sign.
  predicate InBare(x: Spelled, stop: char) {
    x.c != '\0' && (x.Plain? ==> x.c != '\\' && !IsSpace(x.c) && x.c != stop)
  }

  predicate StartsBare(x: Spelled, key: bool) {
    x.c != '\0' && (x.Plain? ==> x.c != '"' && x.c != '\\' && !IsSpace(x.c) && (key ==> x.c != '='))
  }

  // A bare key ends at =, a bare value at a comma.
  function StopOf(key: bool): (c: char) {
    if key then '=' else ','
  }

  predicate AllInQuotes(cs: seq<Spelled>) {
    forall i :: 0 <= i < |cs| ==> InQuotes(cs[i])
  }

  predicate AllInBare(cs: seq<Spelled>, stop: char) {
    forall i :: 0 <= i < |cs| ==> InBare(cs[i], stop)
  }

  predicate WordOk(w: Word, key: bool) {
    if w.Quoted? then AllInQuotes(w.cs)
    else w.cs != [] && StartsBare(w.cs[0], key) && AllInBare(w.cs[1..], StopOf(key))
  }

  predicate Blank(b: string) {
    forall i :: 0 <= i < |b| ==> IsSpace(b[i])
  }

  datatype Item = Item(before: string, key: Word, mid: string, after: string, val: Word, end: string)

  function ItemText(i: Item): (s: string) {
    (i.before + WordText(i.key) + i.mid) + "=>" + (i.after + WordText(i.val) + i.end)
  }

  predicate ItemOk(i: Item) {
    && Blank(i.before) && Blank(i.mid) && Blank(i.after) && Blank(i.end)
    && WordOk(i.key, true) && |i.key.cs| <= HSTORE_MAX_KEY_LEN
    && WordOk(i.val, false) && |i.val.cs| <= HSTORE_MAX_VALUE_LEN
  }

  // null in any case
  predicate SaysNull(s: string) {
    |s| == 4 && s[0] in {'n', 'N'} && s[1] in {'u', 'U'} && s[2] in {'l', 'L'} && s[3] in {'l', 'L'}
  }

  function ItemPair(i: Item): (p: Pair) {
    Pair(Letters(i.key.cs), if i.val.Bare? && SaysNull(Letters(i.val.cs)) then None else Some(Letters(i.val.cs)))
  }

  // A list from where a key may stand: blanks, a last item, or an item and what follows its comma.
  datatype Source = End(blanks: string) | Last(item: Item) | More(item: Item, rest: Source)

  function SourceText(t: Source): (s: string) {
    match t
    case End(b) => b
    case Last(i) => ItemText(i)
    case More(i, r) => ItemText(i) + "," + SourceText(r)
  }

  predicate SourceOk(t: Source) {
    match t
    case End(b) => Blank(b)
    case Last(i) => ItemOk(i)
    case More(i, r) => ItemOk(i) && SourceOk(r)
  }

  function SourcePairs(t: Source): (ps: seq<Pair>) {
    match t
    case End(_) => []
    case Last(i) => [ItemPair(i)]
    case More(i, r) => [ItemPair(i)] + SourcePairs(r)
  }

  // ----- Words are read -----

  lemma HasThree(s: string, ptr: nat, a: string, b: string, c: string)
    ensures Has(s, ptr, a + b + c) <==> Has(s, ptr, a) && Has(s, ptr + |a|, b) && Has(s, ptr + |a| + |b|, c)
  {
    HasSplit(s, ptr, a + b, c);
    HasSplit(s, ptr, a, b);
  }

  lemma LettersCons(x: Spelled, cs: seq<Spelled>, word: string)
    ensures word + Letters([x] + cs) == (word + [x.c]) + Letters(cs)
  {
  }

  lemma SpellHead(s: string, ptr: nat, cs: seq<Spelled>)
    requires cs != [] && Has(s, ptr, Spell(cs))
    ensures Has(s, ptr, SpelledText(cs[0])) && Has(s, ptr + |SpelledText(cs[0])|, Spell(cs[1..]))
    ensures s[ptr] == (if cs[0].Plain? then cs[0].c else '\\') && (cs[0].Escaped? ==> s[ptr + 1] == cs[0].c)
  {
    var x := SpelledText(cs[0]);
    HasSplit(s, ptr, x, Spell(cs[1..]));
    HasAt(s, ptr, x, 0);
    if cs[0].Escaped? {
      HasAt(s, ptr, x, 1);
    }
  }

  // A bare word stops at end.
  predicate Stops(s: string, end: nat, key: bool) {
    end == |s| || (end < |s| && (IsSpace(s[end]) || s[end] == StopOf(key)))
  }

  // Where the cursor is then: a blank is passed.
  function AfterBare(s: string, end: nat): (n: nat) {
    if end < |s| && IsSpace(s[end]) then end + 1 else end
  }

  lemma {:induction false} ReadBare(s: string, ptr: nat, cs: seq<Spelled>, word: string, key: bool)
    requires NoNul(s) && 0 < ptr && Has(s, ptr, Spell(cs)) && AllInBare(cs, StopOf(key)) && Stops(s, ptr + |Spell(cs)|, key)
    ensures GetVal(s, ptr, InVal, word, false, !key) ==
            Got(word + Letters(cs), false, AfterBare(s, ptr + |Spell(cs)|) - 1)
    decreases |cs|
  {
    if cs == [] {
      assert word + Letters(cs) == word;
    } else {
      var x := cs[0];
      SpellHead(s, ptr, cs);
      assert InBare(x, StopOf(key));
      ReadBare(s, ptr + |SpelledText(x)|, cs[1..], word + [x.c], key);
      LettersCons(x, cs[1..], word);
      assert [x] + cs[1..] == cs;
      if x.Escaped? {
        assert GetVal(s, ptr + 1, WaitEscIn, word, false, !key) == GetVal(s, ptr + 2, InVal, word + [x.c], false, !key);
      }
    }
  }

  // A word in quotes closes at end.
  predicate Closes(s: string, end: nat) {
    end < |s| && s[end] == '"'
  }

  lemma {:induction false} ReadQuoted(s: string, ptr: nat, cs: seq<Spelled>, word: string, key: bool)
    requires NoNul(s) && Has(s, ptr, Spell(cs)) && Closes(s, ptr + |Spell(cs)|) && AllInQuotes(cs)
    ensures GetVal(s, ptr, InEscVal, word, true, !key) == Got(word + Letters(cs), true, ptr + |Spell(cs)|)
    decreases |cs|
  {
    if cs == [] {
      assert word + Letters(cs) == word;
    } else {
      var x := cs[0];
      SpellHead(s, ptr, cs);
      assert InQuotes(x);
      ReadQuoted(s, ptr + |SpelledText(x)|, cs[1..], word + [x.c], key);
      LettersCons(x, cs[1..], word);
      assert [x] + cs[1..] == cs;
      if x.Escaped? {
        assert GetVal(s, ptr + 1, WaitEscEscIn, word, true, !key) == GetVal(s, ptr + 2, InEscVal, word + [x.c], true, !key);
      }
    }
  }

  lemma {:induction false} SkipBlanks(s: string, ptr: nat, b: string, key: bool)
    requires NoNul(s) && Blank(b) && Has(s, ptr, b)
    ensures GetVal(s, ptr, WaitVal, "", false, !key) == GetVal(s, ptr + |b|, WaitVal, "", false, !key)
    decreases |b|
  {
    if b != "" {
      HasAt(s, ptr, b, 0);
      HasSplit(s, ptr, b[..1], b[1..]);
      assert b == b[..1] + b[1..];
      SkipBlanks(s, ptr + 1, b[1..], key);
    }
  }

  // Where the cursor is after a word that ends at end.
  function AfterWord(s: string, end: nat, w: Word): (n: nat) {
    if w.Quoted? then end else AfterBare(s, end)
  }

  lemma StartBare(s: string, ptr: nat, x: Spelled, key: bool)
    requires NoNul(s) && Has(s, ptr, SpelledText(x)) && StartsBare(x, key)
    ensures GetVal(s, ptr, WaitVal, "", false, !key) == GetVal(s, ptr + |SpelledText(x)|, InVal, [x.c], false, !key)
  {
    HasAt(s, ptr, SpelledText(x), 0);
    assert "" + [x.c] == [x.c];
    if x.Escaped? {
      HasAt(s, ptr, SpelledText(x), 1);
      assert GetVal(s, ptr + 1, WaitEscIn, "", false, !key) == GetVal(s, ptr + 2, InVal, [x.c], false, !key);
    }
  }

  lemma ReadBareWord(s: string, ptr: nat, cs: seq<Spelled>, key: bool)
    requires NoNul(s) && Has(s, ptr, Spell(cs)) && WordOk(Bare(cs), key) && Stops(s, ptr + |Spell(cs)|, key)
    ensures GetVal(s, ptr, WaitVal, "", false, !key) == Got(Letters(cs), false, AfterBare(s, ptr + |Spell(cs)|) - 1)
  {
    var x, rest := cs[0], cs[1..];
    SpellHead(s, ptr, cs);
    StartBare(s, ptr, x, key);
    ReadBare(s, ptr + |SpelledText(x)|, rest, [x.c], key);
    assert [x] + rest == cs;
    assert Letters(cs) == [x.c] + Letters(rest);
  }

  lemma ReadQuotedWord(s: string, ptr: nat, cs: seq<Spelled>, key: bool)
    requires NoNul(s) && Has(s, ptr, "\"" + Spell(cs) + "\"") && AllInQuotes(cs)
    ensures GetVal(s, ptr, WaitVal, "", false, !key) == Got(Letters(cs), true, ptr + 1 + |Spell(cs)|)
  {
    HasThree(s, ptr, "\"", Spell(cs), "\"");
    HasAt(s, ptr, "\"", 0);
    HasAt(s, ptr + 1 + |Spell(cs)|, "\"", 0);
    ReadQuoted(s, ptr + 1, cs, "", key);
    assert "" + Letters(cs) == Letters(cs);
  }

  lemma ReadWord(s: string, ptr: nat, w: Word, key: bool)
    requires NoNul(s) && Has(s, ptr, WordText(w)) && WordOk(w, key)
    requires w.Bare? ==> Stops(s, ptr + |WordText(w)|, key)
    ensures GetVal(s, ptr, WaitVal, "", false, !key) ==
            Got(Letters(w.cs), w.Quoted?, AfterWord(s, ptr + |WordText(w)|, w) - 1)
  {
    if w.Quoted? {
      ReadQuotedWord(s, ptr, w.cs, key);
    } else {
      ReadBareWord(s, ptr, w.cs, key);
    }
  }

  // ----- Items are read -----

  lemma {:induction false} SkipMid(s: string, ptr: nat, b: string, k: string, acc: seq<Pair>)
    requires NoNul(s) && Blank(b) && Has(s, ptr, b + "=>")
    ensures Parse(s, ptr, WEq(k), acc) == Parse(s, ptr + |b| + 2, WVal(k), acc)
    decreases |b|
  {
    HasSplit(s, ptr, b, "=>");
    if b == "" {
      ParseArrow(s, ptr, k, acc);
    } else {
      HasAt(s, ptr, b, 0);
      assert b + "=>" == b[..1] + (b[1..] + "=>");
      HasSplit(s, ptr, b[..1], b[1..] + "=>");
      SkipMid(s, ptr + 1, b[1..], k, acc);
    }
  }

  // What follows the value of an item: nothing, or a comma.
  predicate Ends(s: string, ptr: nat) {
    ptr == |s| || (ptr < |s| && s[ptr] == ',')
  }

  lemma {:induction false} SkipEnd(s: string, ptr: nat, b: string, acc: seq<Pair>)
    requires NoNul(s) && Blank(b) && Has(s, ptr, b)
    ensures Parse(s, ptr, WDel, acc) == Parse(s, ptr + |b|, WDel, acc)
    decreases |b|
  {
    if b != "" {
      HasAt(s, ptr, b, 0);
      HasSplit(s, ptr, b[..1], b[1..]);
      assert b == b[..1] + b[1..];
      SkipEnd(s, ptr + 1, b[1..], acc);
    }
  }

  lemma HasTail(s: string, ptr: nat, b: string)
    requires b != "" && Has(s, ptr, b)
    ensures s[ptr] == b[0] && Has(s, ptr + 1, b[1..])
  {
    assert b == b[..1] + b[1..];
    HasSplit(s, ptr, b[..1], b[1..]);
    HasAt(s, ptr, b, 0);
  }

  // After a word that ends at end: a bare one may have passed the first blank.
  lemma PassMid(s: string, end: nat, w: Word, b: string, k: string, acc: seq<Pair>)
    requires NoNul(s) && Blank(b) && Has(s, end, b) && Has(s, end + |b|, "=>")
    ensures AfterWord(s, end, w) <= |s|
    ensures Parse(s, AfterWord(s, end, w), WEq(k), acc) == Parse(s, end + |b| + 2, WVal(k), acc)
  {
    HasSplit(s, end, b, "=>");
    HasAt(s, end + |b|, "=>", 0);
    if b != "" {
      HasTail(s, end, b);
      HasSplit(s, end + 1, b[1..], "=>");
      if w.Bare? {
        SkipMid(s, end + 1, b[1..], k, acc);
      }
    }
    if w.Quoted? || b == "" {
      SkipMid(s, end, b, k, acc);
    }
  }

  lemma PassEnd(s: string, end: nat, w: Word, b: string, acc: seq<Pair>)
    requires NoNul(s) && Blank(b) && Has(s, end, b) && Ends(s, end + |b|)
    ensures AfterWord(s, end, w) <= |s|
    ensures Parse(s, AfterWord(s, end, w), WDel, acc) == Parse(s, end + |b|, WDel, acc)
  {
    if b != "" {
      HasTail(s, end, b);
      if w.Bare? {
        SkipEnd(s, end + 1, b[1..], acc);
      }
    }
    if w.Quoted? || b == "" {
      SkipEnd(s, end, b, acc);
    }
  }

  lemma StopsAt(s: string, end: nat, b: string, key: bool)
    requires Blank(b) && Has(s, end, b) && (if key then Has(s, end + |b|, "=>") else Ends(s, end + |b|))
    ensures Stops(s, end, key)
  {
    if b != "" {
      HasAt(s, end, b, 0);
    } else if key {
      HasAt(s, end, "=>", 0);
    }
  }

  lemma ReadBlankWord(s: string, ptr: nat, b: string, w: Word, key: bool)
    requires NoNul(s) && Blank(b) && Has(s, ptr, b) && Has(s, ptr + |b|, WordText(w)) && WordOk(w, key)
    requires Stops(s, ptr + |b| + |WordText(w)|, key) || w.Quoted?
    ensures GetVal(s, ptr, WaitVal, "", false, !key) ==
            Got(Letters(w.cs), w.Quoted?, AfterWord(s, ptr + |b| + |WordText(w)|, w) - 1)
  {
    SkipBlanks(s, ptr, b, key);
    ReadWord(s, ptr + |b|, w, key);
  }

  // A key has been read, and the cursor is at from; the same with a value.
  lemma KeyStep(s: string, ptr: nat, word: string, escaped: bool, from: nat, acc: seq<Pair>)
    requires NoNul(s) && ptr <= |s| && 0 < from <= |s| && |word| <= HSTORE_MAX_KEY_LEN
    requires GetVal(s, ptr, WaitVal, "", false, false) == Got(word, escaped, from - 1)
    ensures Parse(s, ptr, WKey, acc) == Parse(s, from, WEq(word), acc)
  {
  }

  lemma ValueStep(s: string, ptr: nat, k: string, word: string, escaped: bool, from: nat, acc: seq<Pair>)
    requires NoNul(s) && ptr <= |s| && 0 < from <= |s| && |word| <= HSTORE_MAX_VALUE_LEN
    requires GetVal(s, ptr, WaitVal, "", false, true) == Got(word, escaped, from - 1)
    ensures Parse(s, ptr, WVal(k), acc) == Parse(s, from, WDel, acc + [ReadVal(k, word, escaped)])
  {
  }

  lemma ReadKey(s: string, ptr: nat, b: string, w: Word, mid: string, eq: nat, acc: seq<Pair>)
    requires NoNul(s) && WroteKey(s, ptr, b, w, mid) && eq == ptr + |b| + |WordText(w)| + |mid|
    ensures Parse(s, ptr, WKey, acc) == Parse(s, eq + 2, WVal(Letters(w.cs)), acc)
  {
    var end := ptr + |b| + |WordText(w)|;
    var k, from := Letters(w.cs), AfterWord(s, end, w);
    assert Stops(s, end, true) by {
      StopsAt(s, end, mid, true);
    }
    assert from <= |s| && Parse(s, from, WEq(k), acc) == Parse(s, eq + 2, WVal(k), acc) by {
      PassMid(s, end, w, mid, k, acc);
    }
    assert GetVal(s, ptr, WaitVal, "", false, false) == Got(k, w.Quoted?, from - 1) by {
      ReadBlankWord(s, ptr, b, w, true);
    }
    KeyStep(s, ptr, k, w.Quoted?, from, acc);
  }

  lemma NullIsNull(w: Word, k: string)
    ensures ReadVal(k, Letters(w.cs), w.Quoted?) ==
            Pair(k, if w.Bare? && SaysNull(Letters(w.cs)) then None else Some(Letters(w.cs)))
  {
  }

  lemma ReadValue(s: string, ptr: nat, b: string, w: Word, e: string, q: nat, k: string, acc: seq<Pair>)
    requires NoNul(s) && WroteValue(s, ptr, b, w, e) && q == ptr + |b| + |WordText(w)| + |e|
    ensures Parse(s, ptr, WVal(k), acc) == Parse(s, q, WDel, acc + [ReadVal(k, Letters(w.cs), w.Quoted?)])
  {
    var end := ptr + |b| + |WordText(w)|;
    var v, from := Letters(w.cs), AfterWord(s, end, w);
    var acc' := acc + [ReadVal(k, v, w.Quoted?)];
    assert Stops(s, end, false) by {
      StopsAt(s, end, e, false);
    }
    assert from <= |s| && Parse(s, from, WDel, acc') == Parse(s, q, WDel, acc') by {
      PassEnd(s, end, w, e, acc');
    }
    assert GetVal(s, ptr, WaitVal, "", false, true) == Got(v, w.Quoted?, from - 1) by {
      ReadBlankWord(s, ptr, b, w, false);
    }
    ValueStep(s, ptr, k, v, w.Quoted?, from, acc);
  }

  // The item up to its arrow, and from there on.
  ghost predicate WroteKey(s: string, ptr: nat, b: string, w: Word, mid: string) {
    && Blank(b) && Blank(mid) && WordOk(w, true) && |w.cs| <= HSTORE_MAX_KEY_LEN
    && Has(s, ptr, b) && Has(s, ptr + |b|, WordText(w)) && Has(s, ptr + |b| + |WordText(w)|, mid)
    && Has(s, ptr + |b| + |WordText(w)| + |mid|, "=>")
  }

  ghost predicate WroteValue(s: string, ptr: nat, b: string, w: Word, e: string) {
    && Blank(b) && Blank(e) && WordOk(w, false) && |w.cs| <= HSTORE_MAX_VALUE_LEN
    && Has(s, ptr, b) && Has(s, ptr + |b|, WordText(w)) && Has(s, ptr + |b| + |WordText(w)|, e)
    && Ends(s, ptr + |b| + |WordText(w)| + |e|)
  }

  // Where the value part of an item starts, from the item.
  function ValueAt(i: Item): (n: nat) {
    |i.before| + |WordText(i.key)| + |i.mid| + 2
  }

  lemma ItemParts(s: string, ptr: nat, i: Item, at: nat, end: nat)
    requires at == ptr + ValueAt(i) && end == at + |i.after| + |WordText(i.val)| + |i.end|
    ensures |ItemText(i)| == end - ptr
    ensures Has(s, ptr, ItemText(i)) <==>
            && Has(s, ptr, i.before + WordText(i.key) + i.mid)
            && Has(s, at - 2, "=>")
            && Has(s, at, i.after + WordText(i.val) + i.end)
  {
    HasThree(s, ptr, i.before + WordText(i.key) + i.mid, "=>", i.after + WordText(i.val) + i.end);
  }

  lemma ItemStands(s: string, ptr: nat, i: Item, at: nat, end: nat)
    requires at == ptr + ValueAt(i) && end == at + |i.after| + |WordText(i.val)| + |i.end|
    ensures |ItemText(i)| == end - ptr
    ensures ItemOk(i) && Has(s, ptr, ItemText(i)) && Ends(s, end) <==>
            WroteKey(s, ptr, i.before, i.key, i.mid) && WroteValue(s, at, i.after, i.val, i.end)
  {
    ItemParts(s, ptr, i, at, end);
    HasThree(s, ptr, i.before, WordText(i.key), i.mid);
    HasThree(s, at, i.after, WordText(i.val), i.end);
  }

  lemma ReadParts(s: string, ptr: nat, i: Item, at: nat, q: nat, p: Pair, acc: seq<Pair>)
    requires NoNul(s) && WroteKey(s, ptr, i.before, i.key, i.mid) && WroteValue(s, at, i.after, i.val, i.end)
    requires at == ptr + ValueAt(i) && q == at + |i.after| + |WordText(i.val)| + |i.end|
    requires p == ReadVal(Letters(i.key.cs), Letters(i.val.cs), i.val.Quoted?)
    ensures Parse(s, ptr, WKey, acc) == Parse(s, q, WDel, acc + [p])
  {
    ReadKey(s, ptr, i.before, i.key, i.mid, at - 2, acc);
    ReadValue(s, at, i.after, i.val, i.end, q, Letters(i.key.cs), acc);
  }

  lemma ReadItem(s: string, ptr: nat, i: Item, q: nat, acc: seq<Pair>)
    requires NoNul(s) && ItemOk(i) && Has(s, ptr, ItemText(i)) && Ends(s, q) && q == ptr + |ItemText(i)|
    ensures Parse(s, ptr, WKey, acc) == Parse(s, q, WDel, acc + [ItemPair(i)])
  {
    var at := ptr + ValueAt(i);
    ItemStands(s, ptr, i, at, at + |i.after| + |WordText(i.val)| + |i.end|);
    NullIsNull(i.val, Letters(i.key.cs));
    ReadParts(s, ptr, i, at, q, ItemPair(i), acc);
  }

  lemma AfterItem(s: string, q: nat, acc: seq<Pair>)
    requires NoNul(s) && Ends(s, q)
    ensures q == |s| ==> Parse(s, q, WDel, acc) == Ok(acc)
    ensures q < |s| ==> Parse(s, q, WDel, acc) == Parse(s, q + 1, WKey, acc)
  {
  }

  /** Every text of a list is read as its pairs. */
  lemma {:induction false} ReadSource(s: string, ptr: nat, t: Source, acc: seq<Pair>)
    requires NoNul(s) && SourceOk(t) && Has(s, ptr, SourceText(t)) && ptr + |SourceText(t)| == |s|
    ensures Parse(s, ptr, WKey, acc) == Ok(acc + SourcePairs(t))
    decreases t
  {
    match t
    case End(b) =>
      SkipBlanks(s, ptr, b, true);
      assert acc + SourcePairs(t) == acc;
    case Last(i) =>
      ReadItem(s, ptr, i, |s|, acc);
      AfterItem(s, |s|, acc + [ItemPair(i)]);
    case More(i, r) =>
      var q := ptr + |ItemText(i)|;
      HasThree(s, ptr, ItemText(i), ",", SourceText(r));
      HasAt(s, q, ",", 0);
      ReadItem(s, ptr, i, q, acc);
      AfterItem(s, q, acc + [ItemPair(i)]);
      ReadSource(s, q + 1, r, acc + [ItemPair(i)]);
      assert acc + [ItemPair(i)] + SourcePairs(r) == acc + SourcePairs(t);
  }

  // ----- What is read was written -----

  lemma SpellCons(s: string, ptr: nat, x: Spelled, cs: seq<Spelled>)
    requires Has(s, ptr, SpelledText(x)) && Has(s, ptr + |SpelledText(x)|, Spell(cs))
    ensures Has(s, ptr, Spell([x] + cs)) && |Spell([x] + cs)| == |SpelledText(x)| + |Spell(cs)|
  {
    assert ([x] + cs)[1..] == cs;
    HasSplit(s, ptr, SpelledText(x), Spell(cs));
  }

  // The character written at ptr.
  function SpelledAt(s: string, ptr: nat): (x: Spelled)
    requires ptr < |s|
  {
    if s[ptr] == '\\' then Escaped(CharAt(s, ptr + 1)) else Plain(s[ptr])
  }

  lemma BareNext(s: string, ptr: nat, word: string, key: bool)
    requires NoNul(s) && 0 < ptr <= |s| && GetVal(s, ptr, InVal, word, false, !key).Got? && !Stops(s, ptr, key)
    ensures var x := SpelledAt(s, ptr);
            && InBare(x, StopOf(key)) && Has(s, ptr, SpelledText(x))
            && GetVal(s, ptr + |SpelledText(x)|, InVal, word + [x.c], false, !key).Got?
  {
  }

  lemma {:induction false} BareWasWritten(s: string, ptr: nat, word: string, key: bool) returns (cs: seq<Spelled>)
    requires NoNul(s) && 0 < ptr <= |s| && GetVal(s, ptr, InVal, word, false, !key).Got?
    ensures Has(s, ptr, Spell(cs)) && AllInBare(cs, StopOf(key)) && Stops(s, ptr + |Spell(cs)|, key)
    decreases |s| - ptr
  {
    if Stops(s, ptr, key) {
      cs := [];
    } else {
      var x := SpelledAt(s, ptr);
      BareNext(s, ptr, word, key);
      cs := BareWasWritten(s, ptr + |SpelledText(x)|, word + [x.c], key);
      SpellCons(s, ptr, x, cs);
      cs := [x] + cs;
    }
  }

  lemma QuotedNext(s: string, ptr: nat, word: string, key: bool)
    requires NoNul(s) && ptr <= |s| && GetVal(s, ptr, InEscVal, word, true, !key).Got?
    ensures ptr < |s|
    ensures var x := SpelledAt(s, ptr);
            !Closes(s, ptr) ==>
              && InQuotes(x) && Has(s, ptr, SpelledText(x))
              && GetVal(s, ptr + |SpelledText(x)|, InEscVal, word + [x.c], true, !key).Got?
  {
  }

  lemma {:induction false} QuotedWasWritten(s: string, ptr: nat, word: string, key: bool) returns (cs: seq<Spelled>)
    requires NoNul(s) && ptr <= |s| && GetVal(s, ptr, InEscVal, word, true, !key).Got?
    ensures Has(s, ptr, Spell(cs)) && Closes(s, ptr + |Spell(cs)|) && AllInQuotes(cs)
    decreases |s| - ptr
  {
    QuotedNext(s, ptr, word, key);
    if Closes(s, ptr) {
      cs := [];
    } else {
      var x := SpelledAt(s, ptr);
      cs := QuotedWasWritten(s, ptr + |SpelledText(x)|, word + [x.c], key);
      SpellCons(s, ptr, x, cs);
      cs := [x] + cs;
    }
  }

  // A word that stands at ptr and ends as it should.
  ghost predicate WroteWord(s: string, ptr: nat, w: Word, key: bool) {
    Has(s, ptr, WordText(w)) && WordOk(w, key) && (w.Bare? ==> Stops(s, ptr + |WordText(w)|, key))
  }

  lemma StartNext(s: string, ptr: nat, key: bool)
    requires NoNul(s) && ptr <= |s| && GetVal(s, ptr, WaitVal, "", false, !key).Got?
    ensures ptr < |s|
    ensures IsSpace(s[ptr]) ==> GetVal(s, ptr + 1, WaitVal, "", false, !key).Got?
    ensures s[ptr] == '"' ==> GetVal(s, ptr + 1, InEscVal, "", true, !key).Got?
    ensures var x := SpelledAt(s, ptr);
            !IsSpace(s[ptr]) && s[ptr] != '"' ==>
              && StartsBare(x, key) && Has(s, ptr, SpelledText(x))
              && GetVal(s, ptr + |SpelledText(x)|, InVal, [x.c], false, !key).Got?
  {
    assert "" + [SpelledAt(s, ptr).c] == [SpelledAt(s, ptr).c];
  }

  lemma BareStartWasWritten(s: string, ptr: nat, key: bool) returns (w: Word)
    requires NoNul(s) && ptr < |s| && s[ptr] != '"' && !IsSpace(s[ptr]) && GetVal(s, ptr, WaitVal, "", false, !key).Got?
    ensures WroteWord(s, ptr, w, key)
  {
    StartNext(s, ptr, key);
    var x := SpelledAt(s, ptr);
    var cs := BareWasWritten(s, ptr + |SpelledText(x)|, [x.c], key);
    SpellCons(s, ptr, x, cs);
    w := Bare([x] + cs);
    assert ([x] + cs)[1..] == cs;
  }

  lemma QuotedStartWasWritten(s: string, ptr: nat, key: bool) returns (w: Word)
    requires NoNul(s) && ptr < |s| && s[ptr] == '"' && GetVal(s, ptr, WaitVal, "", false, !key).Got?
    ensures WroteWord(s, ptr, w, key)
  {
    StartNext(s, ptr, key);
    var cs := QuotedWasWritten(s, ptr + 1, "", key);
    w := Quoted(cs);
    HasThree(s, ptr, "\"", Spell(cs), "\"");
  }

  lemma {:induction false} WordWasWritten(s: string, ptr: nat, key: bool) returns (b: string, w: Word)
    requires NoNul(s) && ptr <= |s| && GetVal(s, ptr, WaitVal, "", false, !key).Got?
    ensures Blank(b) && Has(s, ptr, b) && WroteWord(s, ptr + |b|, w, key)
    decreases |s| - ptr
  {
    StartNext(s, ptr, key);
    if s[ptr] == '"' {
      b := "";
      w := QuotedStartWasWritten(s, ptr, key);
    } else if !IsSpace(s[ptr]) {
      b := "";
      w := BareStartWasWritten(s, ptr, key);
    } else {
      b, w := WordWasWritten(s, ptr + 1, key);
      HasSplit(s, ptr, [s[ptr]], b);
      b := [s[ptr]] + b;
    }
  }

  lemma BlankCons(s: string, ptr: nat, b: string, t: string)
    requires ptr < |s| && IsSpace(s[ptr]) && Blank(b) && Has(s, ptr + 1, b + t)
    ensures Blank([s[ptr]] + b) && Has(s, ptr, [s[ptr]] + b + t) && |[s[ptr]] + b + t| == 1 + |b + t|
  {
    HasSplit(s, ptr, [s[ptr]], b + t);
    assert [s[ptr]] + b + t == [s[ptr]] + (b + t);
  }

  lemma {:induction false} NothingIsBlank(s: string, ptr: nat)
    requires NoNul(s) && ptr <= |s| && GetVal(s, ptr, WaitVal, "", false, false).NoVal?
    ensures Blank(s[ptr..])
    decreases |s| - ptr
  {
    if ptr < |s| {
      BlankFrom(s, ptr);
      NothingIsBlank(s, ptr + 1);
      assert s[ptr..] == [s[ptr]] + s[ptr + 1..];
    }
  }

  // Only a blank lets the wait go on.
  lemma BlankFrom(s: string, ptr: nat)
    requires NoNul(s) && ptr < |s| && GetVal(s, ptr, WaitVal, "", false, false).NoVal?
    ensures IsSpace(s[ptr]) && GetVal(s, ptr + 1, WaitVal, "", false, false).NoVal?
  {
    StartedIsNotNoVal(s, ptr + 1, InEscVal, "", true);
    StartedIsNotNoVal(s, ptr + 1, WaitEscIn, "", false);
    StartedIsNotNoVal(s, ptr + 1, InVal, "" + [s[ptr]], false);
  }

  lemma {:induction false} StartedIsNotNoVal(s: string, ptr: nat, st: ValState, word: string, escaped: bool)
    requires NoNul(s) && ptr <= |s| && st != WaitVal && (st == InVal ==> ptr > 0)
    ensures !GetVal(s, ptr, st, word, escaped, false).NoVal?
    decreases |s| - ptr
  {
    if ptr < |s| {
      var c := s[ptr];
      var st' := match st
        case InVal => if c == '\\' then WaitEscIn else InVal
        case InEscVal => if c == '\\' then WaitEscEscIn else InEscVal
        case WaitEscEscIn => InEscVal
        case _ => InVal;
      StartedIsNotNoVal(s, ptr + 1, st', word, escaped);
      StartedIsNotNoVal(s, ptr + 1, st', word + [c], escaped);
    }
  }

  lemma {:induction false} MidWasWritten(s: string, ptr: nat, k: string, acc: seq<Pair>) returns (b: string)
    requires NoNul(s) && ptr <= |s| && Parse(s, ptr, WEq(k), acc).Ok?
    ensures Blank(b) && Has(s, ptr, b + "=>")
    ensures Parse(s, ptr, WEq(k), acc) == Parse(s, ptr + |b| + 2, WVal(k), acc)
    decreases |s| - ptr
  {
    if CharAt(s, ptr) == '=' {
      b := "";
      assert CharAt(s, ptr + 1) == '>';
      assert b + "=>" == "=>";
      assert Has(s, ptr, "=>");
      ParseArrow(s, ptr, k, acc);
    } else {
      b := MidWasWritten(s, ptr + 1, k, acc);
      BlankCons(s, ptr, b, "=>");
      b := [s[ptr]] + b;
    }
  }

  lemma {:induction false} EndWasWritten(s: string, ptr: nat, acc: seq<Pair>) returns (b: string)
    requires NoNul(s) && ptr <= |s| && Parse(s, ptr, WDel, acc).Ok?
    ensures Blank(b) && Has(s, ptr, b) && Ends(s, ptr + |b|)
    ensures Parse(s, ptr, WDel, acc) == Parse(s, ptr + |b|, WDel, acc)
    decreases |s| - ptr
  {
    if Ends(s, ptr) {
      b := "";
    } else {
      b := EndWasWritten(s, ptr + 1, acc);
      HasSplit(s, ptr, [s[ptr]], b);
      b := [s[ptr]] + b;
    }
  }

  lemma KeyWasWritten(s: string, ptr: nat, acc: seq<Pair>) returns (b: string, w: Word, mid: string)
    requires NoNul(s) && ptr <= |s| && Parse(s, ptr, WKey, acc).Ok? && GetVal(s, ptr, WaitVal, "", false, false).Got?
    ensures WroteKey(s, ptr, b, w, mid)
  {
    b, w := WordWasWritten(s, ptr, true);
    var end := ptr + |b| + |WordText(w)|;
    var k, from := Letters(w.cs), AfterWord(s, end, w);
    ReadBlankWord(s, ptr, b, w, true);
    assert |k| <= HSTORE_MAX_KEY_LEN;
    KeyStep(s, ptr, k, w.Quoted?, from, acc);
    mid := MidWasWritten(s, from, k, acc);
    if from == end + 1 {
      BlankCons(s, end, mid, "=>");
      mid := [s[end]] + mid;
    }
    HasSplit(s, end, mid, "=>");
  }

  lemma ValueWasWritten(s: string, ptr: nat, k: string, acc: seq<Pair>) returns (b: string, w: Word, e: string)
    requires NoNul(s) && ptr <= |s| && Parse(s, ptr, WVal(k), acc).Ok?
    ensures WroteValue(s, ptr, b, w, e)
  {
    b, w := WordWasWritten(s, ptr, false);
    var end := ptr + |b| + |WordText(w)|;
    var v, from := Letters(w.cs), AfterWord(s, end, w);
    ReadBlankWord(s, ptr, b, w, false);
    assert |v| <= HSTORE_MAX_VALUE_LEN;
    ValueStep(s, ptr, k, v, w.Quoted?, from, acc);
    e := EndWasWritten(s, from, acc + [ReadVal(k, v, w.Quoted?)]);
    if from == end + 1 {
      HasSplit(s, end, [s[end]], e);
      e := [s[end]] + e;
    }
  }

  lemma PartsWereWritten(s: string, ptr: nat, acc: seq<Pair>) returns (i: Item)
    requires NoNul(s) && ptr <= |s| && Parse(s, ptr, WKey, acc).Ok? && GetVal(s, ptr, WaitVal, "", false, false).Got?
    ensures WroteKey(s, ptr, i.before, i.key, i.mid) && WroteValue(s, ptr + ValueAt(i), i.after, i.val, i.end)
  {
    var before, k, mid := KeyWasWritten(s, ptr, acc);
    var at := ptr + |before| + |WordText(k)| + |mid| + 2;
    ReadKey(s, ptr, before, k, mid, at - 2, acc);
    var after, v, end := ValueWasWritten(s, at, Letters(k.cs), acc);
    i := Item(before, k, mid, after, v, end);
  }

  lemma ItemWasWritten(s: string, ptr: nat, acc: seq<Pair>) returns (i: Item)
    requires NoNul(s) && ptr <= |s| && Parse(s, ptr, WKey, acc).Ok? && GetVal(s, ptr, WaitVal, "", false, false).Got?
    ensures ItemOk(i) && Has(s, ptr, ItemText(i)) && Ends(s, ptr + |ItemText(i)|)
  {
    i := PartsWereWritten(s, ptr, acc);
    var at := ptr + ValueAt(i);
    ItemStands(s, ptr, i, at, at + |i.after| + |WordText(i.val)| + |i.end|);
  }

  lemma TextEnds(s: string, ptr: nat, a: string, rest: string)
    requires Has(s, ptr, a)
    ensures ptr + |a| == |s| ==> a == s[ptr..]
    ensures ptr + |a| < |s| && s[ptr + |a|] == ',' && rest == s[ptr + |a| + 1..] ==> a + "," + rest == s[ptr..]
  {
    HasSlice(s, ptr, a);
  }

  lemma {:induction false} SourceFrom(s: string, ptr: nat, acc: seq<Pair>) returns (t: Source)
    requires NoNul(s) && ptr <= |s| && Parse(s, ptr, WKey, acc).Ok?
    ensures SourceOk(t) && SourceText(t) == s[ptr..]
    decreases |s| - ptr
  {
    if GetVal(s, ptr, WaitVal, "", false, false).NoVal? {
      NothingIsBlank(s, ptr);
      t := End(s[ptr..]);
    } else {
      var i := ItemWasWritten(s, ptr, acc);
      var q, acc' := ptr + |ItemText(i)|, acc + [ItemPair(i)];
      ReadItem(s, ptr, i, q, acc);
      AfterItem(s, q, acc');
      if q == |s| {
        TextEnds(s, ptr, ItemText(i), "");
        t := Last(i);
      } else {
        var r := SourceFrom(s, q + 1, acc');
        TextEnds(s, ptr, ItemText(i), SourceText(r));
        t := More(i, r);
      }
    }
  }

  /** Whatever the parser accepts is the text of a list, with the pairs it gives. */
  lemma SourceWasWritten(s: string) returns (t: Source)
    requires NoNul(s) && Parse(s, 0, WKey, []).Ok?
    ensures SourceOk(t) && SourceText(t) == s && Parse(s, 0, WKey, []) == Ok(SourcePairs(t))
  {
    t := SourceFrom(s, 0, []);
    assert s[0..] == s;
    ReadSource(s, 0, t, []);
    assert [] + SourcePairs(t) == SourcePairs(t);
  }

  /** The parser accepts exactly the texts of lists, and reads exactly their pairs. */
  lemma ParsesIff(s: string, ps: seq<Pair>)
    requires NoNul(s)
    ensures Parse(s, 0, WKey, []) == Ok(ps) <==> exists t :: SourceOk(t) && SourceText(t) == s && SourcePairs(t) == ps
  {
    if Parse(s, 0, WKey, []) == Ok(ps) {
      var t := SourceWasWritten(s);
    }
    forall t | SourceOk(t) && SourceText(t) == s ensures Parse(s, 0, WKey, []) == Ok(SourcePairs(t)) {
      ReadSource(s, 0, t, []);
      assert [] + SourcePairs(t) == SourcePairs(t);
    }
  }
}
