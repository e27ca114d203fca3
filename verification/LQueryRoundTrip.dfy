/** Reading what lquery_out printed: variant by variant, level by level. */
module LQueryRoundTrip {
  import opened Basics
  import opened CString
  import opened LTree
  import opened PathQuery
  import opened LQueryText

  // ----- The queries that can be read -----

  function AlnumRun(s: string): (n: nat)
    ensures n <= |s|
  {
    if s != "" && IsAlnum(s[0]) then 1 + AlnumRun(s[1..]) else 0
  }

  // Every character of u is the sign of a flag in f.
  predicate FlagChars(u: string, f: Flags) {
    forall i :: 0 <= i < |u| ==> IsFlag(u[i]) && AddFlag(f, u[i]) == f
  }

  /** A name is a run of name characters, after which signs of its own flags may have been repeated. Only the
      first variant after ! can be empty. */
  predicate WellFormedName(v: Variant, mayBeEmpty: bool) {
    if v.name == "" then mayBeEmpty && FlagsOf(v) == NONE
    else AlnumRun(v.name) > 0 && FlagChars(v.name[AlnumRun(v.name)..], FlagsOf(v))
  }

  predicate MayBeEmpty(l: Level, j: nat, last: bool) {
    l.not && j == 0 && !(last && j + 1 == |l.variants|)
  }

  // Variant j of level l; last tells that nothing follows the level. The length counts modifiers and !.
  predicate WellFormedVariant(l: Level, j: nat, last: bool)
    requires j < |l.variants|
  {
    var v := l.variants[j];
    && WellFormedName(v, MayBeEmpty(l, j, last))
    && |v.name| + Count(FlagsOf(v)) + (if l.not && j == 0 then 1 else 0) <= 255
  }

  predicate WellFormedLevel(l: Level, last: bool) {
    if l.variants == [] then !l.not && l.low <= l.high <= ANY
    else l.low == 0 && l.high == 0 && forall j :: 0 <= j < |l.variants| ==> WellFormedVariant(l, j, last)
  }

  predicate WellFormedLevels(ls: seq<Level>) {
    ls != [] && forall i :: 0 <= i < |ls| ==> WellFormedLevel(ls[i], i + 1 == |ls|)
  }

  /** The queries lquery_in can give. */
  predicate WellFormed(q: LQuery) {
    WellFormedLevels(q.levels) && q.firstgood == FirstGood(q.levels) && q.hasnot == AnyNot(q.levels)
  }

  // ----- Runs of the parser -----

  // Step k of the states ps, which start at a.
  predicate Linked(s: string, a: nat, ps: seq<P>, k: nat)
    requires k + 1 < |ps| && a + k < |s|
  {
    Step(s, a + k, ps[k]) == Go(ps[k + 1])
  }

  predicate Trace(s: string, a: nat, b: nat, ps: seq<P>) {
    a <= b <= |s| && |ps| == b - a + 1 && forall k :: 0 <= k < b - a ==> Linked(s, a, ps, k)
  }

  /** From state p at a the parser comes to state q at b. */
  ghost predicate Leads(s: string, a: nat, p: P, b: nat, q: P) {
    exists ps :: Trace(s, a, b, ps) && ps[0] == p && ps[b - a] == q
  }

  lemma LeadsNowhere(s: string, a: nat, p: P)
    requires a <= |s|
    ensures Leads(s, a, p, a, p)
  {
    var ps := [p];
    assert Trace(s, a, a, ps) && ps[0] == p;
  }

  lemma LeadsStep(s: string, a: nat, p: P, q: P)
    requires a < |s| && Step(s, a, p) == Go(q)
    ensures Leads(s, a, p, a + 1, q)
  {
    var ps := [p, q];
    assert Linked(s, a, ps, 0);
    assert Trace(s, a, a + 1, ps) && ps[0] == p && ps[1] == q;
  }

  lemma LeadsOn(s: string, a: nat, p: P, b: nat, q: P, c: nat, r: P)
    requires Leads(s, a, p, b, q) && Leads(s, b, q, c, r)
    ensures Leads(s, a, p, c, r)
  {
    var ps :| Trace(s, a, b, ps) && ps[0] == p && ps[b - a] == q;
    var qs :| Trace(s, b, c, qs) && qs[0] == q && qs[c - b] == r;
    var rs := ps + qs[1..];
    forall k | 0 <= k < c - a ensures Linked(s, a, rs, k) {
      if k < b - a {
        assert Linked(s, a, ps, k);
      } else {
        assert Linked(s, b, qs, k - (b - a));
      }
    }
    assert Trace(s, a, c, rs) && rs[0] == p && rs[c - a] == r;
  }

  lemma {:induction false} TraceRuns(s: string, a: nat, b: nat, ps: seq<P>)
    requires Trace(s, a, b, ps)
    ensures Run(s, a, ps[0]) == Run(s, b, ps[b - a])
    decreases b - a
  {
    if a < b {
      assert Linked(s, a, ps, 0);
      var qs := ps[1..];
      var a' := a + 1;
      forall k | 0 <= k < b - a' ensures Linked(s, a', qs, k) {
        assert Linked(s, a, ps, k + 1);
      }
      TraceRuns(s, a', b, qs);
    }
  }

  lemma LeadsRuns(s: string, a: nat, p: P, b: nat, q: P)
    requires Leads(s, a, p, b, q)
    ensures a <= b <= |s| && Run(s, a, p) == Run(s, b, q)
  {
    var ps :| Trace(s, a, b, ps) && ps[0] == p && ps[b - a] == q;
    TraceRuns(s, a, b, ps);
  }

  // ----- Characters -----

  lemma {:induction false} RunAlnum(s: string, ptr: nat, n: nat, p: P)
    requires p.st == WaitDelim && p.flags == NONE && ptr + n <= |s|
    requires forall i :: ptr <= i < ptr + n ==> IsAlnum(s[i])
    ensures Leads(s, ptr, p, ptr + n, p.(wlen := p.wlen + n))
    decreases n
  {
    if n > 0 {
      var p' := p.(wlen := p.wlen + 1);
      LeadsStep(s, ptr, p, p');
      RunAlnum(s, ptr + 1, n - 1, p');
      LeadsOn(s, ptr, p, ptr + 1, p', ptr + n, p.(wlen := p.wlen + n));
    } else {
      LeadsNowhere(s, ptr, p);
    }
  }

  function AddFlags(f: Flags, u: string): Flags
    decreases |u|
  {
    if u == "" then f else AddFlags(AddFlag(f, u[0]), u[1..])
  }

  lemma {:induction false} RunFlags(s: string, ptr: nat, n: nat, p: P)
    requires p.st == WaitDelim && p.start < ptr && ptr + n <= |s|
    requires forall i :: ptr <= i < ptr + n ==> IsFlag(s[i])
    ensures Leads(s, ptr, p, ptr + n, p.(flags := AddFlags(p.flags, s[ptr..ptr + n]), wlen := p.wlen + n))
    decreases n
  {
    if n > 0 {
      var p' := p.(flags := AddFlag(p.flags, s[ptr]), wlen := p.wlen + 1);
      LeadsStep(s, ptr, p, p');
      RunFlags(s, ptr + 1, n - 1, p');
      assert s[ptr..ptr + n][1..] == s[ptr + 1..ptr + n];
      LeadsOn(s, ptr, p, ptr + 1, p', ptr + n, p.(flags := AddFlags(p.flags, s[ptr..ptr + n]), wlen := p.wlen + n));
    } else {
      assert s[ptr..ptr + n] == "";
      LeadsNowhere(s, ptr, p);
    }
  }

  // ----- Flags -----

  // Every flag of g is in f.
  predicate Within(g: Flags, f: Flags) {
    (g.incase ==> f.incase) && (g.anyend ==> f.anyend) && (g.sublexeme ==> f.sublexeme)
  }

  lemma {:induction false} AddFlagsThen(f: Flags, u: string, t: string)
    ensures AddFlags(f, u + t) == AddFlags(AddFlags(f, u), t)
    decreases |u|
  {
    if u == "" {
      assert u + t == t;
    } else {
      assert (u + t)[1..] == u[1..] + t;
      AddFlagsThen(AddFlag(f, u[0]), u[1..], t);
    }
  }

  lemma {:induction false} AddFlagsWithin(g: Flags, u: string, f: Flags)
    requires Within(g, f) && FlagChars(u, f)
    ensures Within(AddFlags(g, u), f)
    decreases |u|
  {
    if u != "" {
      assert AddFlag(f, u[0]) == f;
      AddFlagsWithin(AddFlag(g, u[0]), u[1..], f);
    }
  }

  lemma ModsAdd(g: Flags, f: Flags)
    requires Within(g, f)
    ensures AddFlags(g, Mods(f)) == f && |Mods(f)| == Count(f) && FlagChars(Mods(f), f)
  {
    var a, b, c := if f.sublexeme then "%" else "", if f.incase then "@" else "", if f.anyend then "*" else "";
    AddFlagsThen(g, a + b, c);
    AddFlagsThen(g, a, b);
    var g1 := AddFlags(g, a);
    assert g1 == if f.sublexeme then g.(sublexeme := true) else g;
    var g2 := AddFlags(g1, b);
    assert g2 == if f.incase then g1.(incase := true) else g1;
    assert AddFlags(g2, c) == if f.anyend then g2.(anyend := true) else g2;
  }

  // ----- One variant -----

  lemma {:induction false} AlnumPrefix(s: string, i: nat)
    requires i < AlnumRun(s)
    ensures IsAlnum(s[i])
  {
    if i > 0 {
      AlnumPrefix(s[1..], i - 1);
    }
  }

  // At the start of a variant the parser is about to read.
  predicate AtVariant(p: P, ptr: nat) {
    p.st == WaitDelim && p.start == ptr && p.flags == NONE
  }

  function Enter(p: P, ptr: nat): P {
    p.(st := WaitDelim, start := ptr, wlen := 0, flags := NONE)
  }

  // Entering a variant from outside or from its start makes no difference.
  lemma EnterVariant(s: string, ptr: nat, p: P, end: nat, q: P)
    requires ptr < |s| && IsAlnum(s[ptr]) && (p.st == WaitLevel || p.st == WaitVar)
    requires ptr < end && Leads(s, ptr, Enter(p, ptr), end, q)
    ensures Leads(s, ptr, p, end, q)
  {
    var ps :| Trace(s, ptr, end, ps) && ps[0] == Enter(p, ptr) && ps[end - ptr] == q;
    assert Linked(s, ptr, ps, 0);
    var qs := ps[0 := p];
    forall k | 0 <= k < end - ptr ensures Linked(s, ptr, qs, k) {
      assert Linked(s, ptr, ps, k);
    }
    assert Trace(s, ptr, end, qs) && qs[0] == p && qs[end - ptr] == q;
  }

  // The signs after the name characters of a variant add up to its flags.
  lemma SpellingFlags(v: Variant, mayBeEmpty: bool)
    requires WellFormedName(v, mayBeEmpty)
    ensures var n := AlnumRun(v.name);
            |SpellVariant(v)| == |v.name| + Count(FlagsOf(v))
            && AddFlags(NONE, SpellVariant(v)[n..]) == FlagsOf(v)
            && FlagChars(SpellVariant(v)[n..], FlagsOf(v))
  {
    var f, n := FlagsOf(v), AlnumRun(v.name);
    var t := v.name[n..];
    assert SpellVariant(v)[n..] == t + Mods(f);
    AddFlagsWithin(NONE, t, f);
    AddFlagsThen(NONE, t, Mods(f));
    ModsAdd(AddFlags(NONE, t), f);
  }

  // The name characters of a spelled variant, and the signs after them.
  lemma SpelledChars(s: string, ptr: nat, v: Variant, mayBeEmpty: bool)
    requires WellFormedName(v, mayBeEmpty) && Has(s, ptr, SpellVariant(v))
    ensures var u, n := SpellVariant(v), AlnumRun(v.name);
            && n <= |u| && (forall i :: ptr <= i < ptr + n ==> IsAlnum(s[i]))
            && (forall i :: ptr + n <= i < ptr + |u| ==> IsFlag(s[i]))
            && AddFlags(NONE, s[ptr + n..ptr + |u|]) == FlagsOf(v) && (n == 0 ==> u == "")
  {
    var u, n := SpellVariant(v), AlnumRun(v.name);
    SpellingFlags(v, mayBeEmpty);
    forall i | ptr <= i < ptr + n ensures IsAlnum(s[i]) {
      AlnumPrefix(v.name, i - ptr);
      HasAt(s, ptr, u, i - ptr);
    }
    HasRest(s, ptr, u, n);
    forall i | ptr + n <= i < ptr + |u| ensures IsFlag(s[i]) {
      assert s[i] == u[n..][i - ptr - n];
    }
  }

  // Reading a variant leaves its flags, and its length with the modifiers.
  lemma ReadVariant(s: string, ptr: nat, v: Variant, mayBeEmpty: bool, p: P)
    requires WellFormedName(v, mayBeEmpty) && AtVariant(p, ptr) && Has(s, ptr, SpellVariant(v))
    ensures var u := SpellVariant(v);
            Leads(s, ptr, p, ptr + |u|, p.(flags := FlagsOf(v), wlen := p.wlen + |u|))
  {
    SpelledChars(s, ptr, v, mayBeEmpty);
    RunSpelled(s, ptr, AlnumRun(v.name), |SpellVariant(v)|, FlagsOf(v), p);
  }

  lemma RunSpelled(s: string, ptr: nat, n: nat, len: nat, f: Flags, p: P)
    requires AtVariant(p, ptr) && n <= len && ptr + len <= |s| && (n == 0 ==> len == 0)
    requires forall i :: ptr <= i < ptr + n ==> IsAlnum(s[i])
    requires forall i :: ptr + n <= i < ptr + len ==> IsFlag(s[i])
    requires AddFlags(NONE, s[ptr + n..ptr + len]) == f
    ensures Leads(s, ptr, p, ptr + len, p.(flags := f, wlen := p.wlen + len))
  {
    if n > 0 {
      var q := p.(wlen := p.wlen + n);
      RunAlnum(s, ptr, n, p);
      RunFlags(s, ptr + n, len - n, q);
      LeadsOn(s, ptr, p, ptr + n, q, ptr + len, p.(flags := f, wlen := p.wlen + len));
    } else {
      assert s[ptr + n..ptr + len] == "";
      LeadsNowhere(s, ptr, p);
    }
  }

  lemma VariantIs(s: string, ptr: nat, v: Variant, mayBeEmpty: bool, p: P)
    requires WellFormedName(v, mayBeEmpty) && Has(s, ptr, SpellVariant(v))
    requires p.start == ptr && p.flags == FlagsOf(v)
    ensures VariantAt(s, p, ptr + |SpellVariant(v)|) == v
  {
    SpellingFlags(v, mayBeEmpty);
    var u := SpellVariant(v);
    HasSplit(s, ptr, v.name, Mods(FlagsOf(v)));
    HasSlice(s, ptr, v.name);
  }

  // A variant that is not empty starts with a name character.
  lemma StartsAlnum(s: string, ptr: nat, v: Variant)
    requires WellFormedName(v, false) && Has(s, ptr, SpellVariant(v))
    ensures ptr < |s| && IsAlnum(s[ptr]) && SpellVariant(v) != ""
  {
    AlnumPrefix(v.name, 0);
    assert SpellVariant(v)[0] == v.name[0];
    HasAt(s, ptr, SpellVariant(v), 0);
  }

  // ----- The variants of a level -----

  function After(p: P, v: Variant, len: nat): P {
    p.(flags := FlagsOf(v), wlen := p.wlen + len)
  }

  ghost predicate ReadsFrom(s: string, ptr: nat, end: nat, v: Variant, p: P)
    requires ptr <= end <= |s|
  {
    Leads(s, ptr, p, end, After(p, v, end - ptr)) && VariantAt(s, After(p, v, end - ptr), end) == v
  }

  // From ptr to end the parser reads variant v.
  ghost predicate Reads(s: string, ptr: nat, end: nat, v: Variant) {
    ptr <= end <= |s| && forall p :: AtVariant(p, ptr) ==> ReadsFrom(s, ptr, end, v, p)
  }

  lemma SpelledReads(s: string, ptr: nat, v: Variant, mayBeEmpty: bool)
    requires WellFormedName(v, mayBeEmpty) && Has(s, ptr, SpellVariant(v))
    ensures Reads(s, ptr, ptr + |SpellVariant(v)|, v)
  {
    var end := ptr + |SpellVariant(v)|;
    forall p | AtVariant(p, ptr) ensures ReadsFrom(s, ptr, end, v, p) {
      ReadVariant(s, ptr, v, mayBeEmpty, p);
      VariantIs(s, ptr, v, mayBeEmpty, After(p, v, end - ptr));
    }
  }

  // Where item j of a list with one-character separators starts.
  function Offset(items: seq<string>, j: nat): nat
    requires j <= |items|
  {
    if j == 0 then 0 else Offset(items, j - 1) + |items[j - 1]| + 1
  }

  // Where item j stands, when the first one stands at from.
  function Start(from: nat, items: seq<string>, j: nat): nat
    requires j < |items|
  {
    from + Offset(items, j)
  }

  function End(from: nat, items: seq<string>, j: nat): nat
    requires j < |items|
  {
    from + Offset(items, j) + |items[j]|
  }

  // Variant j of level l stands from at to end, and is no longer than allowed.
  ghost predicate Fine(s: string, l: Level, j: nat, at: nat, end: nat)
    requires j < |l.variants|
  {
    && Reads(s, at, end, l.variants[j])
    && end - at + (if l.not && j == 0 then 1 else 0) <= 255
    && (l.variants[j].name == "" ==> l.not && j == 0)
    && (l.variants[j].name != "" ==> at < end && IsAlnum(s[at]))
  }

  // Variant j of level l is spelled by item j, and a bar follows if it is not the last.
  ghost predicate Piece(s: string, l: Level, from: nat, items: seq<string>, j: nat)
    requires j < |l.variants| == |items|
  {
    && Fine(s, l, j, Start(from, items, j), End(from, items, j))
    && (j + 1 < |items| ==> End(from, items, j) < |s| && s[End(from, items, j)] == '|' && Start(from, items, j + 1) == End(from, items, j) + 1)
  }

  ghost predicate Pieces(s: string, l: Level, from: nat, items: seq<string>) {
    |l.variants| == |items| && forall j :: 0 <= j < |items| ==> Piece(s, l, from, items, j)
  }

  // Variant j of level l has been read up to end.
  predicate ReadTo(s: string, end: nat, p: P, levels: seq<Level>, l: Level, j: nat) {
    && j < |l.variants| && end <= |s| && p.st == WaitDelim
    && p.levels == levels && p.vars == l.variants[..j] && p.not == l.not && p.low == 0 && p.high == 0
    && VariantAt(s, p, end) == l.variants[j] && p.wlen <= 255 && (l.variants[j].name != "" ==> p.start < end)
  }

  // About to read variant j of level l at ptr.
  predicate Ready(p: P, ptr: nat, levels: seq<Level>, l: Level, j: nat) {
    && j < |l.variants| && AtVariant(p, ptr)
    && p.levels == levels && p.vars == l.variants[..j] && p.not == l.not && p.low == 0 && p.high == 0
    && p.wlen == if l.not && j == 0 then 1 else 0
  }

  lemma ReadOne(s: string, levels: seq<Level>, l: Level, from: nat, items: seq<string>, j: nat, p: P)
    requires j < |l.variants| == |items| && Piece(s, l, from, items, j) && Ready(p, Start(from, items, j), levels, l, j)
    ensures var p' := After(p, l.variants[j], End(from, items, j) - Start(from, items, j));
            ReadTo(s, End(from, items, j), p', levels, l, j) && Leads(s, Start(from, items, j), p, End(from, items, j), p')
  {
    assert ReadsFrom(s, Start(from, items, j), End(from, items, j), l.variants[j], p);
  }

  // The same from before the first character, if the variant is not empty.
  lemma ReadEntered(s: string, levels: seq<Level>, l: Level, from: nat, items: seq<string>, j: nat, p: P)
    requires j < |l.variants| == |items| && Piece(s, l, from, items, j) && l.variants[j].name != ""
    requires (p.st == WaitLevel || p.st == WaitVar) && Ready(Enter(p, Start(from, items, j)), Start(from, items, j), levels, l, j)
    ensures var p' := After(Enter(p, Start(from, items, j)), l.variants[j], End(from, items, j) - Start(from, items, j));
            ReadTo(s, End(from, items, j), p', levels, l, j) && Leads(s, Start(from, items, j), p, End(from, items, j), p')
  {
    ReadOne(s, levels, l, from, items, j, Enter(p, Start(from, items, j)));
    EnterVariant(s, Start(from, items, j), p, End(from, items, j), After(Enter(p, Start(from, items, j)), l.variants[j], End(from, items, j) - Start(from, items, j)));
  }

  lemma ReadyNext(s: string, end: nat, levels: seq<Level>, l: Level, j: nat, p: P)
    requires ReadTo(s, end, p, levels, l, j) && j + 1 < |l.variants| && end < |s| && s[end] == '|'
    ensures Ready(Enter(CloseVariant(s, p, end), end + 1), end + 1, levels, l, j + 1)
    ensures Leads(s, end, p, end + 1, CloseVariant(s, p, end))
  {
    assert l.variants[..j + 1] == l.variants[..j] + [l.variants[j]];
    LeadsStep(s, end, p, CloseVariant(s, p, end));
  }

  // Past the bar, the next variant is read.
  lemma PastBar(s: string, levels: seq<Level>, l: Level, from: nat, items: seq<string>, j: nat, p: P) returns (p': P)
    requires j + 1 < |l.variants| == |items| && Piece(s, l, from, items, j) && Piece(s, l, from, items, j + 1)
    requires ReadTo(s, End(from, items, j), p, levels, l, j)
    ensures ReadTo(s, End(from, items, j + 1), p', levels, l, j + 1) && Leads(s, End(from, items, j), p, End(from, items, j + 1), p')
  {
    var q := CloseVariant(s, p, End(from, items, j));
    ReadyNext(s, End(from, items, j), levels, l, j, p);
    ReadEntered(s, levels, l, from, items, j + 1, q);
    p' := After(Enter(q, Start(from, items, j + 1)), l.variants[j + 1], End(from, items, j + 1) - Start(from, items, j + 1));
    LeadsOn(s, End(from, items, j), p, Start(from, items, j + 1), q, End(from, items, j + 1), p');
  }

  // From the end of variant j on.
  lemma {:induction false} ReadVariants(s: string, levels: seq<Level>, l: Level, from: nat, items: seq<string>, j: nat, p: P)
    returns (p': P)
    requires Pieces(s, l, from, items) && j < |l.variants| && ReadTo(s, End(from, items, j), p, levels, l, j)
    ensures var n := |l.variants| - 1; ReadTo(s, End(from, items, n), p', levels, l, n) && Leads(s, End(from, items, j), p, End(from, items, n), p')
    decreases |l.variants| - j
  {
    if j + 1 == |l.variants| {
      p' := p;
      LeadsNowhere(s, End(from, items, j), p);
    } else {
      assert Piece(s, l, from, items, j) && Piece(s, l, from, items, j + 1);
      var q := PastBar(s, levels, l, from, items, j, p);
      p' := ReadVariants(s, levels, l, from, items, j + 1, q);
      LeadsOn(s, End(from, items, j), p, End(from, items, j + 1), q, End(from, items, |l.variants| - 1), p');
    }
  }

  function Bang(l: Level): string {
    if l.not then "!" else ""
  }

  function Banged(levels: seq<Level>, ptr: nat): P {
    Fresh(levels).(st := WaitDelim, start := ptr + 1, wlen := 1, flags := NONE, not := true)
  }

  lemma StepBang(s: string, ptr: nat, levels: seq<Level>)
    requires Has(s, ptr, "!")
    ensures Leads(s, ptr, Fresh(levels), ptr + 1, Banged(levels, ptr))
  {
    HasAt(s, ptr, "!", 0);
    LeadsStep(s, ptr, Fresh(levels), Banged(levels, ptr));
  }

  // The first variant, after the ! if there is one.
  lemma FirstVariant(s: string, ptr: nat, levels: seq<Level>, l: Level, from: nat, items: seq<string>) returns (p': P)
    requires 0 < |l.variants| == |items| && Piece(s, l, from, items, 0)
    requires Has(s, ptr, Bang(l)) && Start(from, items, 0) == ptr + |Bang(l)|
    ensures ReadTo(s, End(from, items, 0), p', levels, l, 0) && Leads(s, ptr, Fresh(levels), End(from, items, 0), p')
  {
    if l.not {
      StepBang(s, ptr, levels);
      ReadOne(s, levels, l, from, items, 0, Banged(levels, ptr));
      p' := After(Banged(levels, ptr), l.variants[0], End(from, items, 0) - Start(from, items, 0));
      LeadsOn(s, ptr, Fresh(levels), Start(from, items, 0), Banged(levels, ptr), End(from, items, 0), p');
    } else {
      ReadEntered(s, levels, l, from, items, 0, Fresh(levels));
      p' := After(Enter(Fresh(levels), ptr), l.variants[0], End(from, items, 0) - Start(from, items, 0));
    }
  }

  lemma ReadAllVariants(s: string, ptr: nat, levels: seq<Level>, l: Level, from: nat, items: seq<string>) returns (p': P)
    requires l.variants != [] && Pieces(s, l, from, items) && Has(s, ptr, Bang(l)) && Start(from, items, 0) == ptr + |Bang(l)|
    ensures var n := |l.variants| - 1; ReadTo(s, End(from, items, n), p', levels, l, n) && Leads(s, ptr, Fresh(levels), End(from, items, n), p')
  {
    assert Piece(s, l, from, items, 0);
    var p := FirstVariant(s, ptr, levels, l, from, items);
    p' := ReadVariants(s, levels, l, from, items, 0, p);
    LeadsOn(s, ptr, Fresh(levels), End(from, items, 0), p, End(from, items, |l.variants| - 1), p');
  }

  lemma {:induction false} StandingAt(s: string, ptr: nat, end: nat, items: seq<string>, sep: string, j: nat)
    requires j < |items| && |sep| == 1 && Standing(s, ptr, end, items, sep, 0)
    ensures Standing(s, ptr + Offset(items, j), end, items, sep, j)
  {
    if j > 0 {
      StandingAt(s, ptr, end, items, sep, j - 1);
    }
  }

  // One variant of a spelled level, as a piece.
  lemma PieceOf(s: string, at: nat, v: Variant, mayBeEmpty: bool)
    requires WellFormedName(v, mayBeEmpty) && Has(s, at, SpellVariant(v))
    ensures Reads(s, at, at + |SpellVariant(v)|, v)
    ensures |SpellVariant(v)| == |v.name| + Count(FlagsOf(v)) && (v.name == "" ==> mayBeEmpty)
    ensures v.name != "" ==> SpellVariant(v) != "" && IsAlnum(s[at])
  {
    SpelledReads(s, at, v, mayBeEmpty);
    SpellingFlags(v, mayBeEmpty);
    if v.name != "" {
      StartsAlnum(s, at, v);
    }
  }

  lemma FineAt(s: string, l: Level, j: nat, at: nat, item: string, last: bool)
    requires j < |l.variants| && WellFormedVariant(l, j, last) && item == SpellVariant(l.variants[j]) && Has(s, at, item)
    ensures Fine(s, l, j, at, at + |item|)
  {
    PieceOf(s, at, l.variants[j], MayBeEmpty(l, j, last));
  }

  lemma ItemAt(s: string, ptr: nat, end: nat, items: seq<string>, sep: string, j: nat)
    requires j < |items| && |sep| == 1 && Standing(s, ptr, end, items, sep, 0)
    ensures Has(s, Start(ptr, items, j), items[j]) && End(ptr, items, j) <= |s|
    ensures j + 1 < |items| ==>
              End(ptr, items, j) < |s| && s[End(ptr, items, j)] == sep[0] && Start(ptr, items, j + 1) == End(ptr, items, j) + 1
    ensures j + 1 == |items| ==> End(ptr, items, j) == end
  {
    StandingAt(s, ptr, end, items, sep, j);
    if j + 1 < |items| {
      HasAt(s, ptr + Offset(items, j) + |items[j]|, sep, 0);
    }
  }

  // All the items of a level are fine.
  ghost predicate FineItem(s: string, l: Level, ptr: nat, items: seq<string>, j: nat)
    requires j < |l.variants| == |items|
  {
    Fine(s, l, j, Start(ptr, items, j), End(ptr, items, j))
  }

  lemma OneFineItem(s: string, ptr: nat, end: nat, l: Level, items: seq<string>, j: nat, last: bool)
    requires j < |l.variants| == |items| && items[j] == SpellVariant(l.variants[j])
    requires WellFormedVariant(l, j, last) && Standing(s, ptr, end, items, "|", 0)
    ensures FineItem(s, l, ptr, items, j)
  {
    ItemAt(s, ptr, end, items, "|", j);
    FineAt(s, l, j, Start(ptr, items, j), items[j], last);
  }

  lemma FineItems(s: string, ptr: nat, end: nat, l: Level, items: seq<string>, last: bool)
    requires items == Spellings(l.variants) && items != [] && Standing(s, ptr, end, items, "|", 0)
    requires forall j :: 0 <= j < |l.variants| ==> WellFormedVariant(l, j, last)
    ensures forall j :: 0 <= j < |items| ==> FineItem(s, l, ptr, items, j)
  {
    forall j | 0 <= j < |items| ensures FineItem(s, l, ptr, items, j) {
      assert WellFormedVariant(l, j, last);
      OneFineItem(s, ptr, end, l, items, j, last);
    }
  }

  lemma FinePieces(s: string, ptr: nat, end: nat, l: Level, items: seq<string>)
    requires |items| == |l.variants| && items != [] && Standing(s, ptr, end, items, "|", 0)
    requires forall j :: 0 <= j < |items| ==> FineItem(s, l, ptr, items, j)
    ensures Pieces(s, l, ptr, items) && End(ptr, items, |items| - 1) == end
  {
    forall j | 0 <= j < |items| ensures Piece(s, l, ptr, items, j) {
      assert FineItem(s, l, ptr, items, j);
      ItemAt(s, ptr, end, items, "|", j);
    }
    ItemAt(s, ptr, end, items, "|", |items| - 1);
  }

  // ----- Levels -----

  // A level has been read up to end, whatever closes it.
  predicate Closes(s: string, end: nat, p: P, levels: seq<Level>, l: Level)
    requires end <= |s|
  {
    && (end == |s| ==> Finish(s, p) == Done(levels + [l]))
    && (end < |s| && s[end] == '.' ==> Step(s, end, p) == Go(Fresh(levels + [l])))
  }

  lemma CloseVariants(s: string, end: nat, levels: seq<Level>, l: Level, p: P)
    requires l.variants != [] && ReadTo(s, end, p, levels, l, |l.variants| - 1) && l.low == 0 && l.high == 0
    requires end == |s| ==> l.variants[|l.variants| - 1].name != ""
    ensures Closes(s, end, p, levels, l)
  {
    var n := |l.variants| - 1;
    assert l.variants == l.variants[..n] + [l.variants[n]];
    assert CloseLevel(CloseVariant(s, p, end)) == Fresh(levels + [l]);
  }

  lemma ReadNamedLevel(s: string, ptr: nat, levels: seq<Level>, l: Level) returns (p': P)
    requires l.variants != [] && Has(s, ptr, SpellLevel(l)) && WellFormedLevel(l, ptr + |SpellLevel(l)| == |s|)
    ensures var end := ptr + |SpellLevel(l)|; Leads(s, ptr, Fresh(levels), end, p') && Closes(s, end, p', levels, l)
  {
    var end, items := ptr + |SpellLevel(l)|, Spellings(l.variants);
    HasSplit(s, ptr, Bang(l), Join(items, "|", 0));
    JoinStands(s, ptr + |Bang(l)|, end, items, "|", 0);
    p' := ReadSpelled(s, ptr, end, levels, l, items);
  }

  lemma ReadSpelled(s: string, ptr: nat, end: nat, levels: seq<Level>, l: Level, items: seq<string>) returns (p': P)
    requires l.variants != [] && WellFormedLevel(l, end == |s|) && items == Spellings(l.variants)
    requires Has(s, ptr, Bang(l)) && Standing(s, ptr + |Bang(l)|, end, items, "|", 0)
    ensures end <= |s| && Leads(s, ptr, Fresh(levels), end, p') && Closes(s, end, p', levels, l)
  {
    var from := ptr + |Bang(l)|;
    FineItems(s, from, end, l, items, end == |s|);
    FinePieces(s, from, end, l, items);
    p' := ReadAllVariants(s, ptr, levels, l, from, items);
    assert WellFormedVariant(l, |l.variants| - 1, end == |s|);
    CloseVariants(s, end, levels, l, p');
  }

  // ----- Wildcards -----

  lemma {:induction false} RunDigits(s: string, ptr: nat, n: nat, p: P)
    requires (p.st == WaitND || p.st == WaitClose) && ptr + n <= |s| && forall i :: ptr <= i < ptr + n ==> IsDigit(s[i])
    ensures Leads(s, ptr, p, ptr + n, p)
    decreases n
  {
    if n > 0 {
      LeadsStep(s, ptr, p, p);
      RunDigits(s, ptr + 1, n - 1, p);
      LeadsOn(s, ptr, p, ptr + 1, p, ptr + n, p);
    } else {
      LeadsNowhere(s, ptr, p);
    }
  }

  lemma NumberAt(s: string, ptr: nat, n: nat)
    requires n <= ANY && Has(s, ptr, Digits(n))
    requires ptr + |Digits(n)| < |s| && !IsDigit(s[ptr + |Digits(n)|])
    ensures Atoi16(s, ptr) == n && forall i :: ptr <= i < ptr + |Digits(n)| ==> IsDigit(s[i])
  {
    var d := Digits(n);
    var tail := s[ptr + |d|..];
    DigitsRoundTrip(n);
    assert s[ptr..] == d + tail;
    DigitRunOf(d, tail);
    assert s[ptr..ptr + |d|] == d;
    forall i | ptr <= i < ptr + |d| ensures IsDigit(s[i]) {
      HasAt(s, ptr, d, i - ptr);
    }
  }

  // The first number: then its end is awaited.
  lemma ReadLow(s: string, ptr: nat, n: nat, p: P)
    requires n <= ANY && Has(s, ptr, Digits(n)) && p.st == WaitFNum
    requires ptr + |Digits(n)| < |s| && !IsDigit(s[ptr + |Digits(n)|])
    ensures Leads(s, ptr, p, ptr + |Digits(n)|, p.(low := n, st := WaitND))
  {
    NumberAt(s, ptr, n);
    var q := p.(low := n, st := WaitND);
    LeadsStep(s, ptr, p, q);
    RunDigits(s, ptr + 1, |Digits(n)| - 1, q);
    LeadsOn(s, ptr, p, ptr + 1, q, ptr + |Digits(n)|, q);
  }

  lemma ReadHigh(s: string, ptr: nat, n: nat, p: P)
    requires n <= ANY && Has(s, ptr, Digits(n)) && p.st == WaitSNum
    requires ptr + |Digits(n)| < |s| && s[ptr + |Digits(n)|] == '}'
    ensures Leads(s, ptr, p, ptr + |Digits(n)| + 1, p.(high := n, st := WaitEnd))
  {
    var e := ptr + |Digits(n)|;
    NumberAt(s, ptr, n);
    var q := p.(high := n, st := WaitClose);
    LeadsStep(s, ptr, p, q);
    RunDigits(s, ptr + 1, |Digits(n)| - 1, q);
    LeadsOn(s, ptr, p, ptr + 1, q, e, q);
    LeadsStep(s, e, q, p.(high := n, st := WaitEnd));
    LeadsOn(s, ptr, p, e, q, e + 1, p.(high := n, st := WaitEnd));
  }

  // After * or *{ the bounds are read.
  function Star(levels: seq<Level>, st: St): P {
    Fresh(levels).(st := st)
  }

  lemma ReadStar(s: string, ptr: nat, levels: seq<Level>)
    requires Has(s, ptr, "*")
    ensures Leads(s, ptr, Fresh(levels), ptr + 1, Star(levels, WaitOpen))
  {
    HasAt(s, ptr, "*", 0);
    LeadsStep(s, ptr, Fresh(levels), Star(levels, WaitOpen));
  }

  lemma ReadBrace(s: string, ptr: nat, levels: seq<Level>)
    requires Has(s, ptr, "*{")
    ensures Leads(s, ptr, Fresh(levels), ptr + 2, Star(levels, WaitFNum))
  {
    HasAt(s, ptr, "*{", 0);
    HasAt(s, ptr, "*{", 1);
    LeadsStep(s, ptr, Fresh(levels), Star(levels, WaitOpen));
    LeadsStep(s, ptr + 1, Star(levels, WaitOpen), Star(levels, WaitFNum));
    LeadsOn(s, ptr, Fresh(levels), ptr + 1, Star(levels, WaitOpen), ptr + 2, Star(levels, WaitFNum));
  }

  function Bounded(levels: seq<Level>, low: nat, high: nat): P {
    Fresh(levels).(st := WaitEnd, low := low, high := high)
  }

  // *{n}
  lemma ReadExact(s: string, ptr: nat, levels: seq<Level>, n: nat)
    requires n <= ANY && Has(s, ptr, "*{") && Has(s, ptr + 2, Digits(n)) && Has(s, ptr + 2 + |Digits(n)|, "}")
    ensures Leads(s, ptr, Fresh(levels), ptr + 3 + |Digits(n)|, Bounded(levels, n, n))
  {
    var e := ptr + 2 + |Digits(n)|;
    HasAt(s, e, "}", 0);
    ReadBrace(s, ptr, levels);
    ReadLow(s, ptr + 2, n, Star(levels, WaitFNum));
    var q := Star(levels, WaitFNum).(low := n, st := WaitND);
    LeadsOn(s, ptr, Fresh(levels), ptr + 2, Star(levels, WaitFNum), e, q);
    LeadsStep(s, e, q, Bounded(levels, n, n));
    LeadsOn(s, ptr, Fresh(levels), e, q, e + 1, Bounded(levels, n, n));
  }

  // *{,n}
  lemma ReadUpTo(s: string, ptr: nat, levels: seq<Level>, n: nat)
    requires n <= ANY && Has(s, ptr, "*{") && Has(s, ptr + 2, ",")
    requires Has(s, ptr + 3, Digits(n)) && Has(s, ptr + 3 + |Digits(n)|, "}")
    ensures Leads(s, ptr, Fresh(levels), ptr + 4 + |Digits(n)|, Bounded(levels, 0, n))
  {
    HasAt(s, ptr + 2, ",", 0);
    HasAt(s, ptr + 3 + |Digits(n)|, "}", 0);
    ReadBrace(s, ptr, levels);
    LeadsStep(s, ptr + 2, Star(levels, WaitFNum), Star(levels, WaitSNum));
    LeadsOn(s, ptr, Fresh(levels), ptr + 2, Star(levels, WaitFNum), ptr + 3, Star(levels, WaitSNum));
    ReadHigh(s, ptr + 3, n, Star(levels, WaitSNum));
    LeadsOn(s, ptr, Fresh(levels), ptr + 3, Star(levels, WaitSNum), ptr + 4 + |Digits(n)|, Bounded(levels, 0, n));
  }

  // *{low, as far as the comma
  lemma ReadFrom(s: string, ptr: nat, levels: seq<Level>, low: nat)
    requires low <= ANY && Has(s, ptr, "*{") && Has(s, ptr + 2, Digits(low)) && Has(s, ptr + 2 + |Digits(low)|, ",")
    ensures Leads(s, ptr, Fresh(levels), ptr + 3 + |Digits(low)|, Star(levels, WaitSNum).(low := low))
  {
    var e := ptr + 2 + |Digits(low)|;
    HasAt(s, e, ",", 0);
    ReadBrace(s, ptr, levels);
    ReadLow(s, ptr + 2, low, Star(levels, WaitFNum));
    var q := Star(levels, WaitFNum).(low := low, st := WaitND);
    var r := Star(levels, WaitSNum).(low := low);
    LeadsOn(s, ptr, Fresh(levels), ptr + 2, Star(levels, WaitFNum), e, q);
    LeadsStep(s, e, q, r);
    LeadsOn(s, ptr, Fresh(levels), e, q, e + 1, r);
  }

  // *{low,}
  lemma ReadAtLeast(s: string, ptr: nat, levels: seq<Level>, low: nat)
    requires low <= ANY && Has(s, ptr, "*{") && Has(s, ptr + 2, Digits(low))
    requires Has(s, ptr + 2 + |Digits(low)|, ",") && Has(s, ptr + 3 + |Digits(low)|, "}")
    ensures Leads(s, ptr, Fresh(levels), ptr + 4 + |Digits(low)|, Bounded(levels, low, ANY))
  {
    var e, r := ptr + 3 + |Digits(low)|, Star(levels, WaitSNum).(low := low);
    ReadFrom(s, ptr, levels, low);
    HasAt(s, e, "}", 0);
    LeadsStep(s, e, r, Bounded(levels, low, ANY));
    LeadsOn(s, ptr, Fresh(levels), e, r, e + 1, Bounded(levels, low, ANY));
  }

  // *{low,high}
  lemma ReadBetween(s: string, ptr: nat, levels: seq<Level>, low: nat, high: nat)
    requires low <= ANY && high <= ANY && Has(s, ptr, "*{") && Has(s, ptr + 2, Digits(low))
    requires Has(s, ptr + 2 + |Digits(low)|, ",") && Has(s, ptr + 3 + |Digits(low)|, Digits(high))
    requires Has(s, ptr + 3 + |Digits(low)| + |Digits(high)|, "}")
    ensures Leads(s, ptr, Fresh(levels), ptr + 4 + |Digits(low)| + |Digits(high)|, Bounded(levels, low, high))
  {
    var e, r := ptr + 3 + |Digits(low)|, Star(levels, WaitSNum).(low := low);
    ReadFrom(s, ptr, levels, low);
    HasAt(s, e + |Digits(high)|, "}", 0);
    ReadHigh(s, e, high, r);
    LeadsOn(s, ptr, Fresh(levels), e, r, e + |Digits(high)| + 1, Bounded(levels, low, high));
  }

  lemma CloseBounded(s: string, end: nat, levels: seq<Level>, low: nat, high: nat)
    requires end <= |s|
    ensures Closes(s, end, Bounded(levels, low, high), levels, Level([], false, low, high))
    ensures Closes(s, end, Star(levels, WaitOpen), levels, Level([], false, 0, ANY))
  {
  }

  lemma FromToText(s: string, ptr: nat, from: string, to: string)
    requires Has(s, ptr, FromTo(from, to))
    ensures |FromTo(from, to)| == 4 + |from| + |to| && Has(s, ptr, "*{") && Has(s, ptr + 2, from)
    ensures Has(s, ptr + 2 + |from|, ",") && Has(s, ptr + 3 + |from|, to) && Has(s, ptr + 3 + |from| + |to|, "}")
  {
    HasSplit(s, ptr, "*{" + from + "," + to, "}");
    HasSplit(s, ptr, "*{" + from + ",", to);
    HasSplit(s, ptr, "*{" + from, ",");
    HasSplit(s, ptr, "*{", from);
  }

  lemma ExactlyText(s: string, ptr: nat, n: string)
    requires Has(s, ptr, Exactly(n))
    ensures |Exactly(n)| == 3 + |n| && Has(s, ptr, "*{") && Has(s, ptr + 2, n) && Has(s, ptr + 2 + |n|, "}")
  {
    HasSplit(s, ptr, "*{" + n, "}");
    HasSplit(s, ptr, "*{", n);
  }

  lemma ReadExactly(s: string, ptr: nat, levels: seq<Level>, n: nat)
    requires n <= ANY && Has(s, ptr, Exactly(Digits(n)))
    ensures Leads(s, ptr, Fresh(levels), ptr + |Exactly(Digits(n))|, Bounded(levels, n, n))
  {
    ExactlyText(s, ptr, Digits(n));
    ReadExact(s, ptr, levels, n);
  }

  lemma ReadUpToText(s: string, ptr: nat, levels: seq<Level>, high: nat)
    requires high <= ANY && Has(s, ptr, FromTo("", Digits(high)))
    ensures Leads(s, ptr, Fresh(levels), ptr + |FromTo("", Digits(high))|, Bounded(levels, 0, high))
  {
    FromToText(s, ptr, "", Digits(high));
    ReadUpTo(s, ptr, levels, high);
  }

  lemma ReadAtLeastText(s: string, ptr: nat, levels: seq<Level>, low: nat)
    requires low <= ANY && Has(s, ptr, FromTo(Digits(low), ""))
    ensures Leads(s, ptr, Fresh(levels), ptr + |FromTo(Digits(low), "")|, Bounded(levels, low, ANY))
  {
    FromToText(s, ptr, Digits(low), "");
    ReadAtLeast(s, ptr, levels, low);
  }

  lemma ReadBetweenText(s: string, ptr: nat, levels: seq<Level>, low: nat, high: nat)
    requires low <= ANY && high <= ANY && Has(s, ptr, FromTo(Digits(low), Digits(high)))
    ensures Leads(s, ptr, Fresh(levels), ptr + |FromTo(Digits(low), Digits(high))|, Bounded(levels, low, high))
  {
    FromToText(s, ptr, Digits(low), Digits(high));
    ReadBetween(s, ptr, levels, low, high);
  }

  lemma ReadWildcard(s: string, ptr: nat, levels: seq<Level>, low: nat, high: nat, text: string) returns (p': P)
    requires low <= high <= ANY && text == SpellBounds(low, high) && Has(s, ptr, text)
    ensures var end := ptr + |text|;
            Leads(s, ptr, Fresh(levels), end, p') && Closes(s, end, p', levels, Level([], false, low, high))
  {
    p' := Bounded(levels, low, high);
    CloseBounded(s, ptr + |text|, levels, low, high);
    if low == high {
      ReadExactly(s, ptr, levels, low);
    } else if low == 0 && high == ANY {
      ReadStar(s, ptr, levels);
      p' := Star(levels, WaitOpen);
    } else if low == 0 {
      ReadUpToText(s, ptr, levels, high);
    } else if high == ANY {
      ReadAtLeastText(s, ptr, levels, low);
    } else {
      ReadBetweenText(s, ptr, levels, low, high);
    }
  }

  // ----- The whole query -----

  lemma ReadLevel(s: string, ptr: nat, levels: seq<Level>, l: Level, item: string) returns (p': P)
    requires item == SpellLevel(l) && Has(s, ptr, item) && WellFormedLevel(l, ptr + |item| == |s|)
    ensures var end := ptr + |item|; Leads(s, ptr, Fresh(levels), end, p') && Closes(s, end, p', levels, l)
  {
    if l.variants == [] {
      assert l == Level([], false, l.low, l.high);
      p' := ReadWildcard(s, ptr, levels, l.low, l.high, item);
    } else {
      p' := ReadNamedLevel(s, ptr, levels, l);
    }
  }

  ghost predicate ReadsFresh(s: string, ptr: nat, end: nat, l: Level, levels: seq<Level>) {
    exists p :: Leads(s, ptr, Fresh(levels), end, p) && end <= |s| && Closes(s, end, p, levels, l)
  }

  // From ptr to end the parser reads level l, whatever the levels before it.
  ghost predicate ReadsLevel(s: string, ptr: nat, end: nat, l: Level) {
    forall levels :: ReadsFresh(s, ptr, end, l, levels)
  }

  lemma SpelledReadsLevel(s: string, ptr: nat, l: Level, item: string)
    requires item == SpellLevel(l) && Has(s, ptr, item) && WellFormedLevel(l, ptr + |item| == |s|)
    ensures ReadsLevel(s, ptr, ptr + |item|, l)
  {
    var end := ptr + |item|;
    forall levels ensures ReadsFresh(s, ptr, end, l, levels) {
      var p := ReadLevel(s, ptr, levels, l, item);
    }
  }

  lemma NextLevel(s: string, ptr: nat, end: nat, levels: seq<Level>, l: Level)
    requires ReadsLevel(s, ptr, end, l) && end < |s| && s[end] == '.'
    ensures Leads(s, ptr, Fresh(levels), end + 1, Fresh(levels + [l]))
  {
    assert ReadsFresh(s, ptr, end, l, levels);
    var p :| Leads(s, ptr, Fresh(levels), end, p) && Closes(s, end, p, levels, l);
    LeadsStep(s, end, p, Fresh(levels + [l]));
    LeadsOn(s, ptr, Fresh(levels), end, p, end + 1, Fresh(levels + [l]));
  }

  lemma LastLevel(s: string, ptr: nat, levels: seq<Level>, l: Level) returns (p: P)
    requires ReadsLevel(s, ptr, |s|, l)
    ensures Leads(s, ptr, Fresh(levels), |s|, p) && Finish(s, p) == Done(levels + [l])
  {
    assert ReadsFresh(s, ptr, |s|, l, levels);
    p :| Leads(s, ptr, Fresh(levels), |s|, p) && Closes(s, |s|, p, levels, l);
  }

  // Item i of the text is level i, with a dot after it if it is not the last.
  ghost predicate LevelPiece(s: string, ls: seq<Level>, items: seq<string>, i: nat)
    requires i < |ls| == |items|
  {
    && ReadsLevel(s, Start(0, items, i), End(0, items, i), ls[i])
    && if i + 1 == |items| then End(0, items, i) == |s|
       else End(0, items, i) < |s| && s[End(0, items, i)] == '.' && Start(0, items, i + 1) == End(0, items, i) + 1
  }

  lemma LevelPieceAt(s: string, ls: seq<Level>, items: seq<string>, i: nat)
    requires i < |ls| == |items| && items[i] == SpellLevel(ls[i]) && WellFormedLevel(ls[i], i + 1 == |ls|)
    requires Standing(s, 0, |s|, items, ".", 0)
    ensures LevelPiece(s, ls, items, i)
  {
    ItemAt(s, 0, |s|, items, ".", i);
    SpelledReadsLevel(s, Start(0, items, i), ls[i], items[i]);
  }

  lemma {:induction false} ReadLevels(s: string, ls: seq<Level>, items: seq<string>, i: nat) returns (p: P)
    requires |items| == |ls| && i < |ls| && forall k :: 0 <= k < |ls| ==> LevelPiece(s, ls, items, k)
    ensures Leads(s, Start(0, items, i), Fresh(ls[..i]), |s|, p) && Finish(s, p) == Done(ls)
    decreases |ls| - i
  {
    assert LevelPiece(s, ls, items, i);
    assert ls[..i + 1] == ls[..i] + [ls[i]];
    var at, end := Start(0, items, i), End(0, items, i);
    if i + 1 == |ls| {
      assert ls[..i + 1] == ls;
      p := LastLevel(s, at, ls[..i], ls[i]);
    } else {
      NextLevel(s, at, end, ls[..i], ls[i]);
      p := ReadLevels(s, ls, items, i + 1);
      LeadsOn(s, at, Fresh(ls[..i]), end + 1, Fresh(ls[..i + 1]), |s|, p);
    }
  }

  lemma {:induction false} NoneCrossed(ls: seq<Level>)
    requires forall i :: 0 <= i < |ls| ==> !Crossed(ls[i])
    ensures FirstCrossed(ls) == None
  {
    if ls != [] {
      NoneCrossed(ls[1..]);
    }
  }

  /** lquery_in rebuilds every well formed query from what lquery_out prints: levels, variants, flags,
      bounds, the number of good levels at the start and the mark for negation. */
  lemma PrintedParsesBack(q: LQuery)
    requires WellFormed(q)
    ensures Parse(Print(q)) == Read(q)
  {
    var s, items := Print(q), LevelTexts(q.levels);
    assert Has(s, 0, s);
    JoinStands(s, 0, |s|, items, ".", 0);
    forall i | 0 <= i < |items| ensures LevelPiece(s, q.levels, items, i) {
      LevelPieceAt(s, q.levels, items, i);
    }
    var p := ReadLevels(s, q.levels, items, 0);
    assert q.levels[..0] == [];
    LeadsRuns(s, 0, Fresh([]), |s|, p);
    forall i | 0 <= i < |q.levels| ensures !Crossed(q.levels[i]) {
      assert WellFormedLevel(q.levels[i], i + 1 == |q.levels|);
    }
    NoneCrossed(q.levels);
  }
}
