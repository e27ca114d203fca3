/** The text form of path queries: the nine-state parser, the printer, and that a query read from any text
    prints as a text that reads as the same query. */
module LQueryText {
  import opened Basics
  import opened CString
  import opened LTree
  import opened PathQuery

  const ANY := 0xffff

  // ----- The parser as a state machine -----

  datatype St = WaitLevel | WaitVar | WaitDelim | WaitOpen | WaitFNum | WaitSNum | WaitClose | WaitND | WaitEnd

  datatype Flags = Flags(incase: bool, anyend: bool, sublexeme: bool)

  const NONE := Flags(false, false, false)

  // The levels read, the level being read with its finished variants, and where its last variant starts.
  datatype P = P(st: St, levels: seq<Level>, vars: seq<Variant>, not: bool, low: nat, high: nat,
                 start: nat, wlen: nat, flags: Flags)

  datatype Error = SyntaxError(pos: nat) | NameTooLong(wlen: nat, pos: nat) | UnexpectedEnd | LowIsGreater(low: nat, high: nat)

  datatype Stepped = Go(p: P) | Stop(error: Error)

  datatype Input = Read(q: LQuery) | Refused(error: Error)

  // Before a level.
  function Fresh(levels: seq<Level>): P {
    P(WaitLevel, levels, [], false, 0, 0, 0, 0, NONE)
  }

  function Count(f: Flags): nat {
    (if f.sublexeme then 1 else 0) + (if f.incase then 1 else 0) + (if f.anyend then 1 else 0)
  }

  predicate IsFlag(c: char) {
    c == '@' || c == '*' || c == '%'
  }

  function AddFlag(f: Flags, c: char): Flags {
    if c == '@' then f.(incase := true)
    else if c == '*' then f.(anyend := true)
    else if c == '%' then f.(sublexeme := true)
    else f
  }

  // The variant that ends at ptr: the characters from its start, less one for every flag.
  function VariantAt(s: string, p: P, ptr: nat): Variant
    requires ptr <= |s|
  {
    var f := p.flags;
    Variant(if p.start + Count(f) <= ptr then s[p.start..ptr - Count(f)] else "", f.incase, f.anyend, f.sublexeme)
  }

  function CloseVariant(s: string, p: P, ptr: nat): P
    requires ptr <= |s|
  {
    p.(vars := p.vars + [VariantAt(s, p, ptr)], st := WaitVar)
  }

  function CloseLevel(p: P): P {
    Fresh(p.levels + [Level(p.vars, p.not, p.low, p.high)])
  }

  // What atoi reads at ptr, cut to 16 bits.
  function Atoi16(s: string, ptr: nat): nat
    requires ptr <= |s|
  {
    NatOf(s[ptr..ptr + DigitRun(s[ptr..])]) % 0x10000
  }

  function StepName(s: string, ptr: nat, p: P): Stepped
    requires ptr < |s|
  {
    var c := s[ptr];
    if IsFlag(c) then
      if p.start == ptr then Stop(SyntaxError(ptr)) else Go(p.(flags := AddFlag(p.flags, c), wlen := p.wlen + 1))
    else if c == '|' || c == '.' then
      if p.wlen > 255 then Stop(NameTooLong(p.wlen, ptr))
      else if c == '|' then Go(CloseVariant(s, p, ptr))
      else Go(CloseLevel(CloseVariant(s, p, ptr)))
    else if IsAlnum(c) && p.flags == NONE then Go(p.(wlen := p.wlen + 1))
    else Stop(SyntaxError(ptr))
  }

  function Step(s: string, ptr: nat, p: P): Stepped
    requires ptr < |s|
  {
    var c := s[ptr];
    match p.st
    case WaitLevel =>
      if IsAlnum(c) then Go(p.(st := WaitDelim, start := ptr, wlen := 1, flags := NONE))
      else if c == '!' then Go(p.(st := WaitDelim, start := ptr + 1, wlen := 1, flags := NONE, not := true))
      else if c == '*' then Go(p.(st := WaitOpen))
      else Stop(SyntaxError(ptr))
    case WaitVar =>
      if IsAlnum(c) then Go(p.(st := WaitDelim, start := ptr, wlen := 1, flags := NONE)) else Stop(SyntaxError(ptr))
    case WaitDelim => StepName(s, ptr, p)
    case WaitOpen =>
      if c == '{' then Go(p.(st := WaitFNum))
      else if c == '.' then Go(CloseLevel(p.(low := 0, high := ANY)))
      else Stop(SyntaxError(ptr))
    case WaitFNum =>
      if c == ',' then Go(p.(st := WaitSNum))
      else if IsDigit(c) then Go(p.(low := Atoi16(s, ptr), st := WaitND))
      else Stop(SyntaxError(ptr))
    case WaitSNum =>
      if IsDigit(c) then Go(p.(high := Atoi16(s, ptr), st := WaitClose))
      else if c == '}' then Go(p.(high := ANY, st := WaitEnd))
      else Stop(SyntaxError(ptr))
    case WaitClose =>
      if c == '}' then Go(p.(st := WaitEnd)) else if IsDigit(c) then Go(p) else Stop(SyntaxError(ptr))
    case WaitND =>
      if c == '}' then Go(p.(high := p.low, st := WaitEnd))
      else if c == ',' then Go(p.(st := WaitSNum))
      else if IsDigit(c) then Go(p)
      else Stop(SyntaxError(ptr))
    case WaitEnd => if c == '.' then Go(CloseLevel(p)) else Stop(SyntaxError(ptr))
  }

  // A wildcard whose bounds are in the wrong order.
  predicate Crossed(l: Level) {
    l.variants == [] && l.low > l.high
  }

  // The first wildcard whose bounds are in the wrong order is reported.
  function FirstCrossed(ls: seq<Level>): Option<Level> {
    if ls == [] then None else if Crossed(ls[0]) then Some(ls[0]) else FirstCrossed(ls[1..])
  }

  predicate AnyNot(ls: seq<Level>) {
    exists i :: 0 <= i < |ls| && ls[i].not
  }

  // What the levels make, once all are read.
  function Done(ls: seq<Level>): Input {
    var bad := FirstCrossed(ls);
    if bad.Some? then Refused(LowIsGreater(bad.value.low, bad.value.high))
    else Read(LQuery(ls, FirstGood(ls), AnyNot(ls)))
  }

  // At the end of the text.
  function Finish(s: string, p: P): Input {
    match p.st
    case WaitDelim =>
      if p.start >= |s| || VariantAt(s, p, |s|).name == "" then Refused(UnexpectedEnd)
      else if p.wlen > 255 then Refused(NameTooLong(p.wlen, |s|))
      else Done(CloseLevel(CloseVariant(s, p, |s|)).levels)
    case WaitOpen => Done(CloseLevel(p.(high := ANY)).levels)
    case WaitEnd => Done(CloseLevel(p).levels)
    case _ => Refused(UnexpectedEnd)
  }

  function Run(s: string, ptr: nat, p: P): Input
    requires ptr <= |s|
    decreases |s| - ptr
  {
    if ptr == |s| then Finish(s, p)
    else
      match Step(s, ptr, p)
      case Stop(e) => Refused(e)
      case Go(p') => Run(s, ptr + 1, p')
  }

  /** What lquery_in makes of a text. */
  function Parse(s: string): Input {
    Run(s, 0, Fresh([]))
  }

  // ----- The printer -----

  function Mods(f: Flags): string {
    (if f.sublexeme then "%" else "") + (if f.incase then "@" else "") + (if f.anyend then "*" else "")
  }

  function FlagsOf(v: Variant): Flags {
    Flags(v.incase, v.anyend, v.sublexeme)
  }

  function SpellVariant(v: Variant): string {
    v.name + Mods(FlagsOf(v))
  }

  function Spellings(vs: seq<Variant>): (items: seq<string>)
    ensures |items| == |vs| && forall i :: 0 <= i < |vs| ==> items[i] == SpellVariant(vs[i])
  {
    seq(|vs|, i requires 0 <= i < |vs| => SpellVariant(vs[i]))
  }

  function Exactly(n: string): string {
    "*{" + n + "}"
  }

  function FromTo(from: string, to: string): string {
    "*{" + from + "," + to + "}"
  }

  // A bound of 0 below or ANY above is left out.
  function SpellBounds(low: nat, high: nat): string {
    if low == high then Exactly(Digits(low))
    else if low == 0 && high == ANY then "*"
    else FromTo(if low == 0 then "" else Digits(low), if high == ANY then "" else Digits(high))
  }

  function SpellLevel(l: Level): string {
    if l.variants != [] then (if l.not then "!" else "") + Join(Spellings(l.variants), "|", 0)
    else SpellBounds(l.low, l.high)
  }

  function LevelTexts(ls: seq<Level>): (items: seq<string>)
    ensures |items| == |ls| && forall i :: 0 <= i < |ls| ==> items[i] == SpellLevel(ls[i])
  {
    seq(|ls|, i requires 0 <= i < |ls| => SpellLevel(ls[i]))
  }

  /** What lquery_out writes. */
  function Print(q: LQuery): string {
    Join(LevelTexts(q.levels), ".", 0)
  }
}
