/** The text form of label paths: names of letters, digits and underscores with dots between them. */
module LTreeText {
  import opened Basics
  import opened CString
  import opened LTree

  predicate ValidName(s: string) {
    0 < |s| <= 255 && AllAlnum(s)
  }

  /** The paths that have a text form. */
  predicate ValidPath(p: Path) {
    forall i :: 0 <= i < |p| ==> ValidName(p[i])
  }

  // The names with dots between them.
  function Dotted(p: Path): string {
    if p == [] then "" else if |p| == 1 then p[0] else p[0] + "." + Dotted(p[1..])
  }

  // The text of s from ptr on is p.
  predicate Stands(s: string, ptr: nat, p: Path)
    decreases |p|
  {
    if p == [] then ptr == |s|
    else
      && Has(s, ptr, p[0])
      && var end := ptr + |p[0]|;
         if |p| == 1 then end == |s| else end < |s| && s[end] == '.' && Stands(s, end + 1, p[1..])
  }

  lemma {:induction false} DottedStands(s: string, ptr: nat, p: Path)
    requires ptr <= |s| && s[ptr..] == Dotted(p)
    ensures Stands(s, ptr, p)
    decreases |p|
  {
    if p != [] {
      var end := ptr + |p[0]|;
      assert forall k :: 0 <= k < |p[0]| ==> p[0][k] == Dotted(p)[k] == s[ptr..][k];
      if |p| > 1 {
        assert s[end] == s[ptr..][|p[0]|] == '.';
        assert s[end + 1..] == s[ptr..][|p[0]| + 1..] == Dotted(p[1..]);
        DottedStands(s, end + 1, p[1..]);
      }
    }
  }

  lemma {:induction false} StandingIsDotted(s: string, ptr: nat, p: Path)
    requires ptr <= |s| && Stands(s, ptr, p)
    ensures s[ptr..] == Dotted(p)
    decreases |p|
  {
    if p != [] {
      var end := ptr + |p[0]|;
      assert s[ptr..end] == p[0];
      if |p| > 1 {
        StandingIsDotted(s, end + 1, p[1..]);
        assert s[ptr..] == s[ptr..end] + [s[end]] + s[end + 1..];
      }
    }
  }

  // The characters of s from start to ptr belong to a name.
  predicate NameRun(s: string, start: nat, ptr: nat) {
    start <= ptr <= |s| && forall i :: start <= i < ptr ==> IsAlnum(s[i])
  }

  // The first name is as long as the run of name characters.
  lemma NameIs(s: string, start: nat, ptr: nat, p: Path)
    requires ValidPath(p) && Stands(s, start, p) && start < |s|
    requires NameRun(s, start, ptr) && (ptr == |s| || !IsAlnum(s[ptr]))
    ensures p != [] && start < ptr && p[0] == s[start..ptr] && (ptr == |s| || s[ptr] == '.')
  {
    var n := |p[0]|;
    assert s[start] == p[0][0];
    assert forall i :: start <= i < start + n ==> s[i] == p[0][i - start];
    assert forall i :: start <= i < start + n ==> IsAlnum(s[i]);
    assert n == ptr - start;
  }

  // The names of done, each with its dot, fill s up to base.
  predicate Leads(s: string, done: Path, base: nat) {
    if done == [] then base == 0
    else
      var name := done[|done| - 1];
      && base <= |s| && |name| < base && s[base - 1] == '.' && Has(s, base - 1 - |name|, name)
      && Leads(s, done[..|done| - 1], base - 1 - |name|)
  }

  // A name with a dot at the start of a standing path is its first name, and more names follow.
  lemma StandsNext(s: string, base: nat, name: string, p: Path)
    requires ValidName(name) && ValidPath(p) && Stands(s, base, p) && Has(s, base, name)
    requires base + |name| < |s| && s[base + |name|] == '.'
    ensures |p| > 1 && p[0] == name && Stands(s, base + |name| + 1, p[1..])
  {
    var end := base + |name|;
    assert forall i :: base <= i < end ==> s[i] == name[i - base];
    NameIs(s, base, end, p);
    assert s[base..end] == name;
  }

  // A path whose text starts with the names done has those names, and its other names are the rest.
  lemma {:induction false} Continues(s: string, done: Path, base: nat, p: Path)
    requires ValidPath(done) && ValidPath(p) && Leads(s, done, base) && Stands(s, 0, p) && s != ""
    ensures |done| < |p| && p[..|done|] == done && Stands(s, base, p[|done|..])
  {
    if done == [] {
      assert p[0..] == p;
    } else {
      var m := |done| - 1;
      Continues(s, done[..m], base - 1 - |done[m]|, p);
      StandsNext(s, base - 1 - |done[m]|, done[m], p[m..]);
      assert p[m..][1..] == p[m + 1..];
      assert p[..m + 1] == p[..m] + [p[m]] && done == done[..m] + [done[m]];
    }
  }

  /** A text is the text of at most one path. */
  lemma {:induction false} TextDeterminesPath(p: Path, q: Path)
    requires ValidPath(p) && ValidPath(q) && Dotted(p) == Dotted(q)
    ensures p == q
  {
    var s := Dotted(p);
    assert s[0..] == s;
    DottedStands(s, 0, p);
    DottedStands(s, 0, q);
    SameStanding(s, 0, p, q);
  }

  lemma {:induction false} SameStanding(s: string, ptr: nat, p: Path, q: Path)
    requires ValidPath(p) && ValidPath(q) && Stands(s, ptr, p) && Stands(s, ptr, q)
    ensures p == q
    decreases |p|
  {
    if p != [] && q != [] {
      var end := ptr + |p[0]|;
      assert forall i :: ptr <= i < end ==> s[i] == p[0][i - ptr];
      NameIs(s, ptr, end, p);
      NameIs(s, ptr, end, q);
      assert p[0] == q[0];
      if |p| > 1 {
        SameStanding(s, end + 1, p[1..], q[1..]);
        assert p == [p[0]] + p[1..] && q == [q[0]] + q[1..];
      }
    }
  }

  // ----- ltree_in and ltree_out -----

  datatype State = WaitName | WaitDelim

  datatype Input = Read(path: Path) | SyntaxError(pos: nat) | NameTooLong(wlen: nat, pos: nat) | UnexpectedEnd

  // The levels of p that are stored: their number is cut to 16 bits.
  function Stored(p: Path): (q: Path)
    ensures |q| == UInt2(|p|) && q <= p
    ensures q == p <==> |p| <= 0xffff
  {
    p[..UInt2(|p|)]
  }

  /** What is stored can be compared. */
  lemma StoredIsClean(p: Path)
    requires ValidPath(p)
    ensures CleanPath(Stored(p)) && ValidPath(Stored(p))
  {
    forall i | 0 <= i < |Stored(p)| ensures CleanName(Stored(p)[i]) {
      assert Stored(p)[i] == p[i] && ValidName(p[i]);
    }
  }

  /** ltree_in accepts exactly the texts of valid paths, and stores the levels that a 16-bit count keeps of
      the path. */
  method In(text: string) returns (r: Input)
    ensures r.Read? <==> exists p :: ValidPath(p) && Dotted(p) == text
    ensures forall p :: ValidPath(p) && Dotted(p) == text ==> r == Read(Stored(p))
    ensures r.Read? ==> CleanPath(r.path) && ValidPath(r.path)
  {
    r := Parse(text);
    forall p | ValidPath(p) && Dotted(p) == text ensures r.Read? && r.path == p {
      if r.Read? {
        TextDeterminesPath(p, r.path);
      }
    }
    if r.Read? {
      StoredIsClean(r.path);
      r := Read(Stored(r.path));
    }
  }

  // The character loop, which collects the names.
  method Parse(text: string) returns (r: Input)
    ensures r.Read? ==> ValidPath(r.path) && Dotted(r.path) == text
    ensures !r.Read? ==> forall p :: ValidPath(p) ==> Dotted(p) != text
  {
    var list: Path := [];
    var state, start, wlen, ptr := WaitName, 0, 0, 0;
    while ptr < |text|
      invariant 0 <= start <= ptr <= |text| && ValidPath(list)
      invariant Leads(text, list, if state == WaitName then ptr else start)
      invariant state == WaitDelim ==> start < ptr && NameRun(text, start, ptr) && wlen == ptr - start
    {
      var c := text[ptr];
      if state == WaitName {
        if IsAlnum(c) {
          start, wlen, state := ptr, 0, WaitDelim;
        } else {
          NoPath(text, list, ptr, ptr);
          return SyntaxError(ptr);
        }
      } else {
        if c == '.' {
          if wlen > 255 {
            NoPath(text, list, start, ptr);
            return NameTooLong(wlen, ptr);
          }
          AddName(text, list, start, ptr);
          list := list + [text[start..ptr]];
          state := WaitName;
        } else if !IsAlnum(c) {
          NoPath(text, list, start, ptr);
          return SyntaxError(ptr);
        }
      }
      ptr, wlen := ptr + 1, wlen + 1;
    }
    if state == WaitDelim {
      if wlen > 255 {
        NoPath(text, list, start, ptr);
        return NameTooLong(wlen, ptr);
      }
      LastName(text, list, start);
      list := list + [text[start..ptr]];
    } else if list != [] {
      NoPath(text, list, ptr, ptr);
      return UnexpectedEnd;
    }
    r := Read(list);
  }

  lemma AddName(s: string, done: Path, start: nat, ptr: nat)
    requires ValidPath(done) && Leads(s, done, start) && start < ptr < |s| && NameRun(s, start, ptr) && s[ptr] == '.' && ptr - start <= 255
    ensures ValidPath(done + [s[start..ptr]]) && Leads(s, done + [s[start..ptr]], ptr + 1)
  {
    var name := s[start..ptr];
    assert (done + [name])[..|done|] == done;
  }

  lemma {:induction false} LeadsThenName(s: string, done: Path, base: nat, rest: Path)
    requires Leads(s, done, base) && Stands(s, base, rest) && rest != []
    ensures Stands(s, 0, done + rest)
    decreases |done|
  {
    if done == [] {
      assert done + rest == rest;
    } else {
      var m := |done| - 1;
      var name := done[m];
      var more := [name] + rest;
      assert more[1..] == rest;
      LeadsThenName(s, done[..m], base - 1 - |name|, more);
      assert done[..m] + more == done + rest;
    }
  }

  lemma LastName(s: string, done: Path, start: nat)
    requires ValidPath(done) && Leads(s, done, start) && start < |s| && NameRun(s, start, |s|) && |s| - start <= 255
    ensures ValidPath(done + [s[start..|s|]]) && Dotted(done + [s[start..|s|]]) == s
  {
    var name := s[start..|s|];
    LeadsThenName(s, done, start, [name]);
    StandingIsDotted(s, 0, done + [name]);
  }

  // What makes ltree_in give up rules out every path.
  lemma NoPath(s: string, done: Path, start: nat, ptr: nat)
    requires ValidPath(done) && Leads(s, done, start) && start <= ptr <= |s| && NameRun(s, start, ptr) && s != ""
    requires start == ptr || ptr == |s| || s[ptr] != '.' || ptr - start > 255
    requires ptr < |s| ==> !IsAlnum(s[ptr])
    requires ptr == |s| ==> start == ptr || ptr - start > 255
    ensures forall p :: ValidPath(p) ==> Dotted(p) != s
  {
    forall p | ValidPath(p) ensures Dotted(p) != s {
      if Dotted(p) == s {
        assert s[0..] == s;
        DottedStands(s, 0, p);
        Continues(s, done, start, p);
        var rest := p[|done|..];
        assert rest[0] == p[|done|] && ValidName(rest[0]);
        if start < |s| {
          NameIs(s, start, ptr, rest);
        }
        assert false;
      }
    }
  }

  /** ltree_out */
  method Out(p: Path) returns (text: string)
    ensures text == Dotted(p)
  {
    text := "";
    var i := 0;
    assert p[0..] == p;
    while i < |p|
      invariant 0 <= i <= |p|
      invariant i > 0 && i < |p| ==> text + "." + Dotted(p[i..]) == Dotted(p)
      invariant i == 0 ==> text == ""
      invariant i == |p| ==> text == Dotted(p)
    {
      assert p[i..][1..] == p[i + 1..];
      if i != 0 {
        text := text + ".";
      }
      text := text + p[i];
      i := i + 1;
    }
  }

  /** ltree_out and then ltree_in: every path is read back as its stored levels, so as itself if and only if
      its levels can be counted in 16 bits. */
  method OutThenIn(p: Path) returns (r: Input)
    requires ValidPath(p)
    ensures r == Read(Stored(p))
    ensures r == Read(p) <==> |p| <= 0xffff
  {
    var text := Out(p);
    r := In(text);
  }

  /** Of the text of 65536 names ltree_in keeps nothing. */
  method TooManyNames() returns (r: Input)
    ensures r == Read([])
  {
    var p := Deep(0x1_0000);
    assert ValidPath(p);
    r := OutThenIn(p);
  }
}
