/** Every query lquery_in reads is well formed, so printing it and reading the text again changes nothing. */
module LQueryImage {
  import opened Basics
  import opened CString
  import opened LTree
  import opened PathQuery
  import opened LQueryText
  import opened LQueryRoundTrip

  // The variant being read: name characters from start to k, then the signs of its flags.
  ghost predicate Reading(s: string, ptr: nat, start: nat, k: nat, flags: Flags) {
    && start <= k <= ptr <= |s| && (forall i :: start <= i < k ==> IsAlnum(s[i]))
    && (forall i :: k <= i < ptr ==> IsFlag(s[i])) && AddFlags(NONE, s[k..ptr]) == flags && (start == k ==> k == ptr)
  }

  // What holds of the level being read, before ptr.
  ghost predicate LevelSoFar(s: string, ptr: nat, p: P) {
    && (forall j :: 0 <= j < |p.vars| ==> FineVariant(p, j))
    && match p.st
       case WaitLevel => p.vars == [] && !p.not && p.low == 0 && p.high == 0
       case WaitVar => p.vars != [] && p.low == 0 && p.high == 0
       case WaitDelim =>
         && p.low == 0 && p.high == 0 && (p.start == ptr ==> p.not && p.vars == [])
         && p.wlen == ptr - p.start + (if p.not && p.vars == [] then 1 else 0)
         && exists k :: Reading(s, ptr, p.start, k, p.flags)
       case _ => p.vars == [] && !p.not && p.low <= ANY && (p.st == WaitEnd || p.st == WaitClose ==> p.high <= ANY)
  }

  // A finished variant of the level being read.
  ghost predicate FineVariant(p: P, j: nat)
    requires j < |p.vars|
  {
    var v := p.vars[j];
    && WellFormedName(v, p.not && j == 0)
    && |v.name| + Count(FlagsOf(v)) + (if p.not && j == 0 then 1 else 0) <= 255
  }

  ghost predicate SoFar(s: string, ptr: nat, p: P) {
    LevelSoFar(s, ptr, p) && forall i :: 0 <= i < |p.levels| ==> ReadLevelOk(p.levels[i])
  }

  // A finished level: well formed, but for the order of its bounds.
  predicate ReadLevelOk(l: Level) {
    if l.variants == [] then !l.not && l.low <= ANY && l.high <= ANY else WellFormedLevel(l, false)
  }

  lemma {:induction false} FlagCount(f: Flags, u: string)
    requires forall i :: 0 <= i < |u| ==> IsFlag(u[i])
    ensures Count(f) <= Count(AddFlags(f, u)) <= Count(f) + |u| && Within(f, AddFlags(f, u))
    ensures FlagChars(u, AddFlags(f, u))
    decreases |u|
  {
    if u != "" {
      FlagCount(AddFlag(f, u[0]), u[1..]);
      assert forall i :: 1 <= i < |u| ==> u[i] == u[1..][i - 1];
    }
  }

  lemma {:induction false} AlnumRunIs(s: string, n: nat)
    requires n <= |s| && (forall i :: 0 <= i < n ==> IsAlnum(s[i])) && (n == |s| || !IsAlnum(s[n]))
    ensures AlnumRun(s) == n
  {
    if n > 0 {
      AlnumRunIs(s[1..], n - 1);
    }
  }

  // A variant that ends at ptr is well formed.
  lemma EndsWell(s: string, ptr: nat, p: P, k: nat)
    requires p.st == WaitDelim && Reading(s, ptr, p.start, k, p.flags)
    ensures var v := VariantAt(s, p, ptr);
            && |v.name| + Count(FlagsOf(v)) == ptr - p.start && FlagsOf(v) == p.flags
            && WellFormedName(v, p.start == ptr)
  {
    var u := s[k..ptr];
    assert forall i :: 0 <= i < |u| ==> u[i] == s[k + i];
    FlagCount(NONE, u);
    var v := VariantAt(s, p, ptr);
    var n := k - p.start;
    assert v.name == s[p.start..ptr - Count(p.flags)];
    assert forall i :: 0 <= i < |v.name| ==> v.name[i] == s[p.start + i];
    if k > p.start {
      AlnumRunIs(v.name, n);
      assert forall i :: 0 <= i < |v.name| - n ==> v.name[n..][i] == u[i];
    }
  }

  lemma {:induction false} SomeFlag(f: Flags, u: string)
    requires u != "" && forall i :: 0 <= i < |u| ==> IsFlag(u[i])
    ensures AddFlags(f, u) != NONE
  {
    FlagCount(AddFlag(f, u[0]), u[1..]);
  }

  // ----- One step -----

  lemma ReadsFlag(s: string, ptr: nat, start: nat, k: nat, flags: Flags)
    requires Reading(s, ptr, start, k, flags) && start < ptr < |s| && IsFlag(s[ptr])
    ensures Reading(s, ptr + 1, start, k, AddFlag(flags, s[ptr]))
  {
    assert s[k..ptr + 1] == s[k..ptr] + [s[ptr]];
    AddFlagsThen(NONE, s[k..ptr], [s[ptr]]);
    assert AddFlags(flags, [s[ptr]]) == AddFlag(flags, s[ptr]);
  }

  lemma ReadsAlnum(s: string, ptr: nat, start: nat, k: nat)
    requires Reading(s, ptr, start, k, NONE) && ptr < |s| && IsAlnum(s[ptr])
    ensures Reading(s, ptr + 1, start, ptr + 1, NONE)
  {
    var u := s[k..ptr];
    assert forall i :: 0 <= i < |u| ==> u[i] == s[k + i];
    if u != "" {
      SomeFlag(NONE, u);
    }
    assert k == ptr;
    assert s[ptr + 1..ptr + 1] == "";
  }

  lemma StartsReading(s: string, ptr: nat)
    requires ptr <= |s|
    ensures Reading(s, ptr, ptr, ptr, NONE)
    ensures ptr < |s| && IsAlnum(s[ptr]) ==> Reading(s, ptr + 1, ptr, ptr + 1, NONE)
  {
    assert s[ptr..ptr] == "";
    if ptr < |s| && IsAlnum(s[ptr]) {
      ReadsAlnum(s, ptr, ptr, ptr);
    }
  }

  lemma NameStepKeeps(s: string, ptr: nat, p: P)
    requires ptr < |s| && p.st == WaitDelim && LevelSoFar(s, ptr, p) && Step(s, ptr, p).Go?
    requires s[ptr] != '|' && s[ptr] != '.'
    ensures LevelSoFar(s, ptr + 1, Step(s, ptr, p).p)
  {
    var k :| Reading(s, ptr, p.start, k, p.flags);
    var p' := Step(s, ptr, p).p;
    if IsFlag(s[ptr]) {
      ReadsFlag(s, ptr, p.start, k, p.flags);
    } else {
      ReadsAlnum(s, ptr, p.start, k);
    }
    forall j | 0 <= j < |p'.vars| ensures FineVariant(p', j) {
      assert FineVariant(p, j);
    }
  }

  // Closing a variant keeps the variants of the level fine.
  lemma CloseKeeps(s: string, ptr: nat, p: P)
    requires ptr <= |s| && p.st == WaitDelim && LevelSoFar(s, ptr, p) && p.wlen <= 255
    ensures var q := CloseVariant(s, p, ptr);
            q.vars != [] && q.low == 0 && q.high == 0 && forall j :: 0 <= j < |q.vars| ==> FineVariant(q, j)
  {
    var k :| Reading(s, ptr, p.start, k, p.flags);
    EndsWell(s, ptr, p, k);
    var q := CloseVariant(s, p, ptr);
    forall j | 0 <= j < |q.vars| ensures FineVariant(q, j) {
      if j < |p.vars| {
        assert FineVariant(p, j) && q.vars[j] == p.vars[j];
      }
    }
  }

  lemma FineLevel(p: P, last: bool)
    requires p.vars != [] && p.low == 0 && p.high == 0 && forall j :: 0 <= j < |p.vars| ==> FineVariant(p, j)
    requires last ==> p.vars[|p.vars| - 1].name != ""
    ensures WellFormedLevel(Level(p.vars, p.not, p.low, p.high), last)
  {
    var l := Level(p.vars, p.not, p.low, p.high);
    forall j | 0 <= j < |l.variants| ensures WellFormedVariant(l, j, last) {
      assert FineVariant(p, j);
    }
  }

  lemma DelimStepKeeps(s: string, ptr: nat, p: P)
    requires ptr < |s| && p.st == WaitDelim && SoFar(s, ptr, p) && Step(s, ptr, p).Go?
    ensures SoFar(s, ptr + 1, Step(s, ptr, p).p)
  {
    var p' := Step(s, ptr, p).p;
    if s[ptr] == '|' || s[ptr] == '.' {
      CloseKeeps(s, ptr, p);
      if s[ptr] == '.' {
        FineLevel(CloseVariant(s, p, ptr), false);
      }
    } else {
      NameStepKeeps(s, ptr, p);
    }
  }

  lemma OtherStepKeeps(s: string, ptr: nat, p: P)
    requires ptr < |s| && p.st != WaitDelim && SoFar(s, ptr, p) && Step(s, ptr, p).Go?
    ensures SoFar(s, ptr + 1, Step(s, ptr, p).p)
  {
    var p' := Step(s, ptr, p).p;
    StartsReading(s, ptr);
    StartsReading(s, ptr + 1);
    forall j | 0 <= j < |p'.vars| ensures FineVariant(p', j) {
      assert FineVariant(p, j);
    }
  }

  // ----- The end -----

  lemma {:induction false} NoneCrossedMeans(ls: seq<Level>, i: nat)
    requires FirstCrossed(ls) == None && i < |ls|
    ensures !Crossed(ls[i])
  {
    if i > 0 {
      NoneCrossedMeans(ls[1..], i - 1);
    }
  }

  lemma DoneIsWellFormed(ls: seq<Level>, l: Level)
    requires (forall i :: 0 <= i < |ls| ==> ReadLevelOk(ls[i])) && Done(ls + [l]).Read?
    requires if l.variants == [] then ReadLevelOk(l) else WellFormedLevel(l, true)
    ensures WellFormed(Done(ls + [l]).q)
  {
    var all := ls + [l];
    forall i | 0 <= i < |all| ensures WellFormedLevel(all[i], i + 1 == |all|) {
      NoneCrossedMeans(all, i);
      if i < |ls| {
        assert ReadLevelOk(ls[i]);
      }
    }
  }

  lemma FinishIsWellFormed(s: string, p: P)
    requires SoFar(s, |s|, p) && Finish(s, p).Read?
    ensures WellFormed(Finish(s, p).q)
  {
    match p.st
    case WaitDelim =>
      CloseKeeps(s, |s|, p);
      var q := CloseVariant(s, p, |s|);
      FineLevel(q, true);
      DoneIsWellFormed(p.levels, Level(q.vars, q.not, q.low, q.high));
    case WaitOpen => DoneIsWellFormed(p.levels, Level(p.vars, p.not, p.low, ANY));
    case WaitEnd => DoneIsWellFormed(p.levels, Level(p.vars, p.not, p.low, p.high));
    case _ =>
  }

  lemma {:induction false} RunIsWellFormed(s: string, ptr: nat, p: P)
    requires ptr <= |s| && SoFar(s, ptr, p) && Run(s, ptr, p).Read?
    ensures WellFormed(Run(s, ptr, p).q)
    decreases |s| - ptr
  {
    if ptr == |s| {
      FinishIsWellFormed(s, p);
    } else {
      if p.st == WaitDelim {
        DelimStepKeeps(s, ptr, p);
      } else {
        OtherStepKeeps(s, ptr, p);
      }
      RunIsWellFormed(s, ptr + 1, Step(s, ptr, p).p);
    }
  }

  lemma ReadIsWellFormed(s: string)
    requires Parse(s).Read?
    ensures WellFormed(Parse(s).q)
  {
    RunIsWellFormed(s, 0, Fresh([]));
  }

  /** Whatever text a query was read from, the text that spells it reads as the same query. */
  lemma PrintingIsFaithful(s: string)
    requires Parse(s).Read?
    ensures Parse(Print(Parse(s).q)) == Parse(s)
  {
    ReadIsWellFormed(s);
    PrintedParsesBack(Parse(s).q);
  }
}
