/** pg_standby: which archived log segments may be removed, and when. */
module Standby {
  import opened Basics

  const XLOG_SEG_SIZE := 16 * 1024 * 1024
  const MAX_SEGS := 0xFFFFFFFF / XLOG_SEG_SIZE
  const NAME_LEN := 24
  const UINT32 := 0x1_0000_0000

  // ----- Hexadecimal names -----

  // The digits of segment names.
  predicate IsHex(c: char) {
    '0' <= c <= '9' || 'A' <= c <= 'F'
  }

  predicate AllHex(s: string) {
    forall i :: 0 <= i < |s| ==> IsHex(s[i])
  }

  // The digits sscanf reads with %X.
  predicate IsXDigit(c: char) {
    IsHex(c) || 'a' <= c <= 'f'
  }

  predicate AllXDigits(s: string) {
    forall i :: 0 <= i < |s| ==> IsXDigit(s[i])
  }

  function HexVal(c: char): (v: nat)
    requires IsXDigit(c)
    ensures v < 16
  {
    if c <= '9' then (c as int - '0' as int) as nat
    else if c <= 'F' then (c as int - 'A' as int + 10) as nat
    else (c as int - 'a' as int + 10) as nat
  }

  function HexDigit(v: nat): (c: char)
    requires v < 16
    ensures IsHex(c) && HexVal(c) == v
  {
    if v < 10 then ('0' as int + v) as char else ('A' as int + v - 10) as char
  }

  function Pow16(n: nat): (p: nat)
    ensures p > 0
  {
    if n == 0 then 1 else 16 * Pow16(n - 1)
  }

  function Num(s: string): nat
    requires AllXDigits(s)
  {
    if s == "" then 0 else HexVal(s[0]) * Pow16(|s| - 1) + Num(s[1..])
  }

  lemma DigitBound(v: nat, p: nat, rest: nat)
    requires rest < p && v < 16
    ensures v * p + rest < (v + 1) * p && (v + 1) * p <= 16 * p
  {
    assert (v + 1) * p == v * p + p;
  }

  lemma {:induction false} NumBound(s: string)
    requires AllXDigits(s)
    ensures Num(s) < Pow16(|s|)
  {
    if s != "" {
      NumBound(s[1..]);
      DigitBound(HexVal(s[0]), Pow16(|s| - 1), Num(s[1..]));
    }
  }

  // What %0wX writes of a number that fits.
  function Hex(n: nat, w: nat): (s: string)
    requires n < Pow16(w)
    ensures |s| == w && AllHex(s)
    decreases w
  {
    if w == 0 then ""
    else
      HexSplit(n, Pow16(w - 1));
      [HexDigit(n / Pow16(w - 1))] + Hex(n % Pow16(w - 1), w - 1)
  }

  lemma HexSplit(n: nat, p: nat)
    requires p > 0 && n < 16 * p
    ensures 0 <= n / p < 16 && 0 <= n % p < p && n == (n / p) * p + n % p
  {
    assert n == (n / p) * p + n % p;
  }

  lemma {:induction false} HexReadsBack(n: nat, w: nat)
    requires n < Pow16(w)
    ensures Num(Hex(n, w)) == n
    decreases w
  {
    if w > 0 {
      var p := Pow16(w - 1);
      HexSplit(n, p);
      HexReadsBack(n % p, w - 1);
      assert Hex(n, w)[1..] == Hex(n % p, w - 1);
    }
  }

  // strcmp on strings without NUL
  function Strcmp(a: string, b: string): int {
    if a == "" || b == "" then |a| - |b|
    else if a[0] != b[0] then a[0] as int - b[0] as int
    else Strcmp(a[1..], b[1..])
  }

  lemma DigitDecides(x: nat, y: nat, p: nat, r: nat, t: nat)
    requires x < y < 16 && r < p && t < p
    ensures x * p + r < y * p + t
  {
    DigitBound(x, p, r);
    assert (y - (x + 1)) * p >= 0;
  }

  /** Names of the same length are ordered like the numbers they spell. */
  lemma {:induction false} NameOrderIsNumeric(a: string, b: string)
    requires |a| == |b| && AllHex(a) && AllHex(b)
    ensures Strcmp(a, b) < 0 <==> Num(a) < Num(b)
    ensures Strcmp(a, b) == 0 <==> Num(a) == Num(b)
  {
    if a != "" {
      var p := Pow16(|a| - 1);
      NumBound(a[1..]);
      NumBound(b[1..]);
      if a[0] == b[0] {
        NameOrderIsNumeric(a[1..], b[1..]);
      } else if a[0] < b[0] {
        DigitDecides(HexVal(a[0]), HexVal(b[0]), p, Num(a[1..]), Num(b[1..]));
      } else {
        DigitDecides(HexVal(b[0]), HexVal(a[0]), p, Num(b[1..]), Num(a[1..]));
      }
    }
  }

  // ----- Segment names -----

  lemma Pow16Of8()
    ensures Pow16(8) == UINT32
  {
    assert Pow16(4) == 0x10000;
    assert Pow16(8) == 0x10000 * Pow16(4);
  }

  // XLogFileName
  function Name(tli: nat, log: nat, seg: nat): (s: string)
    requires tli < UINT32 && log < UINT32 && seg < UINT32
    ensures IsSegment(s)
  {
    Pow16Of8();
    Hex(tli, 8) + Hex(log, 8) + Hex(seg, 8)
  }

  // A directory entry that names a segment.
  predicate IsSegment(s: string) {
    |s| == NAME_LEN && AllHex(s)
  }

  function LogOf(s: string): nat
    requires IsSegment(s)
  {
    Num(s[8..16])
  }

  function SegOf(s: string): nat
    requires IsSegment(s)
  {
    Num(s[16..24])
  }

  // The place of a segment in the log; there are MAX_SEGS of them to a log file.
  function Position(log: nat, seg: nat): nat {
    log * MAX_SEGS + seg
  }

  lemma NameParts(tli: nat, log: nat, seg: nat)
    requires tli < UINT32 && log < UINT32 && seg < UINT32
    ensures Num(Name(tli, log, seg)[..8]) == tli && LogOf(Name(tli, log, seg)) == log && SegOf(Name(tli, log, seg)) == seg
  {
    Pow16Of8();
    HexReadsBack(tli, 8);
    HexReadsBack(log, 8);
    HexReadsBack(seg, 8);
    Thirds(Hex(tli, 8), Hex(log, 8), Hex(seg, 8));
  }

  lemma Thirds(a: string, b: string, c: string)
    requires |a| == |b| == |c| == 8
    ensures (a + b + c)[..8] == a && (a + b + c)[8..16] == b && (a + b + c)[16..24] == c
  {
  }

  lemma Distribute(v: nat, p: nat, q: nat, r: nat)
    ensures (v * p + r) * q == v * (p * q) + r * q
  {
    assert (v * p) * q == v * (p * q);
  }

  lemma {:induction false} NumConcat(a: string, b: string)
    requires AllHex(a) && AllHex(b)
    ensures AllHex(a + b) && Num(a + b) == Num(a) * Pow16(|b|) + Num(b)
  {
    if a == "" {
      assert a + b == b;
    } else {
      assert (a + b)[1..] == a[1..] + b;
      NumConcat(a[1..], b);
      assert (a + b)[0] == a[0];
      JoinDigit(HexVal(a[0]), |a| - 1, |b|, Num(a[1..]));
    }
  }

  lemma JoinDigit(v: nat, m: nat, n: nat, r: nat)
    ensures v * Pow16(m + n) + r * Pow16(n) == (v * Pow16(m) + r) * Pow16(n)
  {
    PowSum(m, n);
    Distribute(v, Pow16(m), Pow16(n), r);
  }

  lemma {:induction false} PowSum(m: nat, n: nat)
    ensures Pow16(m + n) == Pow16(m) * Pow16(n)
  {
    if m > 0 {
      PowSum(m - 1, n);
      Distribute(16, Pow16(m - 1), Pow16(n), 0);
    }
  }

  // The part of a name that tells its place: everything but the timeline.
  lemma TailIs(s: string)
    requires IsSegment(s)
    ensures AllHex(s[8..]) && Num(s[8..]) == LogOf(s) * UINT32 + SegOf(s) && SegOf(s) < UINT32
  {
    assert s[8..] == s[8..16] + s[16..24];
    NumConcat(s[8..16], s[16..24]);
    NumBound(s[16..24]);
    Pow16Of8();
  }

  lemma PairOrder(a: nat, b: nat, c: nat, d: nat, m: nat)
    requires b < m && d < m
    ensures a * m + b < c * m + d <==> a < c || (a == c && b < d)
  {
    if a < c {
      MulGrows(a + 1, c, m);
    } else if a > c {
      MulGrows(c + 1, a, m);
    }
  }

  lemma MulGrows(x: nat, y: nat, m: nat)
    requires x <= y
    ensures x * m <= y * m
  {
    assert (y - x) * m >= 0;
  }

  /** Comparing names without the timeline compares the places in the log. */
  lemma TailOrder(s: string, t: string)
    requires IsSegment(s) && IsSegment(t)
    ensures Strcmp(s[8..], t[8..]) < 0 <==> LogOf(s) < LogOf(t) || (LogOf(s) == LogOf(t) && SegOf(s) < SegOf(t))
    ensures SegOf(s) < MAX_SEGS && SegOf(t) < MAX_SEGS ==>
              (Strcmp(s[8..], t[8..]) < 0 <==> Position(LogOf(s), SegOf(s)) < Position(LogOf(t), SegOf(t)))
  {
    TailIs(s);
    TailIs(t);
    NameOrderIsNumeric(s[8..], t[8..]);
    PairOrder(LogOf(s), SegOf(s), LogOf(t), SegOf(t), UINT32);
    if SegOf(s) < MAX_SEGS && SegOf(t) < MAX_SEGS {
      PairOrder(LogOf(s), SegOf(s), LogOf(t), SegOf(t), MAX_SEGS);
    }
  }

  // ----- sscanf -----

  // How many hexadecimal digits, at most w, stand in s at from.
  function Run(s: string, from: nat, w: nat): (n: nat)
    ensures n <= w && from + n <= |s| + from
    ensures n > 0 ==> from + n <= |s| && AllXDigits(s[from..from + n])
    decreases w
  {
    if w == 0 || from >= |s| || !IsXDigit(s[from]) then 0
    else
      var n := Run(s, from + 1, w - 1);
      assert n > 0 ==> s[from..from + 1 + n] == [s[from]] + s[from + 1..from + 1 + n];
      1 + n
  }

  datatype Scanned = Scanned(tli: nat, log: nat, seg: nat)

  function Field(s: string, from: nat): (r: Option<nat>)
    ensures r.Some? ==> r.value < UINT32
  {
    var n := Run(s, from, 8);
    if n == 0 then None
    else
      EightDigitsFit(s[from..from + n]);
      Some(Num(s[from..from + n]))
  }

  lemma EightDigitsFit(s: string)
    requires AllXDigits(s) && |s| <= 8
    ensures Num(s) < UINT32
  {
    NumBound(s);
    PowGrows(|s|, 8);
    Pow16Of8();
  }

  // What the fields are after the scan; those not reached keep their initial values.
  function Scan(s: string): (r: Scanned)
    ensures r.tli < UINT32 && r.log < UINT32 && r.seg < UINT32
  {
    var a := Run(s, 0, 8);
    var b := a + Run(s, a, 8);
    if Field(s, 0).None? then Scanned(1, 0, 0)
    else if Field(s, a).None? then Scanned(Field(s, 0).value, 0, 0)
    else Scanned(Field(s, 0).value, Field(s, a).value, if Field(s, b).None? then 0 else Field(s, b).value)
  }

  lemma {:induction false} RunIs(s: string, from: nat, w: nat)
    requires from + w <= |s| && forall i :: from <= i < from + w ==> IsXDigit(s[i])
    ensures Run(s, from, w) == w
    decreases w
  {
    if w > 0 {
      RunIs(s, from + 1, w - 1);
    }
  }

  /** The fields of a segment name, with anything after it, are read as they were written. */
  lemma ScanReadsName(tli: nat, log: nat, seg: nat, rest: string)
    requires tli < UINT32 && log < UINT32 && seg < UINT32
    ensures Scan(Name(tli, log, seg) + rest) == Scanned(tli, log, seg)
  {
    NameParts(tli, log, seg);
    ScanSegment(Name(tli, log, seg), rest);
  }

  lemma ScanSegment(name: string, rest: string)
    requires IsSegment(name)
    ensures Scan(name + rest) == Scanned(Num(name[..8]), LogOf(name), SegOf(name))
  {
    var s := name + rest;
    assert forall i :: 0 <= i < 24 ==> s[i] == name[i];
    RunIs(s, 0, 8);
    RunIs(s, 8, 8);
    RunIs(s, 16, 8);
    assert s[0..8] == name[..8] && s[8..16] == name[8..16] && s[16..24] == name[16..24];
  }

  lemma {:induction false} PowGrows(m: nat, n: nat)
    requires m <= n
    ensures Pow16(m) <= Pow16(n)
    decreases n
  {
    if m < n {
      PowGrows(m, n - 1);
    }
  }

  // ----- The cutoff -----

  lemma Borrow(log: nat, seg: nat, keep: nat)
    ensures var ld, sd := keep / MAX_SEGS, keep % MAX_SEGS;
            && sd < MAX_SEGS && keep == ld * MAX_SEGS + sd
            && (log - ld) * MAX_SEGS + (seg - sd) == log * MAX_SEGS + seg - keep
  {
  }

  lemma QuotientDecides(log: nat, seg: nat, ld: nat, sd: nat)
    requires seg < MAX_SEGS && sd < MAX_SEGS
    ensures seg >= sd ==> (ld * MAX_SEGS + sd <= log * MAX_SEGS + seg <==> ld <= log)
    ensures seg < sd ==> (ld * MAX_SEGS + sd <= log * MAX_SEGS + seg <==> ld + 1 <= log)
  {
  }

  /** SetWALFileNameForCleanup. With a restart file the cutoff is that file, unless it is later than the one
      requested. Otherwise it is exactly keepfiles segments before the one requested, if the log goes back
      that far. */
  method SetWALFileNameForCleanup(restart: Option<string>, next: string, keepfiles: nat) returns (cleanup: bool, cutoff: string)
    ensures restart.Some? ==> (cleanup <==> Strcmp(restart.value, next) <= 0) && (cleanup ==> cutoff == restart.value)
    ensures restart.None? && cleanup ==>
              && IsSegment(cutoff) && keepfiles > 0 && Scan(next).tli > 0 && Scan(next).seg > 0
              && Position(LogOf(cutoff), SegOf(cutoff)) + keepfiles == Position(Scan(next).log, Scan(next).seg)
              && (Scan(next).seg < MAX_SEGS ==> SegOf(cutoff) < MAX_SEGS)
    ensures restart.None? && !cleanup && Scan(next).seg < MAX_SEGS ==>
              keepfiles == 0 || Scan(next).tli == 0 || Scan(next).seg == 0 || keepfiles > Position(Scan(next).log, Scan(next).seg)
  {
    if restart.Some? {
      return Strcmp(restart.value, next) <= 0, restart.value;
    }
    cleanup := false;
    var tli, log, seg := 1, 0, 0;
    if keepfiles > 0 {
      var scanned := Scan(next);
      tli, log, seg := scanned.tli, scanned.log, scanned.seg;
      if tli > 0 && seg > 0 {
        cleanup, log, seg := StepBack(log, seg, keepfiles);
      }
    }
    cutoff := Name(tli, log, seg);
    NameParts(tli, log, seg);
  }

  // keep segments back from log and seg, with a borrow from log.
  method StepBack(log: nat, seg: nat, keep: nat) returns (cleanup: bool, log': nat, seg': nat)
    requires log < UINT32 && seg < UINT32
    ensures log' < UINT32 && seg' < UINT32
    ensures cleanup ==> Position(log', seg') + keep == Position(log, seg) && (seg < MAX_SEGS ==> seg' < MAX_SEGS)
    ensures seg < MAX_SEGS ==> (cleanup <==> keep <= Position(log, seg))
  {
    var logDiff, segDiff := keep / MAX_SEGS, keep % MAX_SEGS;
    Borrow(log, seg, keep);
    if seg < MAX_SEGS {
      QuotientDecides(log, seg, logDiff, segDiff);
    }
    if segDiff > seg {
      logDiff := logDiff + 1;
      seg' := MAX_SEGS - (segDiff - seg);
    } else {
      seg' := seg - segDiff;
    }
    if log >= logDiff {
      return true, log - logDiff, seg';
    }
    return false, 0, 0;
  }

  // ----- Cleaning up -----

  // What follows the timeline in a name; the buffer holds NULs after a shorter one.
  function Tail(name: string): string {
    if |name| < 8 then "" else name[8..]
  }

  predicate Removable(name: string, cutoff: string) {
    IsSegment(name) && Strcmp(Tail(name), Tail(cutoff)) < 0
  }

  // The pass over the directory: the entries picked go, until one cannot be removed.
  method Sweep(files: seq<string>, picked: string -> bool, fails: string -> bool)
    returns (left: seq<string>, removed: seq<string>)
    ensures multiset(left) + multiset(removed) == multiset(files)
    ensures forall f :: f in removed ==> picked(f)
    ensures (forall f :: f in files ==> !fails(f)) ==> forall f :: f in left ==> !picked(f)
  {
    left, removed := [], [];
    var i := 0;
    while i < |files|
      invariant 0 <= i <= |files| && multiset(left) + multiset(removed) == multiset(files[..i])
      invariant forall f :: f in removed ==> picked(f)
      invariant forall f :: f in left ==> !picked(f)
    {
      assert files[..i + 1] == files[..i] + [files[i]];
      if picked(files[i]) {
        if fails(files[i]) {
          left := left + files[i..];
          assert files == files[..i] + files[i..];
          return;
        }
        removed := removed + [files[i]];
      } else {
        left := left + [files[i]];
      }
      i := i + 1;
    }
    assert files[..i] == files;
  }

  /** CustomizableCleanupPriorWALFiles: only segments before the cutoff are removed, and all of them unless
      a removal fails. */
  method CleanupPriorWALFiles(files: seq<string>, cutoff: string, isData: bool, fails: string -> bool)
    returns (left: seq<string>, removed: seq<string>)
    ensures multiset(left) + multiset(removed) == multiset(files)
    ensures forall f :: f in removed ==> Removable(f, cutoff)
    ensures !isData ==> removed == []
    ensures isData && (forall f :: f in files ==> !fails(f)) ==> forall f :: f in left ==> !Removable(f, cutoff)
  {
    left, removed := files, [];
    if isData {
      left, removed := Sweep(files, f => Removable(f, cutoff), fails);
    }
  }

  // ----- The main loop -----

  datatype Failover = NoFailover | SmartFailover | FastFailover

  // What CheckForExternalTrigger finds; an unreadable or unknown content changes nothing.
  datatype Trigger = NoTrigger | Smart | Fast

  datatype Ready = NotReady | Data | BackupLabel | TooBig

  // What one round of the loop meets: the trigger file, the signal, the requested file, and the results of
  // the restore command, attempt by attempt.
  datatype Round = Round(trigger: Trigger, signaled: bool, ready: Ready, attempts: seq<bool>)

  datatype Config = Config(sleeptime: nat, maxwaittime: nat, maxretries: nat)

  // The program has slept before round i for longer than it is to wait.
  predicate TimedOut(c: Config, i: nat) {
    c.maxwaittime > 0 && i * c.sleeptime > c.maxwaittime
  }

  // Round i ends the run before the requested file is looked for.  A smart trigger takes back the timeout.
  predicate Urgent(c: Config, r: Round, i: nat) {
    r.signaled || r.trigger == Fast || (r.trigger == NoTrigger && TimedOut(c, i))
  }

  // There is nothing to do in round i but to wait.
  predicate Waits(c: Config, r: Round, i: nat) {
    !Urgent(c, r, i) && r.trigger == NoTrigger && r.ready == NotReady
  }

  // One of the first maxretries + 1 attempts succeeds.
  predicate Restores(c: Config, r: Round) {
    exists n :: 0 <= n <= c.maxretries && n < |r.attempts| && r.attempts[n]
  }

  /** How a run ends.  Every round before the last one waits.  A signal, a fast trigger or the timeout ends it
      with 1, whether the requested file is there or not; otherwise a file that is there is restored, smart
      trigger or not, and only one that cannot be restored gives 1; and a smart trigger ends the run with 1 when
      the file is not there. */
  ghost predicate EndsAsAsked(c: Config, rounds: seq<Round>, code: Option<int>, last: nat) {
    && last <= |rounds|
    && (forall i :: 0 <= i < last ==> Waits(c, rounds[i], i))
    && (last == |rounds| <==> code == None)
    && (last < |rounds| ==>
          var r := rounds[last];
          && (Urgent(c, r, last) ==> code == Some(1))
          && (!Urgent(c, r, last) && r.ready == TooBig ==> code == Some(3))
          && (!Urgent(c, r, last) && (r.ready == Data || r.ready == BackupLabel) ==>
                code == Some(if Restores(c, r) then 0 else 1))
          && (!Urgent(c, r, last) && r.ready == NotReady ==> r.trigger == Smart && code == Some(1)))
  }

  /** RestoreWALFileForRecovery */
  method RestoreWALFileForRecovery(c: Config, r: Round) returns (ok: bool)
    ensures ok <==> Restores(c, r)
  {
    var numretries := 0;
    while numretries <= c.maxretries && numretries < |r.attempts|
      invariant 0 <= numretries <= c.maxretries + 1
      invariant forall n :: 0 <= n < numretries ==> n < |r.attempts| && !r.attempts[n]
    {
      if r.attempts[numretries] {
        return true;
      }
      numretries := numretries + 1;
    }
    return false;
  }

  /** The main loop.  It removes files only when its last round restored the requested segment, and then exactly
      the files before the cutoff unless a removal fails. */
  method MainLoop(c: Config, rounds: seq<Round>, files: seq<string>, needCleanup: bool, cutoff: string, fails: string -> bool)
    returns (code: Option<int>, last: nat, left: seq<string>, removed: seq<string>)
    ensures EndsAsAsked(c, rounds, code, last)
    ensures multiset(left) + multiset(removed) == multiset(files)
    ensures forall f :: f in removed ==> Removable(f, cutoff)
    ensures removed != [] ==> needCleanup && last < |rounds| && rounds[last].ready == Data && code == Some(0)
    ensures code == Some(0) && needCleanup && rounds[last].ready == Data && (forall f :: f in files ==> !fails(f)) ==>
              forall f :: f in left ==> !Removable(f, cutoff)
  {
    left, removed := files, [];
    var failover, waittime := NoFailover, -1;
    last := 0;
    while last < |rounds|
      invariant 0 <= last <= |rounds| && left == files && removed == []
      invariant forall i :: 0 <= i < last ==> Waits(c, rounds[i], i)
      invariant waittime == last * c.sleeptime - 1
      invariant failover == if TimedOut(c, last) then FastFailover else NoFailover
    {
      var r := rounds[last];
      failover := CheckTrigger(failover, r);
      if failover == FastFailover {
        return Some(1), last, left, removed;
      }
      if r.ready == TooBig {
        return Some(3), last, left, removed;
      }
      if r.ready != NotReady {
        var ok := RestoreWALFileForRecovery(c, r);
        if ok {
          if needCleanup {
            left, removed := CleanupPriorWALFiles(files, cutoff, r.ready == Data, fails);
          }
          return Some(0), last, left, removed;
        }
        return Some(1), last, left, removed;
      }
      if failover == SmartFailover {
        return Some(1), last, left, removed;
      }
      assert last * c.sleeptime + c.sleeptime == (last + 1) * c.sleeptime;
      waittime := waittime + c.sleeptime;
      if waittime >= c.maxwaittime && c.maxwaittime > 0 {
        failover := FastFailover;
      }
      last := last + 1;
    }
    code := None;
  }

  /** A segment that is there is restored, whatever smart triggers came, unless a signal, a fast trigger or the
      timeout came first. */
  lemma ReadyIsRestored(c: Config, rounds: seq<Round>, code: Option<int>, last: nat, i: nat)
    requires EndsAsAsked(c, rounds, code, last)
    requires i < |rounds| && rounds[i].ready == Data && Restores(c, rounds[i])
    requires forall k :: 0 <= k <= i ==> !rounds[k].signaled && rounds[k].trigger != Fast && !TimedOut(c, k)
    requires forall k :: 0 <= k < i ==> rounds[k].trigger == NoTrigger && rounds[k].ready == NotReady
    ensures last == i && code == Some(0)
  {
    assert forall k :: 0 <= k < i ==> Waits(c, rounds[k], k);
  }

  /** A run that gives up with the segment there, and one that could be restored, was signaled, had a fast trigger
      or waited too long. */
  lemma GivesUpOnlyWhenUrgent(c: Config, rounds: seq<Round>, code: Option<int>, last: nat)
    requires EndsAsAsked(c, rounds, code, last) && last < |rounds| && code == Some(1)
    requires rounds[last].ready == Data && Restores(c, rounds[last])
    ensures rounds[last].signaled || rounds[last].trigger == Fast || TimedOut(c, last)
  {
  }

  /** A smart trigger ends the run in its own round if not before. */
  lemma SmartEndsRun(c: Config, rounds: seq<Round>, code: Option<int>, last: nat, i: nat)
    requires EndsAsAsked(c, rounds, code, last) && i < |rounds| && rounds[i].trigger == Smart
    ensures last <= i && code.Some?
    ensures last == i && !rounds[i].signaled && rounds[i].ready == NotReady ==> code == Some(1)
  {
    assert i < last ==> Waits(c, rounds[i], i);
  }

  // The trigger file, then the signal.
  method CheckTrigger(failover: Failover, r: Round) returns (failover': Failover)
    ensures failover' == if r.signaled then FastFailover
                         else match r.trigger case NoTrigger => failover case Smart => SmartFailover case Fast => FastFailover
  {
    failover' := failover;
    if r.trigger == Smart {
      failover' := SmartFailover;
    } else if r.trigger == Fast {
      failover' := FastFailover;
    }
    if r.signaled {
      failover' := FastFailover;
    }
  }

  // ----- Retention -----

  /** The segments before the cutoff are those that lie before the requested one by more than the keep
      count. */
  lemma RemovableIffOld(next: string, keepfiles: nat, cutoff: string, f: string)
    requires IsSegment(cutoff) && IsSegment(f)
    requires Position(LogOf(cutoff), SegOf(cutoff)) + keepfiles == Position(Scan(next).log, Scan(next).seg)
    requires SegOf(cutoff) < MAX_SEGS && SegOf(f) < MAX_SEGS
    ensures Removable(f, cutoff) <==> Older(next, keepfiles, f)
  {
    TailOrder(f, cutoff);
  }

  // f lies before the requested segment by more than the keep count.
  predicate Older(next: string, keepfiles: nat, f: string)
    requires IsSegment(f)
  {
    Position(LogOf(f), SegOf(f)) + keepfiles < Position(Scan(next).log, Scan(next).seg)
  }

  // A name as the server writes it: there are MAX_SEGS segments to a log file.
  predicate Regular(f: string) {
    IsSegment(f) && SegOf(f) < MAX_SEGS
  }

  // The program removes files before a place in the log.
  predicate Counts(next: string, keepfiles: nat) {
    && keepfiles > 0 && Scan(next).tli > 0 && 0 < Scan(next).seg < MAX_SEGS
    && keepfiles <= Position(Scan(next).log, Scan(next).seg)
  }

  // What the program ended with: it restored a segment, and every removal it tried succeeded.
  predicate Cleaned(code: Option<int>, ready: Ready, files: seq<string>, fails: string -> bool) {
    code == Some(0) && ready == Data && forall f :: f in files ==> !fails(f)
  }

  /** The whole program.  Nothing is removed unless the requested segment was restored.  With a keep count
      and no restart file a removed segment lies before the requested one by more than the count, and all
      such segments go.  With a restart file that is not later by name, exactly the segments before it go;
      with one that is later, none. */
  method PgStandby(c: Config, restart: Option<string>, next: string, keepfiles: nat, rounds: seq<Round>,
                   files: seq<string>, fails: string -> bool)
    returns (code: Option<int>, last: nat, left: seq<string>, removed: seq<string>)
    ensures multiset(left) + multiset(removed) == multiset(files)
    ensures EndsAsAsked(c, rounds, code, last)
    ensures removed != [] ==> code == Some(0) && rounds[last].ready == Data && Restores(c, rounds[last])
    ensures forall f :: f in removed ==> MayGo(restart, next, keepfiles, f)
    ensures last < |rounds| && Cleaned(code, rounds[last].ready, files, fails) ==>
              forall f :: f in left ==> !MustGo(restart, next, keepfiles, f)
  {
    var needCleanup, cutoff := SetWALFileNameForCleanup(restart, next, keepfiles);
    code, last, left, removed := MainLoop(c, rounds, files, needCleanup, cutoff, fails);
    if restart.None? && needCleanup && Scan(next).seg < MAX_SEGS {
      forall f | Regular(f) ensures Removable(f, cutoff) <==> Older(next, keepfiles, f) {
        RemovableIffOld(next, keepfiles, cutoff, f);
      }
    }
  }

  // Every file a run may remove meets this.
  predicate MayGo(restart: Option<string>, next: string, keepfiles: nat, f: string) {
    && IsSegment(f)
    && if restart.Some? then Strcmp(restart.value, next) <= 0 && Removable(f, restart.value)
       else keepfiles > 0 && (Regular(f) && Scan(next).seg < MAX_SEGS ==> Older(next, keepfiles, f))
  }

  // Every file that meets this goes in a run that cleans up.
  predicate MustGo(restart: Option<string>, next: string, keepfiles: nat, f: string) {
    && IsSegment(f)
    && if restart.Some? then Strcmp(restart.value, next) <= 0 && Removable(f, restart.value)
       else Counts(next, keepfiles) && Regular(f) && Older(next, keepfiles, f)
  }

  // ----- Restart files -----

  // No run with this restart file removes a segment from the requested one on.
  ghost predicate KeepsFrom(restart: string, next: string) {
    forall f, keepfiles :: IsSegment(f) && Strcmp(Tail(f), Tail(next)) >= 0 ==> !MayGo(Some(restart), next, keepfiles, f)
  }

  /** Everything from the requested segment on stays if and only if the restart file is later by name, so
      that nothing is removed at all, or not later in the log.  The check of the code compares names with
      their timelines, the removal compares them without. */
  lemma RestartIsSafeIff(restart: string, next: string)
    requires IsSegment(restart) && IsSegment(next)
    ensures KeepsFrom(restart, next) <==> Strcmp(restart, next) > 0 || Strcmp(Tail(restart), Tail(next)) <= 0
  {
    TailIs(restart);
    TailIs(next);
    NameOrderIsNumeric(next[8..], restart[8..]);
    NameOrderIsNumeric(restart[8..], next[8..]);
    NameOrderIsNumeric(next[8..], next[8..]);
    forall f | IsSegment(f) && Strcmp(Tail(f), Tail(next)) >= 0
      ensures Strcmp(Tail(restart), Tail(next)) <= 0 ==> !Removable(f, restart)
    {
      TailIs(f);
      NameOrderIsNumeric(f[8..], next[8..]);
      NameOrderIsNumeric(f[8..], restart[8..]);
    }
    assert MayGo(Some(restart), next, 0, next) <==> Strcmp(restart, next) <= 0 && Strcmp(Tail(next), Tail(restart)) < 0;
  }

  lemma SplitName(s: string)
    requires IsSegment(s)
    ensures AllHex(s[..8]) && AllHex(s[8..]) && Num(s) == Num(s[..8]) * Pow16(16) + Num(s[8..]) && Num(s[8..]) < Pow16(16)
  {
    assert s == s[..8] + s[8..];
    NumConcat(s[..8], s[8..]);
    NumBound(s[8..]);
  }

  // The order of whole names: the timeline first.
  lemma WholeOrder(s: string, t: string)
    requires IsSegment(s) && IsSegment(t)
    ensures AllHex(s[..8]) && AllHex(t[..8]) && AllHex(s[8..]) && AllHex(t[8..])
    ensures Strcmp(s, t) < 0 <==> Num(s[..8]) < Num(t[..8]) || (Num(s[..8]) == Num(t[..8]) && Num(s[8..]) < Num(t[8..]))
    ensures Strcmp(s, t) == 0 <==> Num(s[..8]) == Num(t[..8]) && Num(s[8..]) == Num(t[8..])
  {
    SplitName(s);
    SplitName(t);
    NameOrderIsNumeric(s, t);
    PairOrder(Num(s[..8]), Num(s[8..]), Num(t[..8]), Num(t[8..]), Pow16(16));
    PairOrder(Num(t[..8]), Num(t[8..]), Num(s[..8]), Num(s[8..]), Pow16(16));
  }

  /** On one timeline the check of the code is enough. */
  lemma SameTimelineIsSafe(restart: string, next: string)
    requires IsSegment(restart) && IsSegment(next) && restart[..8] == next[..8]
    ensures KeepsFrom(restart, next)
  {
    WholeOrder(restart, next);
    NameOrderIsNumeric(restart[8..], next[8..]);
    RestartIsSafeIff(restart, next);
  }

  lemma LosingNames()
    ensures var restart, next := Name(1, 5, 1), Name(2, 3, 1);
            !KeepsFrom(restart, next) && MustGo(Some(restart), next, 0, next)
  {
    var restart, next := Name(1, 5, 1), Name(2, 3, 1);
    NameParts(1, 5, 1);
    NameParts(2, 3, 1);
    WholeOrder(restart, next);
    TailOrder(next, restart);
    NameOrderIsNumeric(next[8..], next[8..]);
    assert MayGo(Some(restart), next, 0, next);
  }

  lemma OneGoes(left: seq<string>, removed: seq<string>, x: string)
    requires multiset(left) + multiset(removed) == multiset([x]) && x !in left
    ensures removed == [x]
  {
    var all := left + removed;
    assert multiset(all) == multiset([x]);
    assert |all| == |multiset(all)| == 1;
    assert all[0] in multiset(all);
    assert left == [] by {
      assert forall y :: y in left ==> y in multiset(all);
    }
  }

  /** A restart file of an earlier timeline that lies later in the log passes the check, and a run that
      restores the requested segment removes it from the archive. */
  method RestartLosesRequested() returns (removed: seq<string>)
    ensures !KeepsFrom(Name(1, 5, 1), Name(2, 3, 1)) && removed == [Name(2, 3, 1)]
  {
    LosingNames();
    var restart, next := Name(1, 5, 1), Name(2, 3, 1);
    removed := RestoreOnce(restart, next);
  }

  // A run that finds the requested segment at once, alone in the archive.
  method RestoreOnce(restart: string, next: string) returns (removed: seq<string>)
    requires MustGo(Some(restart), next, 0, next)
    ensures removed == [next]
  {
    var rounds := [Round(NoTrigger, false, Data, [true])];
    var c := Config(5, 0, 3);
    assert rounds[0].attempts[0];
    assert Restores(c, rounds[0]);
    var code, last, left;
    code, last, left, removed := PgStandby(c, Some(restart), next, 0, rounds, [next], f => false);
    OneGoes(left, removed, next);
  }
}
