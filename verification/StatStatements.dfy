/** pg_stat_statements: a bounded table of per-statement counters in shared memory, updated by any
    number of processes under one read/write lock and one spinlock per entry.  The protocol is a
    state machine whose steps are the atomic actions of the processes; a run interleaves them in
    any order. */
module StatStatements {
  import opened Basics

  type Pid = nat
  type Addr = nat

  datatype Key = Key(userid: nat, dbid: nat, encoding: int, query: string)

  // The counters of an entry in the order in which pgss_store adds to them: calls, total_time, rows,
  // usage.
  type Counters = c: seq<real> | |c| == 4 witness [0.0, 0.0, 0.0, 0.0]

  const ZERO: Counters := [0.0, 0.0, 0.0, 0.0]
  const FIELDS := 4
  const USAGE := 3
  const USAGE_INIT := 1.0
  const USAGE_EXEC := 1.0
  const USAGE_DECREASE_FACTOR := 0.99
  const USAGE_DEALLOC_PERCENT := 5

  // An entry remembers its own key.  Freed memory keeps its contents until it is reused.
  datatype Entry = Entry(key: Key, counters: Counters, mutex: Option<Pid>)

  // The light-weight lock: any number of shared holders or one exclusive holder.
  datatype Lock = Lock(shared: set<Pid>, exclusive: Option<Pid>)

  // What a process is doing.  delta is what the finished statement adds to its counters.
  datatype Proc =
    | Idle
    | Lookup(key: Key, delta: Counters)                      // shared lock held
    | Missed(key: Key, delta: Counters)                      // lock released, wants it exclusively
    | Alloc(key: Key, delta: Counters)                       // exclusive lock held
    | Have(key: Key, delta: Counters, addr: Addr)            // lock held in some mode
    | Bump(key: Key, delta: Counters, addr: Addr, field: nat, loaded: Option<real>)  // spinlock held
    | Stored                                                 // spinlock released, lock held
    | Resetting                                              // exclusive lock held
    | Scan                                                   // reader, shared lock held
    | Copying(key: Key, addr: Addr, copied: Option<Counters>)  // reader, spinlock held
  {
    predicate HoldsLock() {
      !Idle? && !Missed?
    }
    predicate HoldsSpin(a: Addr) {
      (Bump? || Copying?) && addr == a
    }
  }

  // completed and dropped are history: what finished updates added to a key, and what was thrown
  // away with its evicted or reset entries.
  datatype State = State(
    index: map<Key, Addr>, mem: map<Addr, Entry>, lock: Lock, procs: map<Pid, Proc>,
    completed: map<Key, Counters>, dropped: map<Key, Counters>)

  function At(s: State, p: Pid): (q: Proc) {
    if p in s.procs then s.procs[p] else Idle
  }

  function Sum(m: map<Key, Counters>, k: Key): (c: Counters) {
    if k in m then m[k] else ZERO
  }

  function Add(c: Counters, d: Counters): (r: Counters) {
    [c[0] + d[0], c[1] + d[1], c[2] + d[2], c[3] + d[3]]
  }

  // ----- Eviction -----

  function Max(a: int, b: int): (m: int) { if a < b then b else a }
  function Min(a: int, b: int): (m: int) { if a < b then a else b }

  // At least ten entries go, if there are as many, and one in twenty.
  function Victims(n: nat): (v: nat)
    ensures v == if n < 10 then n else if n < 200 then 10 else n / 20
  {
    FivePercent(n);
    Min(Max(10, n * USAGE_DEALLOC_PERCENT / 100), n)
  }

  lemma FivePercent(n: nat)
    ensures n * USAGE_DEALLOC_PERCENT / 100 == n / 20
  {
    assert n == 20 * (n / 20) + n % 20;
  }

  predicate Indexed(index: map<Key, Addr>, mem: map<Addr, Entry>) {
    forall k :: k in index ==> index[k] in mem && mem[index[k]].key == k
  }

  predicate Live(index: map<Key, Addr>, mem: map<Addr, Entry>, a: Addr) {
    a in mem && mem[a].key in index && index[mem[a].key] == a
  }

  // Every live entry loses one percent of its usage.
  function Decayed(index: map<Key, Addr>, mem: map<Addr, Entry>): (m: map<Addr, Entry>) {
    map a | a in mem ::
      if Live(index, mem, a)
      then mem[a].(counters := mem[a].counters[USAGE := mem[a].counters[USAGE] * USAGE_DECREASE_FACTOR])
      else mem[a]
  }

  function Usage(index: map<Key, Addr>, mem: map<Addr, Entry>, k: Key): (u: real)
    requires Indexed(index, mem) && k in index
  {
    mem[index[k]].counters[USAGE]
  }

  // vs may be evicted: as many as the source takes, and nobody who stays is used less.
  ghost predicate LeastUsed(index: map<Key, Addr>, mem: map<Addr, Entry>, vs: set<Key>)
    requires Indexed(index, mem)
  {
    && vs <= index.Keys
    && |vs| == Victims(|index|)
    && forall v, w :: v in vs && w in index && w !in vs ==> Usage(index, mem, v) <= Usage(index, mem, w)
  }

  // entries lists every key of the table once, in increasing order of usage.
  ghost predicate SortedByUsage(index: map<Key, Addr>, mem: map<Addr, Entry>, entries: seq<Key>)
    requires Indexed(index, mem)
  {
    && |entries| == |index|
    && (forall k :: k in entries <==> k in index)
    && (forall i, j :: 0 <= i < j < |entries| ==> entries[i] != entries[j])
    && (forall i, j :: 0 <= i < j < |entries| ==> Usage(index, mem, entries[i]) <= Usage(index, mem, entries[j]))
  }

  // The loop of entry_dealloc over the first n of the sorted entries.
  method RemoveFirst(index: map<Key, Addr>, entries: seq<Key>, n: nat) returns (index': map<Key, Addr>)
    requires n <= |entries|
    ensures index' == index - Prefix(entries, n)
  {
    var i := 0;
    index' := index;
    while i < n
      invariant 0 <= i <= n
      invariant index' == index - Prefix(entries, i)
    {
      PrefixStep(index, entries, i);
      index' := index' - {entries[i]};
      i := i + 1;
    }
  }

  /** entry_dealloc.  entries is the list of the live entries as hash_seq_search returned them and
      qsort left them. */
  method EntryDealloc(index: map<Key, Addr>, mem: map<Addr, Entry>, entries: seq<Key>)
    returns (index': map<Key, Addr>, mem': map<Addr, Entry>, ghost vs: set<Key>)
    requires Indexed(index, mem)
    requires SortedByUsage(index, Decayed(index, mem), entries)
    ensures mem' == Decayed(index, mem) && LeastUsed(index, mem', vs)
    ensures index' == index - vs
    ensures |index'| == |index| - Victims(|index|)
  {
    var i := |entries|;
    var nvictims := Max(10, i * USAGE_DEALLOC_PERCENT / 100);
    nvictims := Min(nvictims, i);
    index' := RemoveFirst(index, entries, nvictims);
    mem' := Decayed(index, mem);
    vs := Prefix(entries, nvictims);
    PrefixIsLeastUsed(index, mem', entries, nvictims);
    RemovedKeys(index, vs);
  }

  ghost function Prefix(entries: seq<Key>, n: nat): (ks: set<Key>)
    requires n <= |entries|
  {
    set j | 0 <= j < n :: entries[j]
  }

  lemma PrefixStep(index: map<Key, Addr>, entries: seq<Key>, n: nat)
    requires n < |entries|
    ensures Prefix(entries, n + 1) == Prefix(entries, n) + {entries[n]}
    ensures index - Prefix(entries, n) - {entries[n]} == index - Prefix(entries, n + 1)
  {
    assert Prefix(entries, n + 1) == Prefix(entries, n) + {entries[n]};
  }

  lemma {:induction false} PrefixSize(entries: seq<Key>, n: nat)
    requires n <= |entries|
    requires forall i, j :: 0 <= i < j < |entries| ==> entries[i] != entries[j]
    ensures |Prefix(entries, n)| == n
  {
    if n > 0 {
      PrefixSize(entries, n - 1);
      assert Prefix(entries, n) == Prefix(entries, n - 1) + {entries[n - 1]};
    }
  }

  lemma PrefixIsLeastUsed(index: map<Key, Addr>, mem: map<Addr, Entry>, entries: seq<Key>, n: nat)
    requires Indexed(index, mem) && SortedByUsage(index, mem, entries)
    requires n == Victims(|index|)
    ensures LeastUsed(index, mem, Prefix(entries, n))
  {
    var vs := Prefix(entries, n);
    PrefixSize(entries, n);
    forall v, w | v in vs && w in index && w !in vs
      ensures Usage(index, mem, v) <= Usage(index, mem, w)
    {
      var a :| 0 <= a < n && entries[a] == v;
      var b :| 0 <= b < |entries| && entries[b] == w;
    }
  }

  lemma RemovedKeys(index: map<Key, Addr>, vs: set<Key>)
    requires vs <= index.Keys
    ensures |index - vs| == |index| - |vs|
  {
    assert (index - vs).Keys == index.Keys - vs;
  }

  // ----- Steps -----

  // Steps that move a process or the lock.
  datatype LockStep =
    | Begin(key: Key, time: real, rows: nat)   // pgss_store: take the lock shared
    | Find                                     // look the key up; on a miss release the lock
    | AcquireExclusive
    | Release
    | BeginReset
    | BeginScan                                // pg_stat_statements: read all entries
    | EndScan

  // Steps that touch one entry's mutex or counters.
  datatype EntryStep =
    | Spin
    | Load                                     // each += is a load and a store
    | Store
    | Unspin
    | ScanSpin(key: Key)
    | Copy
    | ScanUnspin

  // Steps that change the set of entries, under the exclusive lock.
  datatype TableStep =
    | Dealloc(vs: set<Key>)                    // entry_alloc: one entry_dealloc while full
    | EntryEnter(addr: Addr)                   // entry_alloc: find or create the entry
    | Reset

  datatype Step =
    | OnLock(p: Pid, lock: LockStep)
    | OnEntry(p: Pid, entry: EntryStep)
    | OnTable(p: Pid, table: TableStep)

  predicate Free(l: Lock) {
    l.shared == {} && l.exclusive.None?
  }

  function Put(s: State, p: Pid, q: Proc): (s': State) {
    s.(procs := s.procs[p := q])
  }

  function TakeShared(s: State, p: Pid): (s': State) {
    s.(lock := s.lock.(shared := s.lock.shared + {p}))
  }

  function TakeExclusive(s: State, p: Pid): (s': State) {
    s.(lock := Lock({}, Some(p)))
  }

  function Drop(s: State, p: Pid): (s': State) {
    s.(lock := Lock(s.lock.shared - {p}, if s.lock.exclusive == Some(p) then None else s.lock.exclusive))
  }

  function SetMutex(s: State, a: Addr, m: Option<Pid>): (s': State)
    requires a in s.mem
  {
    s.(mem := s.mem[a := s.mem[a].(mutex := m)])
  }

  // Throw away the entries of vs, remembering what they had counted.
  function Forget(s: State, vs: set<Key>): (s': State)
    requires Indexed(s.index, s.mem) && vs <= s.index.Keys
  {
    s.(index := s.index - vs,
       dropped := map k | k in s.dropped.Keys + vs ::
         if k in vs then Add(Sum(s.dropped, k), s.mem[s.index[k]].counters) else Sum(s.dropped, k))
  }

  function Evict(s: State, vs: set<Key>): (s': State)
    requires Indexed(s.index, s.mem) && vs <= s.index.Keys
  {
    Forget(s, vs).(mem := Decayed(s.index, s.mem))
  }

  // Find or create the entry of key; a new one gets memory no live entry uses.
  function Enter(s: State, key: Key, addr: Addr): (s': State) {
    if key in s.index then s
    else s.(index := s.index[key := addr], mem := s.mem[addr := Entry(key, ZERO[USAGE := USAGE_INIT], None)])
  }

  predicate LockEnabled(s: State, p: Pid, t: LockStep) {
    var q := At(s, p);
    match t
    case Begin(_, _, _) => q.Idle? && s.lock.exclusive.None?
    case Find => q.Lookup?
    case AcquireExclusive => q.Missed? && Free(s.lock)
    case Release => q.Stored?
    case BeginReset => q.Idle? && Free(s.lock)
    case BeginScan => q.Idle? && s.lock.exclusive.None?
    case EndScan => q.Scan?
  }

  function AfterLock(s: State, p: Pid, t: LockStep): (s': State)
    requires LockEnabled(s, p, t)
  {
    var q := At(s, p);
    match t
    case Begin(k, time, rows) => TakeShared(Put(s, p, Lookup(k, [1.0, time, rows as real, USAGE_EXEC])), p)
    case Find =>
      if q.key in s.index then Put(s, p, Have(q.key, q.delta, s.index[q.key]))
      else Drop(Put(s, p, Missed(q.key, q.delta)), p)
    case AcquireExclusive => TakeExclusive(Put(s, p, Alloc(q.key, q.delta)), p)
    case Release => Drop(Put(s, p, Idle), p)
    case BeginReset => TakeExclusive(Put(s, p, Resetting), p)
    case BeginScan => TakeShared(Put(s, p, Scan), p)
    case EndScan => Drop(Put(s, p, Idle), p)
  }

  predicate EntryEnabled(s: State, p: Pid, t: EntryStep) {
    var q := At(s, p);
    match t
    case Spin => q.Have? && q.addr in s.mem && s.mem[q.addr].mutex.None?
    case Load => q.Bump? && q.loaded.None? && q.field < FIELDS && q.addr in s.mem
    case Store => q.Bump? && q.loaded.Some? && q.field < FIELDS && q.addr in s.mem
    case Unspin => q.Bump? && q.field == FIELDS && q.addr in s.mem
    case ScanSpin(k) => q.Scan? && k in s.index && s.index[k] in s.mem && s.mem[s.index[k]].mutex.None?
    case Copy => q.Copying? && q.copied.None? && q.addr in s.mem
    case ScanUnspin => q.Copying? && q.copied.Some? && q.addr in s.mem
  }

  function AfterEntry(s: State, p: Pid, t: EntryStep): (s': State)
    requires EntryEnabled(s, p, t)
  {
    var q := At(s, p);
    match t
    case Spin => Put(SetMutex(s, q.addr, Some(p)), p, Bump(q.key, q.delta, q.addr, 0, None))
    case Load => Put(s, p, q.(loaded := Some(s.mem[q.addr].counters[q.field])))
    case Store =>
      var e := s.mem[q.addr];
      var e' := e.(counters := e.counters[q.field := q.loaded.value + q.delta[q.field]]);
      Put(s.(mem := s.mem[q.addr := e']), p, q.(field := q.field + 1, loaded := None))
    case Unspin =>
      Put(SetMutex(s, q.addr, None), p, Stored)
        .(completed := s.completed[q.key := Add(Sum(s.completed, q.key), q.delta)])
    case ScanSpin(k) => Put(SetMutex(s, s.index[k], Some(p)), p, Copying(k, s.index[k], None))
    case Copy => Put(s, p, q.(copied := Some(s.mem[q.addr].counters)))
    case ScanUnspin => Put(SetMutex(s, q.addr, None), p, Scan)
  }

  ghost predicate TableEnabled(s: State, p: Pid, t: TableStep, max: nat) {
    var q := At(s, p);
    match t
    case Dealloc(vs) =>
      q.Alloc? && |s.index| >= max && Indexed(s.index, s.mem) && LeastUsed(s.index, Decayed(s.index, s.mem), vs)
    case EntryEnter(addr) => q.Alloc? && |s.index| < max && !Live(s.index, s.mem, addr)
    case Reset => q.Resetting? && Indexed(s.index, s.mem)
  }

  ghost function AfterTable(s: State, p: Pid, t: TableStep, max: nat): (s': State)
    requires TableEnabled(s, p, t, max)
  {
    var q := At(s, p);
    match t
    case Dealloc(vs) => Evict(s, vs)
    case EntryEnter(addr) =>
      var e := Enter(s, q.key, addr);
      Put(e, p, Have(q.key, q.delta, e.index[q.key]))
    case Reset => Drop(Put(Forget(s, s.index.Keys), p, Idle), p)
  }

  ghost predicate Enabled(s: State, t: Step, max: nat) {
    match t
    case OnLock(p, l) => LockEnabled(s, p, l)
    case OnEntry(p, e) => EntryEnabled(s, p, e)
    case OnTable(p, b) => TableEnabled(s, p, b, max)
  }

  ghost function Apply(s: State, t: Step, max: nat): (s': State)
    requires Enabled(s, t, max)
  {
    match t
    case OnLock(p, l) => AfterLock(s, p, l)
    case OnEntry(p, e) => AfterEntry(s, p, e)
    case OnTable(p, b) => AfterTable(s, p, b, max)
  }

  // ----- What every reachable state satisfies -----

  ghost predicate ProcOk(s: State, p: Pid) {
    var q := At(s, p);
    && (q.HoldsLock() <==> p in s.lock.shared || s.lock.exclusive == Some(p))
    && (q.Alloc? || q.Resetting? ==> s.lock.exclusive == Some(p))
    // An entry pointer is the table's current entry for the key it was looked up with.
    && (q.Have? || q.Bump? || q.Copying? ==>
          q.key in s.index && s.index[q.key] == q.addr && q.addr in s.mem && s.mem[q.addr].key == q.key)
    // Under the spinlock a loaded value is still current, and so is a copy.
    && (q.Bump? ==> q.field <= FIELDS)
    && (q.Bump? && q.loaded.Some? ==> q.field < FIELDS && q.loaded.value == s.mem[q.addr].counters[q.field])
    && (q.Copying? && q.copied.Some? ==> q.copied.value == s.mem[q.addr].counters)
  }

  ghost predicate SpinOk(s: State, p: Pid, a: Addr) {
    a in s.mem ==> (s.mem[a].mutex == Some(p) <==> At(s, p).HoldsSpin(a))
  }

  function Shown(s: State, k: Key): (c: Counters) {
    if k in s.index && s.index[k] in s.mem then s.mem[s.index[k]].counters else ZERO
  }

  // What an update under way has already added to counter i of key k.
  function Pending(s: State, k: Key, i: nat): (r: real)
    requires i < FIELDS
  {
    if k in s.index && s.index[k] in s.mem && s.mem[s.index[k]].mutex.Some? then
      var q := At(s, s.mem[s.index[k]].mutex.value);
      if q.Bump? && i < q.field then q.delta[i] else 0.0
    else 0.0
  }

  // Counter i of statement k: nothing is lost and nothing is counted for another statement.
  ghost predicate Balanced(s: State, k: Key, i: nat)
    requires i < FIELDS
  {
    Shown(s, k)[i] + Sum(s.dropped, k)[i] == Sum(s.completed, k)[i] + Pending(s, k, i)
  }

  ghost predicate Inv(s: State, max: nat) {
    && (s.lock.exclusive.Some? ==> s.lock.shared == {})
    && Indexed(s.index, s.mem) && |s.index| <= max
    && (forall p: Pid :: ProcOk(s, p))
    && (forall p: Pid, a: Addr :: SpinOk(s, p, a))
    && (forall k: Key, i: nat :: i < USAGE ==> Balanced(s, k, i))
  }

  lemma LockStepProc(s: State, p: Pid, t: LockStep, o: Pid)
    requires LockEnabled(s, p, t)
    requires s.lock.exclusive.Some? ==> s.lock.shared == {}
    requires ProcOk(s, o) && ProcOk(s, p) && Indexed(s.index, s.mem)
    ensures ProcOk(AfterLock(s, p, t), o)
  {
    if o != p {
      assert At(AfterLock(s, p, t), o) == At(s, o);
    }
  }

  // A step on the lock leaves the memory and the books alone, and its process is inside no entry.
  lemma LockStepSpin(s: State, p: Pid, t: LockStep, o: Pid, a: Addr)
    requires LockEnabled(s, p, t) && SpinOk(s, o, a)
    ensures SpinOk(AfterLock(s, p, t), o, a)
  {
  }

  lemma LockStepBalance(s: State, p: Pid, t: LockStep, k: Key, i: nat)
    requires LockEnabled(s, p, t) && i < USAGE && Balanced(s, k, i)
    requires k in s.index ==> SpinOk(s, p, s.index[k])
    ensures Balanced(AfterLock(s, p, t), k, i)
  {
  }

  // A process inside an entry keeps its own place, since nobody else is inside that entry.
  lemma EntryStepOther(s: State, p: Pid, t: EntryStep, o: Pid)
    requires EntryEnabled(s, p, t) && Indexed(s.index, s.mem) && o != p
    requires ProcOk(s, o) && ProcOk(s, p)
    requires var q := At(s, p); q.Bump? || q.Copying? ==> SpinOk(s, o, q.addr) && SpinOk(s, p, q.addr)
    ensures ProcOk(AfterEntry(s, p, t), o)
  {
    assert At(AfterEntry(s, p, t), o) == At(s, o);
  }

  lemma EntryStepProc(s: State, p: Pid, t: EntryStep, o: Pid)
    requires EntryEnabled(s, p, t) && Indexed(s.index, s.mem)
    requires ProcOk(s, o) && ProcOk(s, p)
    requires var q := At(s, p); q.Bump? || q.Copying? ==> SpinOk(s, o, q.addr) && SpinOk(s, p, q.addr)
    ensures ProcOk(AfterEntry(s, p, t), o)
  {
    if o != p {
      EntryStepOther(s, p, t, o);
    }
  }

  lemma EntryStepSpin(s: State, p: Pid, t: EntryStep, o: Pid, a: Addr)
    requires EntryEnabled(s, p, t) && ProcOk(s, p) && SpinOk(s, o, a) && SpinOk(s, p, a)
    ensures SpinOk(AfterEntry(s, p, t), o, a)
  {
  }

  lemma LockStepKeepsInv(s: State, p: Pid, t: LockStep, max: nat)
    requires Inv(s, max) && LockEnabled(s, p, t)
    ensures Inv(AfterLock(s, p, t), max)
  {
    var s' := AfterLock(s, p, t);
    assert ProcOk(s, p);
    forall o: Pid ensures ProcOk(s', o) {
      assert ProcOk(s, o);
      LockStepProc(s, p, t, o);
    }
    forall o: Pid, a: Addr ensures SpinOk(s', o, a) {
      assert SpinOk(s, o, a);
      LockStepSpin(s, p, t, o, a);
    }
    forall k: Key, i: nat | i < USAGE ensures Balanced(s', k, i) {
      assert Balanced(s, k, i);
      assert k in s.index ==> SpinOk(s, p, s.index[k]);
      LockStepBalance(s, p, t, k, i);
    }
  }

  lemma EntryStepBalance(s: State, p: Pid, t: EntryStep, k: Key, i: nat)
    requires EntryEnabled(s, p, t) && i < USAGE
    requires Indexed(s.index, s.mem) && ProcOk(s, p) && Balanced(s, k, i)
    requires k in s.index ==> SpinOk(s, p, s.index[k])
    ensures Balanced(AfterEntry(s, p, t), k, i)
  {
  }

  lemma EntryStepKeepsInv(s: State, p: Pid, t: EntryStep, max: nat)
    requires Inv(s, max) && EntryEnabled(s, p, t)
    ensures Inv(AfterEntry(s, p, t), max)
  {
    var s' := AfterEntry(s, p, t);
    assert ProcOk(s, p);
    forall o: Pid ensures ProcOk(s', o) {
      var q := At(s, p);
      assert ProcOk(s, o);
      assert q.Bump? || q.Copying? ==> SpinOk(s, o, q.addr) && SpinOk(s, p, q.addr);
      EntryStepProc(s, p, t, o);
    }
    forall o: Pid, a: Addr ensures SpinOk(s', o, a) {
      assert SpinOk(s, o, a) && SpinOk(s, p, a);
      EntryStepSpin(s, p, t, o, a);
    }
    forall k: Key, i: nat | i < USAGE ensures Balanced(s', k, i) {
      assert Balanced(s, k, i);
      assert k in s.index ==> SpinOk(s, p, s.index[k]);
      EntryStepBalance(s, p, t, k, i);
    }
  }

  // ----- The steps under the exclusive lock -----

  ghost predicate Settled(s: State, k: Key, i: nat)
    requires i < FIELDS
  {
    Shown(s, k)[i] + Sum(s.dropped, k)[i] == Sum(s.completed, k)[i]
  }

  // Nobody is inside an entry, and every key's account is settled.
  ghost predicate Quiet(s: State) {
    && Indexed(s.index, s.mem)
    && (forall a :: a in s.mem ==> s.mem[a].mutex.None?)
    && (forall k: Key, i: nat :: i < USAGE ==> Settled(s, k, i))
  }

  // Everyone but the holder of the exclusive lock is outside the protected region.
  ghost predicate Alone(s: State, p: Pid) {
    forall q: Pid :: q != p ==> At(s, q).Idle? || At(s, q).Missed?
  }

  lemma ExclusiveMeansQuiet(s: State, p: Pid, max: nat)
    requires Inv(s, max) && (At(s, p).Alloc? || At(s, p).Resetting?)
    ensures s.lock == Lock({}, Some(p)) && Alone(s, p) && Quiet(s)
  {
    assert ProcOk(s, p);
    forall q: Pid | q != p ensures At(s, q).Idle? || At(s, q).Missed? {
      assert ProcOk(s, q);
    }
    forall a | a in s.mem ensures s.mem[a].mutex.None? {
      var m := s.mem[a].mutex;
      assert m.Some? ==> SpinOk(s, m.value, a);
    }
    forall k: Key, i: nat | i < USAGE ensures Settled(s, k, i) {
      assert Balanced(s, k, i);
    }
  }

  lemma QuietMeansInv(s: State, p: Pid, max: nat)
    requires Quiet(s) && Alone(s, p) && |s.index| <= max
    requires ProcOk(s, p) && !At(s, p).Bump? && !At(s, p).Copying?
    requires s.lock == Lock({}, Some(p)) || Free(s.lock)
    ensures Inv(s, max)
  {
    forall q: Pid ensures ProcOk(s, q) {
    }
    forall k: Key, i: nat | i < USAGE ensures Balanced(s, k, i) {
      assert Settled(s, k, i);
    }
  }

  lemma ForgetKeepsQuiet(s: State, vs: set<Key>)
    requires Quiet(s) && vs <= s.index.Keys
    ensures Quiet(Forget(s, vs))
  {
    var s' := Forget(s, vs);
    forall k: Key, i: nat | i < USAGE ensures Settled(s', k, i) {
      assert Settled(s, k, i);
    }
  }

  lemma DecayKeepsQuiet(s: State, index: map<Key, Addr>)
    requires Quiet(s)
    ensures Quiet(s.(mem := Decayed(index, s.mem)))
  {
    var s' := s.(mem := Decayed(index, s.mem));
    forall k: Key, i: nat | i < USAGE ensures Settled(s', k, i) {
      assert Settled(s, k, i);
    }
  }

  lemma EnterKeepsQuiet(s: State, key: Key, addr: Addr)
    requires Quiet(s) && !Live(s.index, s.mem, addr)
    ensures Quiet(Enter(s, key, addr))
  {
    var s' := Enter(s, key, addr);
    forall k: Key, i: nat | i < USAGE ensures Settled(s', k, i) {
      assert Settled(s, k, i);
    }
  }

  lemma TableStepKeepsInv(s: State, p: Pid, t: TableStep, max: nat)
    requires Inv(s, max) && TableEnabled(s, p, t, max)
    ensures Inv(AfterTable(s, p, t, max), max)
  {
    ExclusiveMeansQuiet(s, p, max);
    match t {
      case Dealloc(vs) => QuietDealloc(s, p, vs, max);
      case EntryEnter(addr) => QuietEnter(s, p, addr, max);
      case Reset => QuietReset(s, p, max);
    }
  }

  lemma QuietDealloc(s: State, p: Pid, vs: set<Key>, max: nat)
    requires Quiet(s) && Alone(s, p) && s.lock == Lock({}, Some(p)) && At(s, p).Alloc?
    requires |s.index| <= max && vs <= s.index.Keys
    ensures Inv(Evict(s, vs), max)
  {
    var e := Evict(s, vs);
    ForgetKeepsQuiet(s, vs);
    DecayKeepsQuiet(Forget(s, vs), s.index);
    RemovedKeys(s.index, vs);
    assert forall q: Pid :: At(e, q) == At(s, q);
    QuietMeansInv(e, p, max);
  }

  lemma QuietEnter(s: State, p: Pid, addr: Addr, max: nat)
    requires Quiet(s) && Alone(s, p) && s.lock == Lock({}, Some(p)) && TableEnabled(s, p, EntryEnter(addr), max)
    ensures Inv(AfterTable(s, p, EntryEnter(addr), max), max)
  {
    EnterKeepsQuiet(s, At(s, p).key, addr);
    MovedKeepsInv(s, Enter(s, At(s, p).key, addr), AfterTable(s, p, EntryEnter(addr), max), p, max);
  }

  lemma QuietReset(s: State, p: Pid, max: nat)
    requires Quiet(s) && Alone(s, p) && s.lock == Lock({}, Some(p)) && At(s, p).Resetting?
    ensures Inv(AfterTable(s, p, Reset, max), max)
  {
    ForgetKeepsQuiet(s, s.index.Keys);
    MovedKeepsInv(s, Forget(s, s.index.Keys), AfterTable(s, p, Reset, max), p, max);
  }

  // From s the lone process p has turned the books into those of e, and has then moved on.
  lemma MovedKeepsInv(s: State, e: State, s': State, p: Pid, max: nat)
    requires Alone(s, p) && Quiet(e) && |e.index| <= max
    requires s' == e.(procs := s.procs[p := At(s', p)], lock := s'.lock)
    requires s'.lock == Lock({}, Some(p)) || Free(s'.lock)
    requires ProcOk(s', p) && !At(s', p).Bump? && !At(s', p).Copying?
    ensures Inv(s', max)
  {
    assert forall q: Pid :: q != p ==> At(s', q) == At(s, q);
    forall k: Key, i: nat | i < USAGE ensures Settled(s', k, i) {
      assert Settled(e, k, i) && Shown(s', k) == Shown(e, k);
    }
    QuietMeansInv(s', p, max);
  }

  // ----- Runs -----

  ghost predicate Initial(s: State) {
    s == State(map[], map[], Lock({}, None), map[], map[], map[])
  }

  lemma InitialInv(s: State, max: nat)
    requires Initial(s)
    ensures Inv(s, max)
  {
    assert forall p: Pid :: ProcOk(s, p);
  }

  // The state after taking the steps in order; each must be enabled when it is taken.
  ghost predicate Reaches(s: State, steps: seq<Step>, s': State, max: nat)
    decreases |steps|
  {
    if steps == [] then s' == s
    else Enabled(s, steps[0], max) && Reaches(Apply(s, steps[0], max), steps[1..], s', max)
  }

  lemma {:induction false} RunKeepsInv(s: State, steps: seq<Step>, s': State, max: nat)
    requires Inv(s, max) && Reaches(s, steps, s', max)
    ensures Inv(s', max)
    decreases |steps|
  {
    if steps != [] {
      match steps[0] {
        case OnLock(p, l) => LockStepKeepsInv(s, p, l, max);
        case OnEntry(p, e) => EntryStepKeepsInv(s, p, e, max);
        case OnTable(p, b) => TableStepKeepsInv(s, p, b, max);
      }
      RunKeepsInv(Apply(s, steps[0], max), steps[1..], s', max);
    }
  }

  // A process that is about to touch an entry has the table's own entry for its statement.
  ghost predicate PointsToOwnEntry(s: State, p: Pid) {
    var q := At(s, p);
    q.Have? || q.Bump? || q.Copying? ==>
      q.key in s.index && s.index[q.key] == q.addr && q.addr in s.mem && s.mem[q.addr].key == q.key
  }

  // Nobody else is inside the entry p is inside of.
  ghost predicate AloneInEntry(s: State, p: Pid) {
    forall q: Pid, a: Addr :: At(s, p).HoldsSpin(a) && At(s, q).HoldsSpin(a) ==> q == p
  }

  // A reader's finished copy is a settled account: it never sees half an update.
  ghost predicate ReadsSettledAccount(s: State, p: Pid) {
    var q := At(s, p);
    q.Copying? && q.copied.Some? ==>
      forall i :: 0 <= i < USAGE ==> q.copied.value[i] + Sum(s.dropped, q.key)[i] == Sum(s.completed, q.key)[i]
  }

  lemma InvMeansSafe(s: State, max: nat, p: Pid)
    requires Inv(s, max)
    ensures PointsToOwnEntry(s, p) && AloneInEntry(s, p) && ReadsSettledAccount(s, p)
  {
    assert ProcOk(s, p);
    forall q: Pid, a: Addr | At(s, p).HoldsSpin(a) && At(s, q).HoldsSpin(a) ensures q == p {
      assert SpinOk(s, p, a) && SpinOk(s, q, a);
    }
    if At(s, p).Copying? {
      assert SpinOk(s, p, At(s, p).addr);
      forall i: nat | i < USAGE && At(s, p).copied.Some?
        ensures At(s, p).copied.value[i] + Sum(s.dropped, At(s, p).key)[i] == Sum(s.completed, At(s, p).key)[i]
      {
        assert Balanced(s, At(s, p).key, i);
      }
    }
  }

  /** What pg_stat_statements promises of every run, whatever the interleaving of stores, resets and
      readers: the table never outgrows pg_stat_statements.max; no process touches an entry that is
      not its own statement's or that another process is inside of; and for every statement the
      counters shown plus those dropped are exactly what its updates added. */
  lemma EveryRunIsSafe(s: State, steps: seq<Step>, s': State, max: nat)
    requires Initial(s) && Reaches(s, steps, s', max)
    ensures |s'.index| <= max
    ensures forall p: Pid :: PointsToOwnEntry(s', p) && AloneInEntry(s', p) && ReadsSettledAccount(s', p)
    ensures forall k: Key, i: nat :: i < USAGE ==> Balanced(s', k, i)
  {
    InitialInv(s, max);
    RunKeepsInv(s, steps, s', max);
    forall p: Pid ensures PointsToOwnEntry(s', p) && AloneInEntry(s', p) && ReadsSettledAccount(s', p) {
      InvMeansSafe(s', max, p);
    }
  }

  // ----- entry_alloc never gets stuck -----

  lemma {:induction false} LeastUsedKey(index: map<Key, Addr>, mem: map<Addr, Entry>, ks: set<Key>) returns (k: Key)
    requires Indexed(index, mem) && ks <= index.Keys && ks != {}
    ensures k in ks && forall w :: w in ks ==> Usage(index, mem, k) <= Usage(index, mem, w)
    decreases |ks|
  {
    k :| k in ks;
    if ks != {k} {
      assert ks - {k} != {};
      var k' := LeastUsedKey(index, mem, ks - {k});
      if Usage(index, mem, k') <= Usage(index, mem, k) {
        k := k';
      }
    }
  }

  lemma {:induction false} SomeLeastUsed(index: map<Key, Addr>, mem: map<Addr, Entry>, n: nat) returns (vs: set<Key>)
    requires Indexed(index, mem) && n <= |index|
    ensures vs <= index.Keys && |vs| == n
    ensures forall v, w :: v in vs && w in index && w !in vs ==> Usage(index, mem, v) <= Usage(index, mem, w)
  {
    if n == 0 {
      vs := {};
    } else {
      vs := SomeLeastUsed(index, mem, n - 1);
      RemovedKeys(index, vs);
      assert |(index - vs).Keys| > 0 && (index - vs).Keys == index.Keys - vs;
      var k := LeastUsedKey(index, mem, index.Keys - vs);
      vs := vs + {k};
    }
  }

  // The loop in entry_alloc ends: a full table has victims, and one round of them makes room.
  lemma EntryAllocCanProceed(s: State, p: Pid, max: nat, addr: Addr) returns (vs: set<Key>)
    requires Inv(s, max) && At(s, p).Alloc? && max > 0 && addr !in s.mem
    ensures |s.index| < max ==> TableEnabled(s, p, EntryEnter(addr), max)
    ensures |s.index| >= max ==> TableEnabled(s, p, Dealloc(vs), max)
    ensures |s.index| >= max ==> TableEnabled(AfterTable(s, p, Dealloc(vs), max), p, EntryEnter(addr), max)
  {
    vs := SomeLeastUsed(s.index, Decayed(s.index, s.mem), Victims(|s.index|));
    RemovedKeys(s.index, vs);
  }
}
