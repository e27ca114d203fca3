/** What the counters of pg_stat_statements show, in terms of the statements alone: every run, whatever its
    interleaving, leaves each entry with the calls, times, rows and usage of the statements that were stored
    since the entry was made. */
module StatAccounts {
  import opened Basics
  import opened StatStatements

  // ----- The account of a statement, from the steps of a run -----

  datatype Statement = Statement(key: Key, time: real, rows: nat)

  // The statement that process p has begun to store last.
  function LastBegun(steps: seq<Step>, p: Pid): (st: Option<Statement>)
    decreases |steps|
  {
    if steps == [] then None
    else
      var n := |steps| - 1;
      if steps[n].OnLock? && steps[n].p == p && steps[n].lock.Begin? then
        Some(Statement(steps[n].lock.key, steps[n].lock.time, steps[n].lock.rows))
      else LastBegun(steps[..n], p)
  }

  // The last step finishes storing a statement of key k, and which.
  function Finishes(steps: seq<Step>, k: Key): (st: Option<Statement>)
    requires steps != []
  {
    var n := |steps| - 1;
    if steps[n].OnEntry? && steps[n].entry.Unspin? then
      var st := LastBegun(steps[..n], steps[n].p);
      if st.Some? && st.value.key == k then st else None
    else None
  }

  // The last step throws the entry of key k away.
  predicate Drops(steps: seq<Step>, k: Key)
    requires steps != []
  {
    var t := steps[|steps| - 1];
    t.OnTable? && (t.table.Reset? || (t.table.Dealloc? && k in t.table.vs))
  }

  // The last step makes sure that key k has an entry.
  predicate Makes(steps: seq<Step>, k: Key)
    requires steps != []
  {
    var n := |steps| - 1;
    && steps[n].OnTable? && steps[n].table.EntryEnter?
    && var st := LastBegun(steps[..n], steps[n].p);
       st.Some? && st.value.key == k
  }

  // The last step is a round of evictions.
  predicate Decays(steps: seq<Step>)
    requires steps != []
  {
    steps[|steps| - 1].OnTable? && steps[|steps| - 1].table.Dealloc?
  }

  // The statements of key k whose storing was finished in the run, and those since its entry was dropped last.
  function Finished(steps: seq<Step>, k: Key): (sts: seq<Statement>)
    decreases |steps|
  {
    if steps == [] then []
    else
      Finished(steps[..|steps| - 1], k) + if Finishes(steps, k).Some? then [Finishes(steps, k).value] else []
  }

  function FinishedSince(steps: seq<Step>, k: Key): (sts: seq<Statement>)
    decreases |steps|
  {
    if steps == [] || Drops(steps, k) then []
    else
      FinishedSince(steps[..|steps| - 1], k) + if Finishes(steps, k).Some? then [Finishes(steps, k).value] else []
  }

  function TotalTime(sts: seq<Statement>): (t: real) {
    if sts == [] then 0.0 else TotalTime(sts[..|sts| - 1]) + sts[|sts| - 1].time
  }

  function TotalRows(sts: seq<Statement>): (n: nat) {
    if sts == [] then 0 else TotalRows(sts[..|sts| - 1]) + sts[|sts| - 1].rows
  }

  // The usage of key k: 1 for the entry, 1 for each statement, and a hundredth less with each round of
  // evictions; nothing when there is no entry.
  function UsageOf(steps: seq<Step>, k: Key): (u: Option<real>)
    decreases |steps|
  {
    if steps == [] || Drops(steps, k) then None
    else
      var u := UsageOf(steps[..|steps| - 1], k);
      if u.None? then if Makes(steps, k) then Some(1.0) else None
      else if Decays(steps) then Some(u.value * 0.99)
      else if Finishes(steps, k).Some? then Some(u.value + 1.0)
      else u
  }

  // ----- The books -----

  // What the statements of key k since its last drop come to, counter by counter.
  function Due(steps: seq<Step>, k: Key): (c: Counters) {
    var sts := FinishedSince(steps, k);
    [|sts| as real, TotalTime(sts), TotalRows(sts) as real, if UsageOf(steps, k).Some? then UsageOf(steps, k).value else 0.0]
  }

  // A process that is storing a statement adds what the statement is.
  ghost predicate ProcBooked(s: State, steps: seq<Step>, p: Pid) {
    var q := At(s, p);
    q.Lookup? || q.Missed? || q.Alloc? || q.Have? || q.Bump? ==>
      && LastBegun(steps, p).Some?
      && var st := LastBegun(steps, p).value;
         q.key == st.key && q.delta == [1.0, st.time, st.rows as real, 1.0]
  }

  // There is an entry exactly when the steps made one, and it shows what is due and what is being added.
  ghost predicate KeyBooked(s: State, steps: seq<Step>, k: Key) {
    && (k in s.index <==> UsageOf(steps, k).Some?)
    && (k !in s.index ==> FinishedSince(steps, k) == [])
    && (k in s.index ==> forall i: nat :: i < FIELDS ==> Shown(s, k)[i] == Due(steps, k)[i] + Pending(s, k, i))
  }

  // What finished updates of key k have added is what the statements finished come to.
  ghost predicate TotalBooked(s: State, steps: seq<Step>, k: Key) {
    var c, sts := Sum(s.completed, k), Finished(steps, k);
    c[0] == |sts| as real && c[1] == TotalTime(sts) && c[2] == TotalRows(sts) as real
  }

  ghost predicate Booked(s: State, steps: seq<Step>) {
    && (forall p: Pid :: ProcBooked(s, steps, p))
    && (forall k: Key :: KeyBooked(s, steps, k) && TotalBooked(s, steps, k))
  }

  // ----- One step more -----

  lemma Snoc(steps: seq<Step>, t: Step)
    ensures var all := steps + [t]; all[..|all| - 1] == steps && all[|all| - 1] == t
  {
  }

  lemma BegunAfter(steps: seq<Step>, t: Step, p: Pid)
    ensures LastBegun(steps + [t], p) ==
            if t.OnLock? && t.p == p && t.lock.Begin? then Some(Statement(t.lock.key, t.lock.time, t.lock.rows))
            else LastBegun(steps, p)
  {
    Snoc(steps, t);
  }

  lemma TotalsAfter(sts: seq<Statement>, st: Statement)
    ensures TotalTime(sts + [st]) == TotalTime(sts) + st.time
    ensures TotalRows(sts + [st]) == TotalRows(sts) + st.rows
  {
    var all := sts + [st];
    assert all[..|all| - 1] == sts;
  }

  // A step that drops, makes, decays and finishes nothing leaves the account alone.
  predicate Neutral(t: Step) {
    !t.OnTable? && !(t.OnEntry? && t.entry.Unspin?)
  }

  lemma NeutralAfter(steps: seq<Step>, t: Step, k: Key)
    requires Neutral(t)
    ensures UsageOf(steps + [t], k) == UsageOf(steps, k) && FinishedSince(steps + [t], k) == FinishedSince(steps, k)
  {
    Snoc(steps, t);
  }

  lemma FinishedSinceAfter(steps: seq<Step>, p: Pid, k: Key)
    requires LastBegun(steps, p).Some?
    ensures var st := LastBegun(steps, p).value;
            FinishedSince(steps + [OnEntry(p, Unspin)], k) == FinishedSince(steps, k) + if st.key == k then [st] else []
  {
    Snoc(steps, OnEntry(p, Unspin));
  }

  lemma UsageAfter(steps: seq<Step>, p: Pid, k: Key)
    requires LastBegun(steps, p).Some?
    ensures var u := UsageOf(steps, k);
            UsageOf(steps + [OnEntry(p, Unspin)], k) ==
            if LastBegun(steps, p).value.key == k && u.Some? then Some(u.value + 1.0) else u
  {
    Snoc(steps, OnEntry(p, Unspin));
  }

  lemma FinishAfter(steps: seq<Step>, p: Pid, k: Key)
    requires LastBegun(steps, p).Some?
    ensures var all, st := steps + [OnEntry(p, Unspin)], LastBegun(steps, p).value;
            if st.key == k && UsageOf(steps, k).Some?
            then && UsageOf(all, k) == Some(UsageOf(steps, k).value + 1.0)
                 && Due(all, k) == Add(Due(steps, k), [1.0, st.time, st.rows as real, 1.0])
            else && UsageOf(all, k) == UsageOf(steps, k)
                 && (st.key != k ==> FinishedSince(all, k) == FinishedSince(steps, k))
  {
    FinishedSinceAfter(steps, p, k);
    UsageAfter(steps, p, k);
    TotalsAfter(FinishedSince(steps, k), LastBegun(steps, p).value);
  }

  lemma DropAfter(steps: seq<Step>, t: Step, k: Key)
    requires t.OnTable? && (t.table.Reset? || (t.table.Dealloc? && k in t.table.vs))
    ensures UsageOf(steps + [t], k) == None && FinishedSince(steps + [t], k) == []
  {
    Snoc(steps, t);
  }

  lemma DecayAfter(steps: seq<Step>, t: Step, k: Key)
    requires t.OnTable? && t.table.Dealloc? && k !in t.table.vs
    ensures var u, u' := UsageOf(steps, k), UsageOf(steps + [t], k);
            u' == (if u.Some? then Some(u.value * 0.99) else None) && FinishedSince(steps + [t], k) == FinishedSince(steps, k)
  {
    Snoc(steps, t);
  }

  lemma EnterAfter(steps: seq<Step>, p: Pid, addr: Addr, k: Key)
    requires LastBegun(steps, p).Some?
    ensures var t := OnTable(p, EntryEnter(addr));
            && FinishedSince(steps + [t], k) == FinishedSince(steps, k)
            && UsageOf(steps + [t], k) ==
               if UsageOf(steps, k).None? && LastBegun(steps, p).value.key == k then Some(1.0) else UsageOf(steps, k)
  {
    Snoc(steps, OnTable(p, EntryEnter(addr)));
  }

  // ----- Every step keeps the books -----

  lemma LockProcBooked(s: State, steps: seq<Step>, p: Pid, l: LockStep)
    requires LockEnabled(s, p, l) && ProcBooked(s, steps, p)
    ensures ProcBooked(AfterLock(s, p, l), steps + [OnLock(p, l)], p)
  {
    BegunAfter(steps, OnLock(p, l), p);
  }

  lemma EntryProcBooked(s: State, steps: seq<Step>, p: Pid, e: EntryStep)
    requires EntryEnabled(s, p, e) && ProcBooked(s, steps, p)
    ensures ProcBooked(AfterEntry(s, p, e), steps + [OnEntry(p, e)], p)
  {
    BegunAfter(steps, OnEntry(p, e), p);
  }

  lemma TableProcBooked(s: State, steps: seq<Step>, p: Pid, b: TableStep, max: nat)
    requires TableEnabled(s, p, b, max) && ProcBooked(s, steps, p)
    ensures ProcBooked(AfterTable(s, p, b, max), steps + [OnTable(p, b)], p)
  {
    BegunAfter(steps, OnTable(p, b), p);
  }

  lemma LockOthersStay(s: State, p: Pid, l: LockStep, o: Pid)
    requires LockEnabled(s, p, l) && o != p
    ensures At(AfterLock(s, p, l), o) == At(s, o)
  {
  }

  lemma EntryOthersStay(s: State, p: Pid, e: EntryStep, o: Pid)
    requires EntryEnabled(s, p, e) && o != p
    ensures At(AfterEntry(s, p, e), o) == At(s, o)
  {
  }

  lemma TableOthersStay(s: State, p: Pid, b: TableStep, max: nat, o: Pid)
    requires TableEnabled(s, p, b, max) && o != p
    ensures At(AfterTable(s, p, b, max), o) == At(s, o)
  {
  }

  lemma SameProcBooked(s: State, s': State, steps: seq<Step>, t: Step, o: Pid)
    requires ProcBooked(s, steps, o) && At(s', o) == At(s, o) && o != t.p
    ensures ProcBooked(s', steps + [t], o)
  {
    BegunAfter(steps, t, o);
  }

  lemma ProcBookedAfter(s: State, steps: seq<Step>, t: Step, max: nat, o: Pid)
    requires Enabled(s, t, max) && ProcBooked(s, steps, o)
    ensures ProcBooked(Apply(s, t, max), steps + [t], o)
  {
    match t
    case OnLock(p, l) =>
      if o == p {
        LockProcBooked(s, steps, p, l);
      } else {
        LockOthersStay(s, p, l, o);
        SameProcBooked(s, AfterLock(s, p, l), steps, t, o);
      }
    case OnEntry(p, e) =>
      if o == p {
        EntryProcBooked(s, steps, p, e);
      } else {
        EntryOthersStay(s, p, e, o);
        SameProcBooked(s, AfterEntry(s, p, e), steps, t, o);
      }
    case OnTable(p, b) =>
      if o == p {
        TableProcBooked(s, steps, p, b, max);
      } else {
        TableOthersStay(s, p, b, max, o);
        SameProcBooked(s, AfterTable(s, p, b, max), steps, t, o);
      }
  }

  // A step on the lock leaves the entries and whoever is inside them alone.
  lemma LockLeavesPending(s: State, p: Pid, l: LockStep, k: Key, i: nat)
    requires LockEnabled(s, p, l) && i < FIELDS && (k in s.index ==> SpinOk(s, p, s.index[k]))
    ensures Pending(AfterLock(s, p, l), k, i) == Pending(s, k, i)
  {
    if k in s.index && s.index[k] in s.mem && s.mem[s.index[k]].mutex.Some? {
      var m := s.mem[s.index[k]].mutex.value;
      assert m != p;
      LockOthersStay(s, p, l, m);
    }
  }

  lemma SameKeyBooked(s: State, s': State, steps: seq<Step>, t: Step, k: Key)
    requires KeyBooked(s, steps, k) && Neutral(t) && s'.index == s.index && s'.mem == s.mem
    requires forall i: nat :: i < FIELDS ==> Pending(s', k, i) == Pending(s, k, i)
    ensures KeyBooked(s', steps + [t], k)
  {
    NeutralAfter(steps, t, k);
  }

  lemma LockBooked(s: State, steps: seq<Step>, p: Pid, l: LockStep, max: nat, k: Key)
    requires Inv(s, max) && LockEnabled(s, p, l) && KeyBooked(s, steps, k)
    ensures KeyBooked(AfterLock(s, p, l), steps + [OnLock(p, l)], k)
  {
    assert k in s.index ==> SpinOk(s, p, s.index[k]);
    var s' := AfterLock(s, p, l);
    forall i: nat | i < FIELDS ensures Pending(s', k, i) == Pending(s, k, i) {
      LockLeavesPending(s, p, l, k, i);
    }
    SameKeyBooked(s, s', steps, OnLock(p, l), k);
  }

  // What an entry step does to counter i of the entry of key k.
  lemma EntryMoves(s: State, p: Pid, e: EntryStep, k: Key, i: nat)
    requires EntryEnabled(s, p, e) && k in s.index && i < FIELDS && Indexed(s.index, s.mem)
    requires ProcOk(s, p) && SpinOk(s, p, s.index[k])
    ensures var s', q := AfterEntry(s, p, e), At(s, p);
            && s'.index == s.index
            && Shown(s', k)[i] - Pending(s', k, i) ==
               Shown(s, k)[i] - Pending(s, k, i) + if e.Unspin? && q.key == k then q.delta[i] else 0.0
  {
  }

  // What it does to what is due.
  lemma EntryDue(s: State, steps: seq<Step>, p: Pid, e: EntryStep, k: Key, i: nat)
    requires EntryEnabled(s, p, e) && ProcBooked(s, steps, p) && UsageOf(steps, k).Some? && i < FIELDS
    ensures var q, t := At(s, p), OnEntry(p, e);
            && UsageOf(steps + [t], k).Some?
            && Due(steps + [t], k)[i] == Due(steps, k)[i] + if e.Unspin? && q.key == k then q.delta[i] else 0.0
  {
    if e.Unspin? {
      FinishAfter(steps, p, k);
    } else {
      NeutralAfter(steps, OnEntry(p, e), k);
    }
  }

  lemma EntryIsNotMade(s: State, steps: seq<Step>, p: Pid, e: EntryStep, k: Key)
    requires EntryEnabled(s, p, e) && ProcOk(s, p) && ProcBooked(s, steps, p) && KeyBooked(s, steps, k) && k !in s.index
    ensures KeyBooked(AfterEntry(s, p, e), steps + [OnEntry(p, e)], k)
  {
    if e.Unspin? {
      FinishAfter(steps, p, k);
    } else {
      NeutralAfter(steps, OnEntry(p, e), k);
    }
  }

  lemma EntryBooked(s: State, steps: seq<Step>, p: Pid, e: EntryStep, max: nat, k: Key)
    requires Inv(s, max) && EntryEnabled(s, p, e) && KeyBooked(s, steps, k) && ProcBooked(s, steps, p)
    ensures KeyBooked(AfterEntry(s, p, e), steps + [OnEntry(p, e)], k)
  {
    assert ProcOk(s, p);
    if k !in s.index {
      EntryIsNotMade(s, steps, p, e, k);
    } else {
      assert SpinOk(s, p, s.index[k]);
      var s', all := AfterEntry(s, p, e), steps + [OnEntry(p, e)];
      EntryMoves(s, p, e, k, 0);
      EntryDue(s, steps, p, e, k, 0);
      forall i: nat | i < FIELDS ensures Shown(s', k)[i] == Due(all, k)[i] + Pending(s', k, i) {
        EntryMoves(s, p, e, k, i);
        EntryDue(s, steps, p, e, k, i);
        assert Shown(s, k)[i] == Due(steps, k)[i] + Pending(s, k, i);
      }
    }
  }

  lemma TableBooked(s: State, steps: seq<Step>, p: Pid, b: TableStep, max: nat, k: Key)
    requires Inv(s, max) && TableEnabled(s, p, b, max) && KeyBooked(s, steps, k) && ProcBooked(s, steps, p)
    ensures KeyBooked(AfterTable(s, p, b, max), steps + [OnTable(p, b)], k)
  {
    ExclusiveMeansQuiet(s, p, max);
    match b
    case Dealloc(vs) => DeallocBooked(s, steps, p, vs, max, k);
    case EntryEnter(addr) => EnterBooked(s, steps, p, addr, max, k);
    case Reset => DropAfter(steps, OnTable(p, Reset), k);
  }

  lemma DeallocBooked(s: State, steps: seq<Step>, p: Pid, vs: set<Key>, max: nat, k: Key)
    requires Quiet(s) && TableEnabled(s, p, Dealloc(vs), max) && KeyBooked(s, steps, k)
    ensures KeyBooked(AfterTable(s, p, Dealloc(vs), max), steps + [OnTable(p, Dealloc(vs))], k)
  {
    var t, s' := OnTable(p, Dealloc(vs)), AfterTable(s, p, Dealloc(vs), max);
    if k in vs {
      DropAfter(steps, t, k);
    } else {
      DecayAfter(steps, t, k);
      if k in s.index {
        assert Live(s.index, s.mem, s.index[k]);
        forall i: nat | i < FIELDS ensures Shown(s', k)[i] == Due(steps + [t], k)[i] + Pending(s', k, i) {
          assert Shown(s, k)[i] == Due(steps, k)[i] + Pending(s, k, i);
        }
      }
    }
  }

  lemma EnterBooked(s: State, steps: seq<Step>, p: Pid, addr: Addr, max: nat, k: Key)
    requires Quiet(s) && TableEnabled(s, p, EntryEnter(addr), max) && KeyBooked(s, steps, k) && ProcBooked(s, steps, p)
    ensures KeyBooked(AfterTable(s, p, EntryEnter(addr), max), steps + [OnTable(p, EntryEnter(addr))], k)
  {
    var t, s' := OnTable(p, EntryEnter(addr)), AfterTable(s, p, EntryEnter(addr), max);
    EnterAfter(steps, p, addr, k);
    if k in s'.index {
      forall i: nat | i < FIELDS ensures Shown(s', k)[i] == Due(steps + [t], k)[i] + Pending(s', k, i) {
        assert k in s.index ==> Shown(s, k)[i] == Due(steps, k)[i] + Pending(s, k, i);
      }
    }
  }

  lemma FinishedAfter(steps: seq<Step>, t: Step, k: Key)
    ensures Finished(steps + [t], k) == Finished(steps, k) +
            if t.OnEntry? && t.entry.Unspin? && LastBegun(steps, t.p).Some? && LastBegun(steps, t.p).value.key == k
            then [LastBegun(steps, t.p).value] else []
  {
    Snoc(steps, t);
  }

  lemma UnspinTotals(s: State, steps: seq<Step>, p: Pid, k: Key)
    requires EntryEnabled(s, p, Unspin) && TotalBooked(s, steps, k) && ProcBooked(s, steps, p)
    ensures TotalBooked(AfterEntry(s, p, Unspin), steps + [OnEntry(p, Unspin)], k)
  {
    FinishedAfter(steps, OnEntry(p, Unspin), k);
    TotalsAfter(Finished(steps, k), LastBegun(steps, p).value);
    assert Finished(steps, k) + [] == Finished(steps, k);
  }

  lemma SameTotals(s: State, s': State, steps: seq<Step>, t: Step, k: Key)
    requires TotalBooked(s, steps, k) && s'.completed == s.completed && !(t.OnEntry? && t.entry.Unspin?)
    ensures TotalBooked(s', steps + [t], k)
  {
    FinishedAfter(steps, t, k);
    assert Finished(steps, k) + [] == Finished(steps, k);
  }

  lemma LockKeepsCompleted(s: State, p: Pid, l: LockStep)
    requires LockEnabled(s, p, l)
    ensures AfterLock(s, p, l).completed == s.completed
  {
  }

  lemma EntryKeepsCompleted(s: State, p: Pid, e: EntryStep)
    requires EntryEnabled(s, p, e) && !e.Unspin?
    ensures AfterEntry(s, p, e).completed == s.completed
  {
  }

  lemma TableKeepsCompleted(s: State, p: Pid, b: TableStep, max: nat)
    requires TableEnabled(s, p, b, max)
    ensures AfterTable(s, p, b, max).completed == s.completed
  {
  }

  lemma TotalBookedAfter(s: State, steps: seq<Step>, t: Step, max: nat, k: Key)
    requires Enabled(s, t, max) && TotalBooked(s, steps, k) && ProcBooked(s, steps, t.p)
    ensures TotalBooked(Apply(s, t, max), steps + [t], k)
  {
    match t
    case OnLock(p, l) =>
      LockKeepsCompleted(s, p, l);
      SameTotals(s, AfterLock(s, p, l), steps, t, k);
    case OnEntry(p, e) =>
      if e.Unspin? {
        UnspinTotals(s, steps, p, k);
      } else {
        EntryKeepsCompleted(s, p, e);
        SameTotals(s, AfterEntry(s, p, e), steps, t, k);
      }
    case OnTable(p, b) =>
      TableKeepsCompleted(s, p, b, max);
      SameTotals(s, AfterTable(s, p, b, max), steps, t, k);
  }

  lemma StepBooked(s: State, steps: seq<Step>, t: Step, max: nat)
    requires Inv(s, max) && Booked(s, steps) && Enabled(s, t, max)
    ensures Booked(Apply(s, t, max), steps + [t])
  {
    var s' := Apply(s, t, max);
    forall o: Pid ensures ProcBooked(s', steps + [t], o) {
      assert ProcBooked(s, steps, o);
      ProcBookedAfter(s, steps, t, max, o);
    }
    forall k: Key ensures KeyBooked(s', steps + [t], k) && TotalBooked(s', steps + [t], k) {
      assert KeyBooked(s, steps, k) && TotalBooked(s, steps, k);
      assert ProcBooked(s, steps, t.p);
      TotalBookedAfter(s, steps, t, max, k);
      match t
      case OnLock(p, l) => LockBooked(s, steps, p, l, max, k);
      case OnEntry(p, e) => EntryBooked(s, steps, p, e, max, k);
      case OnTable(p, b) => TableBooked(s, steps, p, b, max, k);
    }
  }

  lemma {:induction false} RunBooked(s: State, done: seq<Step>, steps: seq<Step>, s': State, max: nat)
    requires Inv(s, max) && Booked(s, done) && Reaches(s, steps, s', max)
    ensures Booked(s', done + steps)
    decreases |steps|
  {
    if steps == [] {
      assert done + steps == done;
    } else {
      var t, rest := steps[0], steps[1..];
      StepBooked(s, done, t, max);
      RunKeepsInv(s, [t], Apply(s, t, max), max);
      RunBooked(Apply(s, t, max), done + [t], rest, s', max);
      assert done + [t] + rest == done + steps;
    }
  }

  // ----- What every run shows -----

  lemma ReachedIsBooked(s: State, steps: seq<Step>, s': State, max: nat)
    requires Initial(s) && Reaches(s, steps, s', max)
    ensures Inv(s', max) && Booked(s', steps)
  {
    InitialInv(s, max);
    RunKeepsInv(s, steps, s', max);
    assert Booked(s, []);
    RunBooked(s, [], steps, s', max);
    assert [] + steps == steps;
  }

  // Nobody is adding to the entry of key k.
  predicate Untouched(s: State, k: Key) {
    forall i: nat :: i < FIELDS ==> Pending(s, k, i) == 0.0
  }

  lemma ShownIsDue(s: State, steps: seq<Step>, k: Key)
    requires KeyBooked(s, steps, k) && k in s.index && Untouched(s, k)
    ensures Shown(s, k) == Due(steps, k) && UsageOf(steps, k).Some?
  {
    var c, d := Shown(s, k), Due(steps, k);
    forall i: nat | i < FIELDS ensures c[i] == d[i] {
      assert Pending(s, k, i) == 0.0;
    }
  }

  // An entry whose spinlock is free, or held by a reader, is not being added to.
  lemma FreeIsUntouched(s: State, k: Key)
    requires k in s.index && s.index[k] in s.mem
    requires var m := s.mem[s.index[k]].mutex; m.None? || !At(s, m.value).Bump?
    ensures Untouched(s, k)
  {
  }

  /** After every run, whatever the interleaving: an entry that nobody is adding to shows exactly the number of
      statements of its key that were stored since it was made, their total time, their total rows, and their
      usage; and for a key without an entry there are none. */
  lemma EveryRunIsBooked(s: State, steps: seq<Step>, s': State, max: nat, k: Key)
    requires Initial(s) && Reaches(s, steps, s', max)
    ensures k !in s'.index ==> FinishedSince(steps, k) == [] && UsageOf(steps, k) == None
    ensures k in s'.index && Untouched(s', k) ==>
              var sts := FinishedSince(steps, k);
              && UsageOf(steps, k).Some?
              && Shown(s', k) == [|sts| as real, TotalTime(sts), TotalRows(sts) as real, UsageOf(steps, k).value]
  {
    ReachedIsBooked(s, steps, s', max);
    assert KeyBooked(s', steps, k);
    if k in s'.index && Untouched(s', k) {
      ShownIsDue(s', steps, k);
    }
  }

  /** And nothing is lost or counted twice: what an entry shows and what was dropped with earlier entries of its
      key come to all the statements stored in the run. */
  lemma EveryRunAddsUp(s: State, steps: seq<Step>, s': State, max: nat, k: Key)
    requires Initial(s) && Reaches(s, steps, s', max) && Untouched(s', k)
    ensures var sts, c, d := Finished(steps, k), Shown(s', k), Sum(s'.dropped, k);
            && c[0] + d[0] == |sts| as real
            && c[1] + d[1] == TotalTime(sts)
            && c[2] + d[2] == TotalRows(sts) as real
  {
    ReachedIsBooked(s, steps, s', max);
    assert TotalBooked(s', steps, k);
    assert Balanced(s', k, 0) && Balanced(s', k, 1) && Balanced(s', k, 2);
  }

  /** What a reader copies is just that, for the statements stored by then. */
  lemma EveryCopyIsBooked(s: State, steps: seq<Step>, s': State, max: nat, p: Pid)
    requires Initial(s) && Reaches(s, steps, s', max) && At(s', p).Copying? && At(s', p).copied.Some?
    ensures var k := At(s', p).key;
            var sts := FinishedSince(steps, k);
            && UsageOf(steps, k).Some?
            && At(s', p).copied.value == [|sts| as real, TotalTime(sts), TotalRows(sts) as real, UsageOf(steps, k).value]
  {
    ReachedIsBooked(s, steps, s', max);
    var q := At(s', p);
    assert ProcOk(s', p) && SpinOk(s', p, q.addr) && KeyBooked(s', steps, q.key);
    FreeIsUntouched(s', q.key);
    ShownIsDue(s', steps, q.key);
  }
}
