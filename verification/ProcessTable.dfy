/** The process table and its priority scheduler. */
module ProcessTable {

  const MAX_THREADS: nat := 16

  datatype State = Unused | Running | Ready | Blocked | Zombie | Stopped | Created

  /** The fields of `thread_t` that `thread_create` sets. */
  datatype Thread = Thread(id: nat, state: State, priority: nat, ticksUsed: nat, quantum: nat)

  /** The fields of `process_t` that creation, termination, blocking and scheduling touch. */
  datatype Process = Process(
    pid: nat, ppid: nat, uid: nat, state: State, priority: nat, exitCode: nat, threads: seq<Thread>, blockedIo: nat)

  // ---------- One scheduling decision ----------

  /** READY or CREATED, and of positive priority. */
  predicate Eligible(ps: seq<Process>, i: nat) {
    i < |ps| && (ps[i].state == Ready || ps[i].state == Created) && ps[i].priority > 0
  }

  /** `j` goes before `i`: higher priority, or equal priority and lower index. */
  predicate Before(ps: seq<Process>, j: nat, i: nat) {
    && Eligible(ps, j) && Eligible(ps, i)
    && (ps[j].priority > ps[i].priority || (ps[j].priority == ps[i].priority && j < i))
  }

  /** The table after process `i` was made RUNNING. */
  function Dispatch(ps: seq<Process>, i: nat): seq<Process>
    requires i < |ps|
  {
    ps[i := ps[i].(state := Running)]
  }

  /** Index of the best of the first `n` entries, or `|ps|` when none is eligible. */
  function Pick(ps: seq<Process>, n: nat): (i: nat)
    requires n <= |ps|
    ensures i < n || i == |ps|
    ensures i < |ps| ==> Eligible(ps, i) && forall j: nat :: j < n && Eligible(ps, j) && j != i ==> Before(ps, i, j)
    ensures i == |ps| ==> forall j: nat :: j < n ==> !Eligible(ps, j)
  {
    if n == 0 then |ps|
    else
      var i := Pick(ps, n - 1);
      if Eligible(ps, n - 1) && (i == |ps| || ps[n - 1].priority > ps[i].priority) then n - 1 else i
  }

  /** One call of `schedule_next_process`, on the table alone. */
  function Schedule(ps: seq<Process>): (r: seq<Process>)
    ensures |r| == |ps|
  {
    var i := Pick(ps, |ps|);
    if i < |ps| then Dispatch(ps, i) else ps
  }

  function ScheduleN(ps: seq<Process>, n: nat): (r: seq<Process>)
    ensures |r| == |ps|
    decreases n
  {
    if n == 0 then ps else ScheduleN(Schedule(ps), n - 1)
  }

  /** What the pick means, with the states written out. */
  lemma BestWritten(ps: seq<Process>)
    ensures var i := Pick(ps, |ps|);
            if i < |ps| then
              && (ps[i].state == Ready || ps[i].state == Created) && ps[i].priority > 0
              && (forall j :: 0 <= j < |ps| && (ps[j].state == Ready || ps[j].state == Created) ==>
                    ps[j].priority < ps[i].priority || (ps[j].priority == ps[i].priority && i <= j))
            else
              forall j :: 0 <= j < |ps| && (ps[j].state == Ready || ps[j].state == Created) ==> ps[j].priority == 0
  {
    var i := Pick(ps, |ps|);
    forall j | 0 <= j < |ps| && (ps[j].state == Ready || ps[j].state == Created)
      ensures if i < |ps| then ps[j].priority < ps[i].priority || (ps[j].priority == ps[i].priority && i <= j)
              else ps[j].priority == 0
    {
      assert Eligible(ps, j) <==> ps[j].priority > 0;
    }
  }

  // ---------- The dispatch order ----------

  ghost function Predecessors(ps: seq<Process>, i: nat): set<nat> {
    set j | 0 <= j < |ps| && Before(ps, j, i)
  }

  /** How many eligible processes go before `i`. */
  ghost function Rank(ps: seq<Process>, i: nat): nat {
    |Predecessors(ps, i)|
  }

  ghost function EligibleSet(ps: seq<Process>): set<nat> {
    set j | 0 <= j < |ps| && Eligible(ps, j)
  }

  /** A call dispatches the process of rank 0 and lowers every other rank by one. */
  lemma ScheduleLowersRank(ps: seq<Process>, i: nat)
    requires Eligible(ps, i)
    ensures Rank(ps, i) == 0 <==> i == Pick(ps, |ps|)
    ensures Rank(ps, i) > 0 ==> Eligible(Schedule(ps), i) && Rank(Schedule(ps), i) == Rank(ps, i) - 1
  {
    var p := Pick(ps, |ps|);
    if i == p {
      assert Predecessors(ps, i) == {};
    } else {
      assert p in Predecessors(ps, i);
      assert Predecessors(Schedule(ps), i) == Predecessors(ps, i) - {p};
    }
  }

  /** Process `i` is the one picked by call number Rank + 1. */
  lemma {:induction false} DispatchedByRank(ps: seq<Process>, i: nat)
    requires Eligible(ps, i)
    ensures Pick(ScheduleN(ps, Rank(ps, i)), |ps|) == i
    decreases Rank(ps, i)
  {
    ScheduleLowersRank(ps, i);
    if Rank(ps, i) > 0 {
      DispatchedByRank(Schedule(ps), i);
    }
  }

  /** After `n` calls exactly the eligible processes of rank below `n` run; nothing else in the table changed. */
  lemma {:induction false} AfterCalls(ps: seq<Process>, n: nat)
    ensures forall i :: 0 <= i < |ps| ==>
              ScheduleN(ps, n)[i]
              == if Eligible(ps, i) && Rank(ps, i) < n then ps[i].(state := Running) else ps[i]
    decreases n
  {
    if n > 0 {
      var q := Schedule(ps);
      AfterCalls(q, n - 1);
      forall i | 0 <= i < |ps|
        ensures ScheduleN(ps, n)[i]
             == if Eligible(ps, i) && Rank(ps, i) < n then ps[i].(state := Running) else ps[i]
      {
        if Eligible(ps, i) { ScheduleLowersRank(ps, i); }
      }
    }
  }

  lemma RankBelowCount(ps: seq<Process>, i: nat)
    requires Eligible(ps, i)
    ensures Rank(ps, i) < |EligibleSet(ps)|
  {
    assert i in EligibleSet(ps) && i !in Predecessors(ps, i);
    SubsetSmaller(Predecessors(ps, i), EligibleSet(ps) - {i});
  }

  lemma {:induction false} SubsetSmaller(a: set<nat>, b: set<nat>)
    requires a <= b
    ensures |a| <= |b|
  {
    assert b == a + (b - a);
  }

  /** Once every eligible process has been dispatched, further calls leave the table alone. */
  lemma QuietAfterAll(ps: seq<Process>, n: nat)
    requires n >= |EligibleSet(ps)|
    ensures EligibleSet(ScheduleN(ps, n)) == {}
    ensures Schedule(ScheduleN(ps, n)) == ScheduleN(ps, n) == ScheduleN(ps, |EligibleSet(ps)|)
  {
    var q, r := ScheduleN(ps, n), ScheduleN(ps, |EligibleSet(ps)|);
    AfterCalls(ps, n);
    AfterCalls(ps, |EligibleSet(ps)|);
    forall i | 0 <= i < |ps| ensures !Eligible(q, i) && q[i] == r[i] {
      if Eligible(ps, i) { RankBelowCount(ps, i); }
    }
    assert q == r;
  }

  lemma ScheduleShrinks(ps: seq<Process>)
    requires EligibleSet(ps) != {}
    ensures Pick(ps, |ps|) < |ps|
    ensures |EligibleSet(Schedule(ps))| == |EligibleSet(ps)| - 1
  {
    var i :| i in EligibleSet(ps);
    assert Eligible(ps, i);
    assert EligibleSet(Schedule(ps)) == EligibleSet(ps) - {Pick(ps, |ps|)};
  }

  lemma {:induction false} StillEligible(ps: seq<Process>, n: nat)
    requires n < |EligibleSet(ps)|
    ensures |EligibleSet(ScheduleN(ps, n))| == |EligibleSet(ps)| - n
    ensures Pick(ScheduleN(ps, n), |ps|) < |ps|
    decreases n
  {
    ScheduleShrinks(ps);
    if n > 0 {
      StillEligible(Schedule(ps), n - 1);
    }
  }

  lemma FirstGoesBefore(ps: seq<Process>, n: nat)
    requires 0 < n < |EligibleSet(ps)|
    ensures var i, j := Pick(ps, |ps|), Pick(ScheduleN(ps, n), |ps|);
            i < |ps| && j < |ps| && Before(ps, i, j)
  {
    StillEligible(ps, 0);
    StillEligible(ps, n);
    AfterCalls(ps, n);
    var j := Pick(ScheduleN(ps, n), |ps|);
    assert Eligible(ScheduleN(ps, n), j);
    assert Eligible(ps, j);
    ScheduleLowersRank(ps, j);
  }

  lemma {:induction false} ScheduleAdd(ps: seq<Process>, m: nat, n: nat)
    ensures ScheduleN(ps, m + n) == ScheduleN(ScheduleN(ps, m), n)
    decreases m
  {
    if m > 0 {
      ScheduleAdd(Schedule(ps), m - 1, n);
    }
  }

  lemma BeforeBack(ps: seq<Process>, m: nat, i: nat, j: nat)
    requires Before(ScheduleN(ps, m), i, j)
    ensures Before(ps, i, j)
  {
    AfterCalls(ps, m);
  }

  /** Earlier calls dispatch processes that go before those of later calls: the order is a stable sort. */
  lemma DispatchesSorted(ps: seq<Process>, m: nat, n: nat)
    requires m < n < |EligibleSet(ps)|
    ensures var i, j := Pick(ScheduleN(ps, m), |ps|), Pick(ScheduleN(ps, n), |ps|);
            i < |ps| && j < |ps| && Before(ps, i, j)
  {
    StillEligible(ps, m);
    ScheduleAdd(ps, m, n - m);
    var q := ScheduleN(ps, m);
    FirstGoesBefore(q, n - m);
    BeforeBack(ps, m, Pick(q, |q|), Pick(ScheduleN(q, n - m), |q|));
  }

  // ---------- Runs of calls ----------

  datatype Call =
    | Enter(process: Process)
    | End(pid: nat, exitCode: nat)
    | Spawn(pid: nat, priority: nat)
    | Block(pid: nat)
    | Wake(pid: nat)
    | Prioritize(pid: nat, priority: nat)
    | Choose

  /** The entry of the process that a call names, after the call. */
  function Touched(p: Process, c: Call): Process {
    match c
    case End(_, exitCode) => p.(state := Zombie, exitCode := exitCode)
    case Spawn(_, priority) =>
      if |p.threads| >= MAX_THREADS then p
      else p.(threads := p.threads + [Thread(|p.threads|, Created, priority, 0, 10)])
    case Block(_) => p.(state := Blocked, blockedIo := p.blockedIo + 1)
    case Wake(_) => p.(state := Ready)
    case Prioritize(_, priority) => p.(priority := priority)
    case _ => p
  }

  function Apply(ps: seq<Process>, c: Call): (r: seq<Process>)
    ensures |r| >= |ps|
  {
    match c
    case Enter(p) => ps + [p]
    case Choose => Schedule(ps)
    case _ => if 1 <= c.pid <= |ps| then ps[c.pid - 1 := Touched(ps[c.pid - 1], c)] else ps
  }

  function Run(ps: seq<Process>, calls: seq<Call>): (r: seq<Process>)
    ensures |r| >= |ps|
    decreases |calls|
  {
    if calls == [] then ps else Run(Apply(ps, calls[0]), calls[1..])
  }

  predicate Suspended(p: Process) {
    p.state == Blocked || p.state == Zombie
  }

  predicate SuspendedAfter(ps: seq<Process>, i: nat, calls: seq<Call>, k: nat)
    requires i < |ps| && k <= |calls|
  {
    Suspended(Run(ps, calls[..k])[i])
  }

  lemma SuspendedAfterStep(ps: seq<Process>, i: nat, calls: seq<Call>, k: nat)
    requires i < |ps| && k < |calls|
    ensures SuspendedAfter(ps, i, calls, k + 1) <==> SuspendedAfter(Apply(ps, calls[0]), i, calls[1..], k)
  {
    assert calls[..k + 1][1..] == calls[1..][..k];
  }

  lemma OneCallSuspends(ps: seq<Process>, i: nat, c: Call)
    requires i < |ps| && Suspended(ps[i])
    ensures Suspended(Apply(ps, c)[i]) <==> c != Wake(i + 1)
  {
    assert !Eligible(ps, i);
  }

  /** A process that was blocked or terminated stays so, and hence is never dispatched, at any point of a run, exactly
      when no call of the run unblocks it. */
  lemma {:induction false} SuspendedThroughout(ps: seq<Process>, i: nat, calls: seq<Call>)
    requires i < |ps| && (ps[i].state == Blocked || ps[i].state == Zombie)
    ensures (forall k :: 0 <= k <= |calls| ==> SuspendedAfter(ps, i, calls, k))
        <==> forall k :: 0 <= k < |calls| ==> calls[k] != Wake(i + 1)
    decreases |calls|
  {
    assert SuspendedAfter(ps, i, calls, 0);
    if calls != [] {
      var q, rest := Apply(ps, calls[0]), calls[1..];
      OneCallSuspends(ps, i, calls[0]);
      assert SuspendedAfter(q, i, rest, 0) <==> calls[0] != Wake(i + 1);
      forall k | 0 <= k <= |rest| ensures SuspendedAfter(ps, i, calls, k + 1) <==> SuspendedAfter(q, i, rest, k) {
        SuspendedAfterStep(ps, i, calls, k);
      }
      assert forall k :: 0 < k <= |calls| ==> (SuspendedAfter(ps, i, calls, k) <==> SuspendedAfter(q, i, rest, k - 1));
      assert forall k :: 0 < k < |calls| ==> calls[k] == rest[k - 1];
      assert forall k :: 0 <= k < |rest| ==> rest[k] == calls[k + 1];
      if calls[0] != Wake(i + 1) { SuspendedThroughout(q, i, rest); }
    }
  }

  /** A process of positive priority that was unblocked, even one that had been terminated, waits for the eligible ones
      that go before it and then runs. */
  lemma WokenRuns(ps: seq<Process>, i: nat, n: nat)
    requires i < |ps| && ps[i].priority > 0
    ensures var q := Apply(ps, Wake(i + 1));
            ScheduleN(q, n)[i].state == if n <= Rank(q, i) then Ready else Running
  {
    AfterCalls(Apply(ps, Wake(i + 1)), n);
  }

  // ---------- The table ----------

  datatype Option<T> = None | Some(value: T)

  /** Threads over all processes. */
  function ThreadSum(ps: seq<Process>): nat {
    if ps == [] then 0 else ThreadSum(ps[..|ps| - 1]) + |ps[|ps| - 1].threads|
  }

  lemma {:induction false} ThreadSumUpdate(ps: seq<Process>, i: nat, p: Process)
    requires i < |ps|
    ensures ThreadSum(ps[i := p]) == ThreadSum(ps) - |ps[i].threads| + |p.threads|
    decreases |ps|
  {
    var last := |ps| - 1;
    if i < last {
      ThreadSumUpdate(ps[..last], i, p);
      assert ps[i := p][..last] == ps[..last][i := p];
    } else {
      assert ps[i := p][..last] == ps[..last];
    }
  }

  class ProcessManager {
    const table: array<Process>
    var processCount: nat
    var nextPid: nat
    var currentPid: nat
    var currentProcess: Option<nat>  // a pointer into the table
    var contextSwitches: nat
    var creations: nat
    var terminations: nat
    var threadCreations: nat

    function Processes(): seq<Process>
      requires processCount <= table.Length
      reads this, table
    {
      table[..processCount]
    }

    /** Entry i has pid i + 1, and the counters agree with the table. */
    ghost predicate TableOk()
      reads this, table
    {
      && creations == processCount == nextPid - 1
      && processCount <= table.Length
      && (forall i :: 0 <= i < processCount ==> table[i].pid == i + 1 && |table[i].threads| <= MAX_THREADS)
      && threadCreations == ThreadSum(Processes())
    }

    ghost predicate Valid()
      reads this, table
    {
      && TableOk()
      && (currentProcess == None <==> currentPid == 0)
      && (currentProcess.Some? ==> currentProcess.value < processCount && currentPid == currentProcess.value + 1)
    }

    /** The zeroed static table, then `process_manager_init`. */
    constructor (capacity: nat)
      ensures Valid() && Processes() == [] && table.Length == capacity && fresh(table)
      ensures currentProcess == None && contextSwitches == terminations == 0
    {
      table := new Process[capacity](_ => Process(0, 0, 0, Unused, 0, 0, [], 0));
      processCount, nextPid, currentPid, currentProcess := 0, 1, 0, None;
      contextSwitches, creations, terminations, threadCreations := 0, 0, 0, 0;
    }

    /** `process_manager_init` on a table in use: it forgets every process but not the current one, so that the
        table is consistent afterwards exactly when nothing was ever dispatched; `ScheduleNext` says when it is
        again. */
    method Reinitialize()
      modifies this
      ensures TableOk() && processCount == currentPid == 0 && Processes() == []
      ensures currentProcess == old(currentProcess)
      ensures Valid() <==> old(currentProcess) == None
    {
      processCount, nextPid, currentPid := 0, 1, 0;
      contextSwitches, creations, terminations, threadCreations := 0, 0, 0, 0;
    }

    /** The scan by pid that most functions start with is a table lookup. */
    method Find(pid: nat) returns (i: nat)
      requires TableOk()
      ensures i == if 1 <= pid <= processCount then pid - 1 else processCount
    {
      i := 0;
      while i < processCount
        invariant i <= processCount && (1 <= pid <= processCount ==> i < pid)
      {
        if table[i].pid == pid { return; }
        i := i + 1;
      }
    }

    /** The exit code stored in the entry is the one field of the model that creation leaves as it was. */
    method Create(priority: nat, uid: nat) returns (pid: nat)
      requires TableOk()
      modifies this`processCount, this`nextPid, this`creations, table
      ensures TableOk() && (old(Valid()) ==> Valid())
      ensures old(processCount) == table.Length ==> pid == 0 && Processes() == old(Processes())
      ensures old(processCount) < table.Length ==>
        && pid == old(processCount) + 1
        && Processes() == old(Processes())
                          + [Process(pid, currentPid, uid, Created, priority, old(table[processCount].exitCode), [], 0)]
        && Processes() == Apply(old(Processes()), Enter(Processes()[pid - 1]))
    {
      if processCount >= table.Length { return 0; }
      pid := nextPid;
      nextPid := nextPid + 1;
      var stored := table[processCount].exitCode;
      table[processCount] := Process(pid, currentPid, uid, Created, priority, stored, [], 0);
      processCount := processCount + 1;
      creations := creations + 1;
      assert Processes()[..processCount - 1] == old(Processes());
    }

    /** Overwrite fields of an entry other than its pid and threads. */
    method Update(i: nat, p: Process)
      requires TableOk() && i < processCount && p.pid == table[i].pid && p.threads == table[i].threads
      modifies table
      ensures TableOk() && Processes() == old(Processes())[i := p]
    {
      ThreadSumUpdate(Processes(), i, p);
      table[i] := p;
      assert Processes() == old(Processes())[i := p];
    }

    /** The entry of `pid`, if there is one. */
    function Lookup(pid: nat): Option<Process>
      requires processCount <= table.Length
      reads this, table
    {
      if 1 <= pid <= processCount then Some(table[pid - 1]) else None
    }

    method Terminate(pid: nat, exitCode: nat) returns (ok: bool)
      requires TableOk()
      modifies this`terminations, table
      ensures TableOk() && (old(Valid()) ==> Valid())
      ensures ok <==> old(Lookup(pid)).Some?
      ensures ok ==> Processes() == old(Processes())[pid - 1 :=
                       old(Lookup(pid)).value.(state := Zombie, exitCode := exitCode)]
      ensures !ok ==> Processes() == old(Processes())
      ensures Processes() == Apply(old(Processes()), End(pid, exitCode))
      ensures terminations == old(terminations) + if ok then 1 else 0
    {
      var i := Find(pid);
      if i == processCount { return false; }
      Update(i, table[i].(state := Zombie, exitCode := exitCode));
      terminations := terminations + 1;
      ok := true;
    }

    /** Thread ids count up from 0 within a process; 0 also reports a missing process or a full thread table. */
    method ThreadCreate(pid: nat, priority: nat) returns (id: nat)
      requires TableOk()
      modifies this`threadCreations, table
      ensures TableOk() && (old(Valid()) ==> Valid())
      ensures var p := old(Lookup(pid));
              if p == None || |p.value.threads| == 16 then
                id == 0 && Processes() == old(Processes()) && threadCreations == old(threadCreations)
              else
                && id == |p.value.threads| && threadCreations == old(threadCreations) + 1
                && Processes() == old(Processes())[pid - 1 :=
                     p.value.(threads := p.value.threads + [Thread(id, Created, priority, 0, 10)])]
      ensures Processes() == Apply(old(Processes()), Spawn(pid, priority))
    {
      var i := Find(pid);
      if i == processCount { return 0; }
      var p := table[i];
      if |p.threads| >= MAX_THREADS { return 0; }
      id := |p.threads|;
      var q := p.(threads := p.threads + [Thread(id, Created, priority, 0, 10)]);
      ThreadSumUpdate(Processes(), i, q);
      table[i] := q;
      threadCreations := threadCreations + 1;
      assert Processes() == old(Processes())[i := q];
    }

    method BlockForIo(pid: nat)
      requires TableOk()
      modifies table
      ensures TableOk() && (old(Valid()) ==> Valid())
      ensures match old(Lookup(pid))
              case Some(p) =>
                Processes() == old(Processes())[pid - 1 := p.(state := Blocked, blockedIo := p.blockedIo + 1)]
              case None => Processes() == old(Processes())
      ensures Processes() == Apply(old(Processes()), Block(pid))
    {
      var i := Find(pid);
      if i < processCount {
        Update(i, table[i].(state := Blocked, blockedIo := table[i].blockedIo + 1));
      }
    }

    method Unblock(pid: nat)
      requires TableOk()
      modifies table
      ensures TableOk() && (old(Valid()) ==> Valid())
      ensures match old(Lookup(pid))
              case Some(p) => Processes() == old(Processes())[pid - 1 := p.(state := Ready)]
              case None => Processes() == old(Processes())
      ensures Processes() == Apply(old(Processes()), Wake(pid))
    {
      var i := Find(pid);
      if i < processCount {
        Update(i, table[i].(state := Ready));
      }
    }

    method SetPriority(pid: nat, priority: nat)
      requires TableOk()
      modifies table
      ensures TableOk() && (old(Valid()) ==> Valid())
      ensures match old(Lookup(pid))
              case Some(p) => Processes() == old(Processes())[pid - 1 := p.(priority := priority)]
              case None => Processes() == old(Processes())
      ensures Processes() == Apply(old(Processes()), Prioritize(pid, priority))
    {
      var i := Find(pid);
      if i < processCount {
        Update(i, table[i].(priority := priority));
      }
    }

    /** First pass of the scheduler: the pid of the best eligible process, or 0. */
    method Select() returns (chosen: nat)
      requires TableOk()
      ensures var p := Pick(Processes(), processCount); chosen == if p < processCount then p + 1 else 0
    {
      ghost var ps := Processes();
      var highest := 0;
      chosen := 0;
      var i := 0;
      while i < processCount
        invariant i <= processCount
        invariant var p := Pick(ps, i);
                  if p < |ps| then chosen == p + 1 && highest == ps[p].priority else chosen == 0 && highest == 0
      {
        assert ps[i] == table[i];
        if table[i].state == Ready || table[i].state == Created {
          if table[i].priority > highest {
            highest := table[i].priority;
            chosen := table[i].pid;
          }
        }
        i := i + 1;
      }
    }

    /** Second pass: find the chosen pid again and let it run. */
    method MakeCurrent(chosen: nat)
      requires TableOk() && 1 <= chosen <= processCount
      modifies this`currentPid, this`currentProcess, table
      ensures Valid()
      ensures Processes() == Dispatch(old(Processes()), chosen - 1)
      ensures currentProcess == Some(chosen - 1) && currentPid == chosen
    {
      currentPid := chosen;
      var i := Find(chosen);
      currentProcess := Some(i);
      assert Processes()[i] == table[i];
      Update(i, table[i].(state := Running));
    }

    /** Two passes, select the pid and then find it, dispatch the process the specification picks. A dispatch also
        replaces a current process that the table lost. */
    method ScheduleNext()
      requires TableOk()
      modifies this`contextSwitches, this`currentPid, this`currentProcess, table
      ensures TableOk()
      ensures Valid() <==> old(Valid()) || Pick(old(Processes()), processCount) < processCount
      ensures contextSwitches == old(contextSwitches) + 1
      ensures Processes() == Schedule(old(Processes())) == Apply(old(Processes()), Choose)
      ensures var ps, i := old(Processes()), Pick(old(Processes()), processCount);
              if i < processCount then
                && currentProcess == Some(i) && currentPid == i + 1
                && Processes() == ps[i := ps[i].(state := Running)]
                && (ps[i].state == Ready || ps[i].state == Created) && ps[i].priority > 0
                && (forall j :: 0 <= j < processCount && (ps[j].state == Ready || ps[j].state == Created) ==>
                      ps[j].priority < ps[i].priority || (ps[j].priority == ps[i].priority && i <= j))
              else
                && currentProcess == old(currentProcess) && currentPid == old(currentPid)
                && Processes() == ps
                && (forall j :: 0 <= j < processCount && (ps[j].state == Ready || ps[j].state == Created) ==>
                      ps[j].priority == 0)
    {
      ghost var ps := Processes();
      contextSwitches := contextSwitches + 1;
      var chosen := Select();
      BestWritten(ps);
      if chosen > 0 {
        MakeCurrent(chosen);
        assert Processes() == Schedule(ps);
      } else {
        assert Processes() == ps;
      }
    }
  }

  /** Calls after which initializing again leaves the table inconsistent: the current process is one that the
      table no longer has. */
  method ReinitializeLosesCurrent(capacity: nat) returns (m: ProcessManager)
    requires capacity > 0
    ensures !m.Valid() && m.processCount == 0 && m.currentPid == 0 && m.currentProcess == Some(0)
  {
    m := new ProcessManager(capacity);
    var pid := m.Create(1, 0);
    assert Eligible(m.Processes(), 0);
    assert Pick(m.Processes(), 0) == 1;
    m.ScheduleNext();
    m.Reinitialize();
  }

  /** Terminating a process does not keep it from running: create, terminate, unblock and schedule run it again. */
  method TerminatedRunsAgain(capacity: nat) returns (m: ProcessManager)
    requires capacity > 0
    ensures m.Valid() && m.terminations == 1 && m.processCount == 1 && m.Processes()[0].state == Running
  {
    m := new ProcessManager(capacity);
    var pid := m.Create(1, 0);
    Revive(m);
  }

  /** Terminate the only process, unblock it and schedule. */
  method Revive(m: ProcessManager)
    requires m.Valid() && m.processCount == 1 && m.table[0].priority > 0
    modifies m, m.table
    ensures m.Valid() && m.terminations == old(m.terminations) + 1 && m.processCount == 1
    ensures m.Processes()[0].state == Running
  {
    var ok := m.Terminate(1, 0);
    m.Unblock(1);
    assert m.Processes()[0].state == Ready;
    m.ScheduleNext();
  }
}
