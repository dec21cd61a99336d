/** What holds over whole runs of the kernel. */
module KernelRuns {
  import opened Bytes
  import opened ProcessTable
  import opened LineEditor
  import opened KernelSteps

  /** The events can happen one after the other. */
  ghost predicate Possible(k: Kernel, es: seq<Event>)
    decreases |es|
  {
    es == [] || (Enabled(k, es[0]) && Possible(Step(k, es[0]), es[1..]))
  }

  ghost function Run(k: Kernel, es: seq<Event>): Kernel
    requires Possible(k, es)
    decreases |es|
  {
    if es == [] then k else Run(Step(k, es[0]), es[1..])
  }

  /** The kernel once the scheduler has entered the only process, in the first slot. `line` is what was typed before. */
  ghost function Booted(esp: nat, dir: nat, kstack: nat, name: seq<Byte>, line: Line): Kernel {
    var empty := Sched(seq(MAX_PROCESSES, _ => Pcb(0, Dead, 0, 0, 0, [])), -1, 1, 0, 0);
    Kernel(Enter(Created(empty, esp, dir, kstack, name), 0), seq(MAX_PROCESSES, _ => InUser), false,
           line, if line.complete then [line.text] else [], [])
  }

  lemma BootedInv(esp: nat, dir: nat, kstack: nat, name: seq<Byte>, line: Line)
    requires line.Valid()
    ensures Inv(Booted(esp, dir, kstack, name, line))
  {
  }

  /** The invariant holds in every state a run reaches. */
  lemma {:induction false} RunKeepsInv(k: Kernel, es: seq<Event>)
    requires Inv(k) && Possible(k, es)
    ensures Inv(Run(k, es))
    decreases |es|
  {
    if es != [] {
      StepKeepsInv(k, es[0]);
      RunKeepsInv(Step(k, es[0]), es[1..]);
    }
  }

  /** From boot on: one running process with its stack and directory loaded, unique pids, lines in order. */
  lemma AlwaysInv(esp: nat, dir: nat, kstack: nat, name: seq<Byte>, line: Line, es: seq<Event>)
    requires line.Valid() && Possible(Booted(esp, dir, kstack, name, line), es)
    ensures Inv(Run(Booted(esp, dir, kstack, name, line), es))
  {
    BootedInv(esp, dir, kstack, name, line);
    RunKeepsInv(Booted(esp, dir, kstack, name, line), es);
  }

  /** The system halts exactly when the last live process exits. */
  lemma HaltsWithLastExit(k: Kernel, e: Event)
    requires Inv(k) && Enabled(k, e)
    ensures Step(k, e).halted <==>
            e == Exit && forall s :: 0 <= s < MAX_PROCESSES && s != k.sc.current ==> k.sc.procs[s].state == Dead
  {
    if e == Exit {
      var procs := Killed(k).sc.procs;
      ScanFinds(procs, k.sc.current);
      forall s | 0 <= s < MAX_PROCESSES && s != k.sc.current ensures procs[s] == k.sc.procs[s] { }
    }
  }

  // ----- Pids -----

  /** A pid that has been handed out and is not alive is never alive again, even when its slot is reused. */
  lemma StepDeadStaysDead(k: Kernel, e: Event, pid: nat)
    requires Inv(k) && Enabled(k, e) && pid < k.sc.nextPid && !k.sc.IsAlive(pid)
    ensures pid < Step(k, e).sc.nextPid && !Step(k, e).sc.IsAlive(pid)
  {
    if !e.Spawn? { StepNoneBorn(k, e); }
    var r := Step(k, e).sc;
    forall s | 0 <= s < MAX_PROCESSES ensures !(r.procs[s].pid == pid && r.procs[s].Alive()) {
      assert !(k.sc.procs[s].pid == pid && k.sc.procs[s].Alive());
    }
  }

  lemma {:induction false} DeadStaysDead(k: Kernel, es: seq<Event>, pid: nat)
    requires Inv(k) && Possible(k, es) && pid < k.sc.nextPid && !k.sc.IsAlive(pid)
    ensures !Run(k, es).sc.IsAlive(pid)
    decreases |es|
  {
    if es != [] {
      StepKeepsInv(k, es[0]);
      StepDeadStaysDead(k, es[0], pid);
      DeadStaysDead(Step(k, es[0]), es[1..], pid);
    }
  }

  /** A step takes a process out of its wait for `pid` exactly when it is the step that tests a `pid` that is not alive,
      and a pid that had been handed out by then is dead in every later state. */
  lemma WaitReturnsWhenDead(k: Kernel, e: Event, es: seq<Event>, pid: nat)
    requires Inv(k) && Enabled(k, e) && !Here(k).InUser? && Here(k).call == Waiting(pid)
    requires Possible(Step(k, e), es)
    ensures Step(k, e).places[k.sc.current].InUser? <==> Here(k).AtTest? && !k.sc.IsAlive(pid)
    ensures Step(k, e).places[k.sc.current].InUser? && pid < k.sc.nextPid ==> !Run(Step(k, e), es).sc.IsAlive(pid)
  {
    if Step(k, e).places[k.sc.current].InUser? && pid < k.sc.nextPid {
      StepKeepsInv(k, e);
      StepDeadStaysDead(k, e, pid);
      DeadStaysDead(Step(k, e), es, pid);
    }
  }

  // ----- Pids that come to life -----

  lemma {:induction false} RunConcat(k: Kernel, a: seq<Event>, b: seq<Event>)
    requires Possible(k, a) && Possible(Run(k, a), b)
    ensures Possible(k, a + b) && Run(k, a + b) == Run(Run(k, a), b)
    decreases |a|
  {
    if a == [] {
      assert a + b == b;
    } else {
      assert (a + b)[1..] == a[1..] + b;
      RunConcat(Step(k, a[0]), a[1..], b);
    }
  }

  lemma RunOne(k: Kernel, e: Event)
    requires Enabled(k, e)
    ensures Possible(k, [e]) && Run(k, [e]) == Step(k, e)
  {
    assert [e][1..] == [];
    assert Possible(Step(k, e), []);
  }

  /** Slot by slot the same processes are alive. */
  ghost predicate SameLive(sc: Sched, r: Sched) {
    NoneBorn(sc, r) && NoneBorn(r, sc)
  }

  lemma ScheduledSameLive(sc: Sched)
    requires sc.Shaped()
    ensures SameLive(sc, Scheduled(sc))
  {
    if sc.current >= 0 { ScanFinds(sc.procs, sc.current); }
  }

  /** The event that takes the current process on: it yields, or goes on inside its blocking call. */
  function Onward(k: Kernel): Event
    requires Shaped(k) && k.sc.current >= 0
  {
    match Here(k)
    case InUser => Yield
    case AtHalt(_) => Tick
    case _ => Continue
  }

  /** Steps the current process may still take before it yields or calls the scheduler. */
  function Ahead(p: Place): nat {
    match p
    case InUser => 0
    case AtTest(_) => 1
    case AfterHalt(_) => 2
    case AtHalt(_) => 3
    case AfterSchedule(_) => 4
  }

  lemma OnwardSteps(k: Kernel)
    requires Inv(k) && !k.halted
    ensures Enabled(k, Onward(k))
    ensures var r := Step(k, Onward(k));
            && !r.halted && SameLive(k.sc, r.sc)
            && (Schedules(k, Onward(k)) || (r.sc.current == k.sc.current && Ahead(Here(r)) < Ahead(Here(k))))
  {
    ScheduledSameLive(k.sc);
  }

  lemma OnwardKeepsPlace(k: Kernel, s: nat)
    requires Inv(k) && !k.halted && s < MAX_PROCESSES && s != k.sc.current && Enabled(k, Onward(k))
    ensures Step(k, Onward(k)).places[s] == k.places[s]
  {
  }

  /** A live process that is in user mode can be brought to run, while no process is created and none exits. */
  lemma {:induction false} Reach(k: Kernel, s: nat) returns (es: seq<Event>)
    requires Inv(k) && !k.halted && s < MAX_PROCESSES && k.sc.procs[s].Alive() && k.places[s].InUser?
    ensures Possible(k, es)
    ensures var r := Run(k, es);
            Inv(r) && !r.halted && r.sc.current == s && Here(r).InUser? && SameLive(k.sc, r.sc)
    decreases if k.sc.current == s then 0 else Distance(k.sc.current, s), Ahead(Here(k))
  {
    es := [];
    if k.sc.current != s {
      var e := Onward(k);
      OnwardSteps(k);
      OnwardKeepsPlace(k, s);
      StepKeepsInv(k, e);
      StepCloser(k, e, s);
      AroundDistance(k.sc.current, s);
      var rest := Reach(Step(k, e), s);
      RunOne(k, e);
      RunConcat(k, [e], rest);
      es := [e] + rest;
    }
  }

  /** The current process is in user mode and a spawn can succeed. */
  ghost predicate CanSpawn(k: Kernel) {
    Shaped(k) && !k.halted && k.sc.current >= 0 && Here(k).InUser? && FreeSlot(k.sc.procs, 0) < MAX_PROCESSES
  }

  /** Processes created during a run. */
  ghost function Born(es: seq<Event>): nat {
    if es == [] then 0 else (if es[0].Spawn? then 1 else 0) + Born(es[1..])
  }

  lemma {:induction false} BornConcat(a: seq<Event>, b: seq<Event>)
    ensures Born(a + b) == Born(a) + Born(b)
  {
    if a == [] {
      assert a + b == b;
    } else {
      assert (a + b)[1..] == a[1..] + b;
      BornConcat(a[1..], b);
    }
  }

  /** Pids are handed out one for each process created. */
  lemma {:induction false} BornCounts(k: Kernel, es: seq<Event>)
    requires Inv(k) && Possible(k, es)
    ensures Run(k, es).sc.nextPid == k.sc.nextPid + Born(es)
    decreases |es|
  {
    if es != [] {
      if !es[0].Spawn? { StepNoneBorn(k, es[0]); }
      StepKeepsInv(k, es[0]);
      BornCounts(Step(k, es[0]), es[1..]);
    }
  }

  /** The current process creates one and exits; the new one can be brought to run, and can create another. */
  lemma Successor(k: Kernel) returns (es: seq<Event>)
    requires Inv(k) && CanSpawn(k)
    ensures Possible(k, es)
    ensures var r := Run(k, es); Inv(r) && CanSpawn(r) && r.sc.nextPid == k.sc.nextPid + 1
  {
    var e, slot, c := Spawn(0, 0, 0, []), FreeSlot(k.sc.procs, 0), k.sc.current;
    var k1 := Step(k, e);
    StepKeepsInv(k, e);
    var k2 := Step(k1, Exit);
    ExitLeaves(k1, slot);
    StepKeepsInv(k1, Exit);
    var rest := Reach(k2, slot);
    RunOne(k1, Exit);
    RunConcat(k1, [Exit], rest);
    RunOne(k, e);
    RunConcat(k, [e], [Exit] + rest);
    es := [e] + ([Exit] + rest);
    assert Run(k, es).sc.procs[c].state == Dead;
  }

  /** After an exit the slot is free and a ready process is still there. */
  lemma ExitLeaves(k: Kernel, s: nat)
    requires Inv(k) && Enabled(k, Exit) && s < MAX_PROCESSES && s != k.sc.current
    requires k.sc.procs[s].state == Ready && k.places[s].InUser?
    ensures var r := Step(k, Exit);
            && !r.halted && r.sc.procs[s].Alive() && r.places[s].InUser? && r.sc.nextPid == k.sc.nextPid
            && r.sc.procs[k.sc.current].state == Dead
  {
    var dead := Killed(k);
    assert dead.sc.procs[s].state == Ready;
    ScanFinds(dead.sc.procs, dead.sc.current);
    ScheduledSameLive(dead.sc);
  }

  /** Where a spawn can succeed, every pid not yet handed out comes alive in a run that creates processes up to it. */
  lemma {:induction false} ComesAlive(k: Kernel, pid: nat) returns (es: seq<Event>)
    requires Inv(k) && CanSpawn(k) && pid >= k.sc.nextPid
    ensures Possible(k, es) && Run(k, es).sc.IsAlive(pid) && Born(es) == pid - k.sc.nextPid + 1
    decreases pid - k.sc.nextPid
  {
    if pid == k.sc.nextPid {
      var e := Spawn(0, 0, 0, []);
      RunOne(k, e);
      assert Step(k, e).sc.procs[FreeSlot(k.sc.procs, 0)].pid == pid;
      es := [e];
      assert [e][1..] == [];
    } else {
      var first := Successor(k);
      var rest := ComesAlive(Run(k, first), pid);
      BornCounts(k, first);
      RunConcat(k, first, rest);
      BornConcat(first, rest);
      es := first + rest;
    }
  }

  ghost predicate DeadAfter(k: Kernel, es: seq<Event>, pid: nat)
    requires Possible(k, es)
  {
    !Run(k, es).sc.IsAlive(pid)
  }

  /** `pid` is alive in no run from here that creates at most `n` processes. */
  ghost predicate NeverAlive(k: Kernel, pid: nat, n: nat) {
    forall es :: Possible(k, es) && Born(es) <= n ==> DeadAfter(k, es, pid)
  }

  /** A pid that a run did not get to is not alive after it. */
  lemma NotYetAlive(k: Kernel, es: seq<Event>, pid: nat)
    requires Inv(k) && Possible(k, es) && pid >= k.sc.nextPid + Born(es)
    ensures DeadAfter(k, es, pid)
  {
    BornCounts(k, es);
    RunKeepsInv(k, es);
  }

  /** Where a spawn can succeed and frames are left for `n` processes, a pid that is not alive stays so in every run if
      and only if it has been handed out or there are not frames enough to get to it. */
  lemma StaysDeadExactly(k: Kernel, pid: nat, n: nat)
    requires Inv(k) && CanSpawn(k) && !k.sc.IsAlive(pid)
    ensures NeverAlive(k, pid, n) <==> pid < k.sc.nextPid || pid >= k.sc.nextPid + n
  {
    if pid < k.sc.nextPid {
      forall es | Possible(k, es) ensures DeadAfter(k, es, pid) { DeadStaysDead(k, es, pid); }
    } else if pid >= k.sc.nextPid + n {
      forall es | Possible(k, es) && Born(es) <= n ensures DeadAfter(k, es, pid) { NotYetAlive(k, es, pid); }
    } else {
      var es := ComesAlive(k, pid);
      assert !DeadAfter(k, es, pid);
    }
  }

  /** At boot, a wait for pid 2 would return at once, and after the first spawn pid 2 is alive. */
  lemma UnissuedPidComesAlive(esp: nat, dir: nat, kstack: nat, name: seq<Byte>, line: Line)
    requires line.Valid()
    ensures var k := Booted(esp, dir, kstack, name, line);
            var e := Spawn(esp, dir, kstack, name);
            !k.sc.IsAlive(2) && Enabled(k, e) && Step(k, e).sc.IsAlive(2)
  {
    var k := Booted(esp, dir, kstack, name, line);
    BootedInv(esp, dir, kstack, name, line);
    assert Created(k.sc, esp, dir, kstack, name).procs[FreeSlot(k.sc.procs, 0)].pid == 2;
  }

  /** The process in slot `s` is inside a wait for itself. */
  ghost predicate WaitsForItself(k: Kernel, s: nat) {
    && Shaped(k) && s < MAX_PROCESSES && k.sc.procs[s].Alive()
    && !k.places[s].InUser? && k.places[s].call == Waiting(k.sc.procs[s].pid)
  }

  lemma StepWaitsForItself(k: Kernel, e: Event, s: nat)
    requires Inv(k) && Enabled(k, e) && WaitsForItself(k, s)
    ensures WaitsForItself(Step(k, e), s)
  {
  }

  /** A process that waits for its own pid never returns to user mode. */
  lemma {:induction false} OwnWaitNeverReturns(k: Kernel, es: seq<Event>, s: nat)
    requires Inv(k) && Possible(k, es) && WaitsForItself(k, s)
    ensures WaitsForItself(Run(k, es), s)
    decreases |es|
  {
    if es != [] {
      StepKeepsInv(k, es[0]);
      StepWaitsForItself(k, es[0], s);
      OwnWaitNeverReturns(Step(k, es[0]), es[1..], s);
    }
  }

  // ----- Bounded waiting -----

  /** Scheduler calls during the run. */
  ghost function Calls(k: Kernel, es: seq<Event>): nat
    requires Possible(k, es)
    decreases |es|
  {
    if es == [] then 0 else (if Schedules(k, es[0]) then 1 else 0) + Calls(Step(k, es[0]), es[1..])
  }

  /** In some state of the run, process `pid` in slot `s` is running. */
  ghost predicate RunsDuring(k: Kernel, es: seq<Event>, s: nat, pid: nat)
    requires Possible(k, es) && s < MAX_PROCESSES && Shaped(k)
    decreases |es|
  {
    || (k.sc.procs[s].pid == pid && k.sc.procs[s].state == Running)
    || (es != [] && RunsDuring(Step(k, es[0]), es[1..], s, pid))
  }

  lemma DistanceShrinks(c: nat, n: nat, s: nat)
    requires c < MAX_PROCESSES && n < MAX_PROCESSES && s < MAX_PROCESSES && Distance(c, n) < Distance(c, s)
    ensures Distance(n, s) == Distance(c, s) - Distance(c, n) && Distance(c, n) >= 1
  {
  }

  /** If the scheduler passes over a ready slot, the new current slot is closer to it than the old one. */
  lemma ScheduledCloser(sc: Sched, s: nat)
    requires sc.Shaped() && sc.current >= 0 && s < MAX_PROCESSES
    requires sc.procs[s].state == Ready && s != sc.current
    ensures var r := Scheduled(sc);
            && r.current >= 0 && r.procs[s].pid == sc.procs[s].pid
            && (|| r.procs[s].state == Running
                || (r.procs[s].state == Ready && Distance(r.current, s) < Distance(sc.current, s)))
  {
    ScanFinds(sc.procs, sc.current);
    var n := Scan(sc.procs, sc.current, 1);
    if n != s {
      AroundDistance(sc.current, n);
      AroundDistance(sc.current, s);
      DistanceShrinks(sc.current, n, s);
    }
  }

  /** A ready process stays in its slot; a step either runs it or leaves it ready, and then a scheduler call has
      brought the current slot closer while any other step has not moved it. */
  lemma StepCloser(k: Kernel, e: Event, s: nat)
    requires Inv(k) && Enabled(k, e) && s < MAX_PROCESSES && k.sc.procs[s].state == Ready
    ensures var r := Step(k, e).sc;
            && r.current >= 0 && r.procs[s].pid == k.sc.procs[s].pid
            && (|| r.procs[s].state == Running
                || (&& r.procs[s].state == Ready
                    && Distance(r.current, s) + (if Schedules(k, e) then 1 else 0) <= Distance(k.sc.current, s)))
  {
    if Schedules(k, e) {
      if e.Exit? {
        var dead := Killed(k);
        ScanFinds(dead.sc.procs, dead.sc.current);
        ScheduledCloser(dead.sc, s);
      } else {
        ScheduledCloser(k.sc, s);
      }
    }
  }

  lemma {:induction false} RunsByDistance(k: Kernel, es: seq<Event>, s: nat)
    requires Inv(k) && Possible(k, es) && s < MAX_PROCESSES && k.sc.procs[s].state == Ready
    requires k.sc.current >= 0 && Calls(k, es) >= Distance(k.sc.current, s)
    ensures RunsDuring(k, es, s, k.sc.procs[s].pid)
    decreases |es|
  {
    AroundDistance(k.sc.current, s);
    var k' := Step(k, es[0]);
    StepKeepsInv(k, es[0]);
    StepCloser(k, es[0], s);
    if k'.sc.procs[s].state == Ready {
      RunsByDistance(k', es[1..], s);
    } else {
      assert RunsDuring(k', es[1..], s, k.sc.procs[s].pid);
    }
  }

  /** A ready process runs by the fifteenth scheduler call at the latest, whatever else happens in between. */
  lemma BoundedWaiting(k: Kernel, es: seq<Event>, s: nat)
    requires Inv(k) && Possible(k, es) && s < MAX_PROCESSES && k.sc.procs[s].state == Ready && Calls(k, es) >= 15
    ensures RunsDuring(k, es, s, k.sc.procs[s].pid)
  {
    assert !k.halted;
    RunsByDistance(k, es, s);
  }

  // ----- Lines -----

  /** Every reader got a whole finished line, cut to its room: the `i`-th delivery is the longest fitting prefix of the
      `i`-th line typed, so no line goes out twice, out of turn or unfinished. */
  lemma LinesDelivered(esp: nat, dir: nat, kstack: nat, name: seq<Byte>, line: Line, es: seq<Event>, i: nat)
    requires line.Valid() && Possible(Booted(esp, dir, kstack, name, line), es)
    requires i < |Run(Booted(esp, dir, kstack, name, line), es).delivered|
    ensures var k := Run(Booted(esp, dir, kstack, name, line), es);
            && |k.delivered| <= |k.typed| <= |k.delivered| + 1
            && k.delivered[i].text <= k.typed[i]
            && |k.delivered[i].text| <= k.delivered[i].max
            && (k.delivered[i].text == k.typed[i] || |k.delivered[i].text| == k.delivered[i].max)
  {
    AlwaysInv(esp, dir, kstack, name, line, es);
  }
}
