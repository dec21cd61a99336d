/** Blocking calls over whole runs of the kernel: what happens between entering a call and returning from it. */
module KernelCalls {
  import opened Bytes
  import opened Tape
  import opened ProcessTable
  import opened LineEditor
  import opened KernelSteps
  import opened KernelRuns

  // ----- Control blocks -----

  /** No step changes a control block but for its state; a spawn writes a whole one, into a dead slot. */
  lemma StepKeepsBlock(k: Kernel, e: Event, s: nat)
    requires Enabled(k, e) && s < MAX_PROCESSES
    ensures var r := Step(k, e).sc.procs[s];
            || SameBlock(k.sc.procs[s], r)
            || (&& e.Spawn? && k.sc.procs[s].state == Dead && r.pid == k.sc.nextPid && r.state == Ready
                && r.esp == e.esp && r.dir == e.dir && r.kstack == e.kstack)
  {
    ScheduledKeepsBlocks(k.sc, s);
    if e.Exit? { ScheduledKeepsBlocks(Killed(k).sc, s); }
    if e.Spawn? { CreatedExact(k.sc, e.esp, e.dir, e.kstack, e.name); }
  }

  /** A spawn writes the new process into the first dead slot, with the next pid, and does not switch. */
  lemma SpawnCreates(k: Kernel, e: Event)
    requires Enabled(k, e) && e.Spawn?
    ensures var r, s := Step(k, e).sc, FreeSlot(k.sc.procs, 0);
            && k.sc.procs[s].state == Dead && (forall t :: 0 <= t < s ==> k.sc.procs[t].state != Dead)
            && Registered(k.sc.procs, r.procs, s, k.sc.nextPid, e.esp, e.dir, e.kstack, e.name)
            && r.nextPid == k.sc.nextPid + 1 && r.current == k.sc.current && r.cr3 == k.sc.cr3 && r.esp0 == k.sc.esp0
  {
    CreatedExact(k.sc, e.esp, e.dir, e.kstack, e.name);
  }

  /** Over any run a control block stays as it was written until its slot is reused, by a process with a later pid. */
  lemma {:induction false} BlockStays(k: Kernel, es: seq<Event>, s: nat, b: Pcb)
    requires Inv(k) && Possible(k, es) && s < MAX_PROCESSES && b.pid < k.sc.nextPid
    requires SameBlock(b, k.sc.procs[s]) || k.sc.procs[s].pid > b.pid
    ensures Shaped(Run(k, es)) && (SameBlock(b, Run(k, es).sc.procs[s]) || Run(k, es).sc.procs[s].pid > b.pid)
    decreases |es|
  {
    if es != [] {
      StepKeepsInv(k, es[0]);
      StepKeepsBlock(k, es[0], s);
      if es[0].Spawn? {
        CreatedExact(k.sc, es[0].esp, es[0].dir, es[0].kstack, es[0].name);
      } else {
        StepNoneBorn(k, es[0]);
      }
      BlockStays(Step(k, es[0]), es[1..], s, b);
    }
  }

  // ----- Which steps switch -----

  /** The nearest ready slot of the old table has been entered. */
  ghost predicate EntersNearest(sc: Sched, r: Sched)
    requires sc.Shaped() && sc.current >= 0
  {
    0 <= r.current < MAX_PROCESSES && FirstReady(sc.procs, sc.current, r.current) && Entered(sc.procs, r, r.current)
  }

  /** What a switch does: the nearest ready process runs and the one that was running is ready; without one, nothing
      changes. */
  ghost predicate Switched(sc: Sched, r: Sched)
    requires sc.Shaped() && sc.current >= 0
  {
    if NoneReady(sc.procs) then r == sc
    else EntersNearest(sc, r) && (r.current != sc.current ==> r.procs[sc.current].state == Ready)
  }

  lemma SchedSwitches(k: Kernel)
    requires Inv(k) && !k.halted
    ensures Switched(k.sc, Scheduled(k.sc))
  {
    ScheduledExact(k.sc);
  }

  lemma KilledSameReady(k: Kernel)
    requires Inv(k) && Enabled(k, Exit)
    ensures var dead := Killed(k).sc.procs;
            && NoneReady(dead) == NoneReady(k.sc.procs)
            && forall n: nat :: n < MAX_PROCESSES && FirstReady(dead, k.sc.current, n) ==>
                 FirstReady(k.sc.procs, k.sc.current, n)
  {
    var dead := Killed(k).sc.procs;
    assert forall s :: 0 <= s < MAX_PROCESSES ==> (dead[s].state == Ready <==> k.sc.procs[s].state == Ready);
  }

  /** An exit leaves its process dead and runs the nearest ready one; without one, the table is otherwise unchanged. */
  lemma ExitSwitches(k: Kernel)
    requires Inv(k) && Enabled(k, Exit)
    ensures var r, c := Step(k, Exit).sc, k.sc.current;
            && r.procs[c].state == Dead && SameBlock(k.sc.procs[c], r.procs[c])
            && (if NoneReady(k.sc.procs)
                then forall s :: 0 <= s < MAX_PROCESSES && s != c ==> r.procs[s] == k.sc.procs[s]
                else EntersNearest(k.sc, r))
  {
    var dead := Killed(k).sc;
    ScanFinds(dead.procs, dead.current);
    ScheduledExact(dead);
    KilledSameReady(k);
  }

  /** A timer tick in user mode, a yield and a call that must wait switch processes; only they, an exit and a spawn
      change the process table. */
  lemma SwitchesExactly(k: Kernel, e: Event)
    requires Inv(k) && Enabled(k, e) && !e.Exit? && !e.Spawn?
    ensures var switches := e.Yield? || (e.Tick? && Here(k).InUser?) ||
                            (e.Continue? && Here(k).AtTest? && Blocked(k, Here(k).call));
            if switches then Switched(k.sc, Step(k, e).sc) else Step(k, e).sc == k.sc
  {
    SchedSwitches(k);
  }

  /** Only the running process moves; in user mode it moves only into a call, and a new process starts in user mode. */
  lemma PlacesKept(k: Kernel, e: Event, s: nat)
    requires Inv(k) && Enabled(k, e) && s < MAX_PROCESSES
    ensures if e.Spawn? && s == FreeSlot(k.sc.procs, 0) then Step(k, e).places[s].InUser?
            else s != k.sc.current || (k.places[s].InUser? && !e.Block?) ==> Step(k, e).places[s] == k.places[s]
  {
  }

  // ----- Inside a call -----

  /** The process in slot `s` is alive and inside the call. */
  ghost predicate InCall(k: Kernel, s: nat, call: Call) {
    Shaped(k) && s < MAX_PROCESSES && k.sc.procs[s].Alive() && !k.places[s].InUser? && k.places[s].call == call
  }

  /** A blocking call enters its loop, at the test, and changes nothing else. */
  lemma BlockEnters(k: Kernel, call: Call)
    requires Inv(k) && Enabled(k, Block(call))
    ensures var r, c := Step(k, Block(call)), k.sc.current;
            && InCall(r, c, call) && r.places[c] == AtTest(call) && r == k.(places := r.places)
            && forall s :: 0 <= s < MAX_PROCESSES && s != c ==> r.places[s] == k.places[s]
  {
  }

  /** The loop: a test that finds the call blocked schedules; a call still blocked when it runs again halts; any
      interrupt ends the halt, and the test is made again. A test that finds it not blocked returns to user mode. */
  lemma LoopGoesRound(k: Kernel, e: Event)
    requires Inv(k) && Enabled(k, e) && !Here(k).InUser?
    ensures var r, call := Step(k, e).places[k.sc.current], Here(k).call;
            match Here(k)
            case AtTest(_) => r == (if Blocked(k, call) then AfterSchedule(call) else InUser)
            case AfterSchedule(_) => r == (if Blocked(k, call) then AtHalt(call) else AtTest(call))
            case AtHalt(_) => (e.Tick? || e.Key?) && r == AfterHalt(call)
            case AfterHalt(_) => r == (if e.Continue? then AtTest(call) else AfterHalt(call))
            case InUser => true
  {
  }

  /** The call of slot `s` returns: its process runs, at the test, and what the call waits for is there. */
  ghost predicate Returns(k: Kernel, e: Event, s: nat, call: Call)
    requires Enabled(k, e)
  {
    && e == Continue && k.sc.current == s && Here(k) == AtTest(call)
    && match call
       case Reading(_) => k.line.complete
       case Waiting(pid) => !k.sc.IsAlive(pid)
  }

  /** A process inside a call stays inside it, with its pid, until the step that returns. */
  lemma StepInCall(k: Kernel, e: Event, s: nat, call: Call)
    requires Inv(k) && Enabled(k, e) && InCall(k, s, call)
    ensures var r := Step(k, e);
            && r.sc.procs[s].pid == k.sc.procs[s].pid && r.sc.procs[s].Alive()
            && (if Returns(k, e, s, call) then r.places[s].InUser? else InCall(r, s, call))
  {
    StepKeepsBlock(k, e, s);
    if Schedules(k, e) {
      ScheduledExact(k.sc);
      if e.Exit? {
        ScanFinds(Killed(k).sc.procs, k.sc.current);
        ScheduledExact(Killed(k).sc);
      }
    }
  }

  // ----- Waiting -----

  /** In some state of the run `pid` is not alive. */
  ghost predicate DeadDuring(k: Kernel, es: seq<Event>, pid: nat)
    requires Possible(k, es)
    decreases |es|
  {
    !k.sc.IsAlive(pid) || (es != [] && DeadDuring(Step(k, es[0]), es[1..], pid))
  }

  /** While `pid` is alive, a process inside a wait for it stays there. */
  lemma {:induction false} WaitHolds(k: Kernel, es: seq<Event>, s: nat, pid: nat)
    requires Inv(k) && Possible(k, es) && InCall(k, s, Waiting(pid))
    ensures InCall(Run(k, es), s, Waiting(pid)) || DeadDuring(k, es, pid)
    decreases |es|
  {
    if es != [] && k.sc.IsAlive(pid) {
      StepKeepsInv(k, es[0]);
      StepInCall(k, es[0], s, Waiting(pid));
      WaitHolds(Step(k, es[0]), es[1..], s, pid);
    }
  }

  /** A process that waits for `pid` is back in user mode only after a state in which `pid` was not alive. */
  lemma WaitBlocks(k: Kernel, es: seq<Event>, pid: nat)
    requires Inv(k) && Enabled(k, Block(Waiting(pid))) && Possible(Step(k, Block(Waiting(pid))), es)
    ensures var w := Step(k, Block(Waiting(pid)));
            Shaped(Run(w, es)) && (Run(w, es).places[k.sc.current].InUser? ==> DeadDuring(w, es, pid))
  {
    var w := Step(k, Block(Waiting(pid)));
    StepKeepsInv(k, Block(Waiting(pid)));
    BlockEnters(k, Waiting(pid));
    RunKeepsInv(w, es);
    WaitHolds(w, es, k.sc.current, pid);
  }

  // ----- Reading -----

  /** What the process `pid` has received. */
  function Received(ds: seq<Delivery>, pid: nat): seq<Delivery> {
    if ds == [] then []
    else Received(ds[..|ds| - 1], pid) + (if ds[|ds| - 1].pid == pid then [ds[|ds| - 1]] else [])
  }

  /** A step that delivers hands the finished line, cut to the room given, to the running reader, and empties the
      line. */
  lemma StepDelivers(k: Kernel, e: Event)
    requires Inv(k) && Enabled(k, e)
    ensures var r := Step(k, e);
            || r.delivered == k.delivered
            || (&& Here(k).AtTest? && Here(k).call.Reading? && Returns(k, e, k.sc.current, Here(k).call)
                && |r.delivered| == |k.delivered| + 1 && r.delivered[..|k.delivered|] == k.delivered
                && r.delivered[|k.delivered|].pid == k.sc.procs[k.sc.current].pid
                && r.delivered[|k.delivered|].max == Here(k).call.max
                && r.delivered[|k.delivered|].text <= k.line.text
                && |r.delivered[|k.delivered|].text| == Min(|k.line.text|, Here(k).call.max)
                && r.line.text == [] && !r.line.complete)
    ensures e == Continue && Here(k).AtTest? && Here(k).call.Reading? && k.line.complete ==>
              Step(k, e).delivered != k.delivered
  {
  }

  function Min(a: nat, b: nat): nat {
    if a < b then a else b
  }

  /** Until the step that returns, a process inside a read receives nothing; with that step it receives one line. */
  lemma StepReceives(k: Kernel, e: Event, s: nat, max: nat)
    requires Inv(k) && Enabled(k, e) && InCall(k, s, Reading(max))
    ensures var r, p := Step(k, e), k.sc.procs[s].pid;
            if Returns(k, e, s, Reading(max)) then Gets(Received(k.delivered, p), Received(r.delivered, p), p, max)
            else Received(r.delivered, p) == Received(k.delivered, p)
  {
    StepDelivers(k, e);
    var r, p := Step(k, e), k.sc.procs[s].pid;
    if r.delivered != k.delivered {
      assert k.sc.current != s ==> k.sc.procs[k.sc.current].pid != p;
    }
  }

  /** One more delivery, to `pid`, of at most `max` bytes. */
  ghost predicate Gets(before: seq<Delivery>, after: seq<Delivery>, pid: nat, max: nat) {
    && |after| == |before| + 1 && after[..|before|] == before
    && after[|before|].pid == pid && after[|before|].max == max && |after[|before|].text| <= max
  }

  /** The process in slot `s` is inside the call before every event of the run, and its last event returns from it. */
  ghost predicate ReturnsLast(k: Kernel, es: seq<Event>, s: nat, call: Call)
    requires Possible(k, es)
    decreases |es|
  {
    && es != [] && InCall(k, s, call)
    && (if |es| == 1 then !InCall(Step(k, es[0]), s, call) else ReturnsLast(Step(k, es[0]), es[1..], s, call))
  }

  /** A read, from entering the call to returning, delivers exactly one line to its process, with the room it gave,
      whatever other processes do and read meanwhile; the line is empty and unfinished when it returns. */
  lemma {:induction false} ReadDelivers(k: Kernel, es: seq<Event>, s: nat, max: nat)
    requires Inv(k) && Possible(k, es) && ReturnsLast(k, es, s, Reading(max))
    ensures var r, p := Run(k, es), k.sc.procs[s].pid;
            && Shaped(r) && r.places[s].InUser? && r.sc.procs[s].pid == p && r.line == Line([], false)
            && Gets(Received(k.delivered, p), Received(r.delivered, p), p, max)
    decreases |es|
  {
    var k' := Step(k, es[0]);
    StepKeepsInv(k, es[0]);
    StepInCall(k, es[0], s, Reading(max));
    StepReceives(k, es[0], s, max);
    if |es| == 1 {
      StepDelivers(k, es[0]);
      assert es[1..] == [];
    } else {
      ReadDelivers(k', es[1..], s, max);
    }
  }

  // ----- What was typed -----

  /** The keys pressed since the last delivery; before the first one, those of `keys` and of the run. */
  ghost function Pending(k: Kernel, es: seq<Event>, keys: seq<Byte>): seq<Byte>
    requires Possible(k, es)
    decreases |es|
  {
    if es == [] then keys
    else
      var r := Step(k, es[0]);
      Pending(r, es[1..], if r.delivered != k.delivered then [] else if es[0].Key? then keys + [es[0].scan] else keys)
  }

  lemma PressOneMore(line: Line, keys: seq<Byte>, scan: Byte)
    requires line.Valid()
    ensures PressAll(line, keys + [scan]) == Press(PressAll(line, keys), scan).0
  {
    assert (keys + [scan])[..|keys|] == keys;
  }

  /** The line is always what typing the keys pressed since the last delivery on an empty line gives. */
  lemma {:induction false} LineFromKeys(k: Kernel, es: seq<Event>, keys: seq<Byte>)
    requires Inv(k) && Possible(k, es) && k.line == PressAll(Line([], false), keys)
    ensures Run(k, es).line == PressAll(Line([], false), Pending(k, es, keys))
    decreases |es|
  {
    if es != [] {
      var r := Step(k, es[0]);
      StepKeepsInv(k, es[0]);
      StepDelivers(k, es[0]);
      if es[0].Key? { PressOneMore(Line([], false), keys, es[0].scan); }
      LineFromKeys(r, es[1..], if r.delivered != k.delivered then []
                               else if es[0].Key? then keys + [es[0].scan] else keys);
    }
  }

  /** So, as long as those keys have no Enter and never filled the line, it holds what their backspaces left. */
  lemma LineIsEdited(k: Kernel, es: seq<Event>, keys: seq<Byte>)
    requires Inv(k) && Possible(k, es) && k.line == PressAll(Line([], false), keys)
    requires NoEnter(Pending(k, es, keys)) && Fits(Pending(k, es, keys))
    ensures Run(k, es).line == Line(Kept(Pending(k, es, keys), 0), false)
  {
    LineFromKeys(k, es, keys);
    TypedIsKept(Pending(k, es, keys));
  }

  /** A line is recorded as typed by the Enter that completes it, as it stands, and by nothing else. */
  lemma EnterRecords(k: Kernel, e: Event)
    requires Inv(k) && Enabled(k, e)
    ensures Step(k, e).typed ==
            if e.Key? && Character(e.scan) == NEWLINE && !k.line.complete then k.typed + [k.line.text] else k.typed
  {
  }
}
