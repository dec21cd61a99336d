/** The kernel as a machine of atomic steps.

    Kernel code runs with interrupts off, so between two points where it can be left - user mode, a call of the
    scheduler, or the halt instruction inside a blocking system call - it is one step. */
module KernelSteps {
  import opened Bytes
  import opened ProcessTable
  import opened LineEditor

  /** Where a process will continue: in user mode, or at one of the points of a blocking loop - its test, just after the
      scheduler call, halted with interrupts on, or woken by an interrupt with interrupts still on. */
  datatype Call = Reading(max: nat) | Waiting(pid: nat)
  datatype Place =
    | InUser
    | AtTest(call: Call)
    | AfterSchedule(call: Call)
    | AtHalt(call: Call)
    | AfterHalt(call: Call)
  {
    /** Interrupts are on. */
    predicate Open() {
      InUser? || AtHalt? || AfterHalt?
    }
  }

  /** A line handed to a reader. */
  datatype Delivery = Delivery(pid: nat, max: nat, text: seq<Byte>)

  /** `typed` are the lines completed so far and `delivered` what readers received. */
  datatype Kernel = Kernel(sc: Sched, places: seq<Place>, halted: bool, line: Line,
                           typed: seq<seq<Byte>>, delivered: seq<Delivery>)

  datatype Event =
    | Tick
    | Key(scan: Byte)
    | Yield
    | Exit
    | Spawn(esp: nat, dir: nat, kstack: nat, name: seq<Byte>)
    | SpawnFails
    | Block(call: Call)
    | Continue

  predicate Shaped(k: Kernel) {
    k.sc.Shaped() && |k.places| == MAX_PROCESSES && k.line.Valid()
  }

  function Here(k: Kernel): Place
    requires Shaped(k) && k.sc.current >= 0
  {
    k.places[k.sc.current]
  }

  /** What can happen: interrupts in user mode or while halted, system calls in user mode, and the kernel going on
      inside a blocking call. A successful spawn needs a free slot. */
  predicate Enabled(k: Kernel, e: Event) {
    && Shaped(k) && !k.halted && k.sc.current >= 0
    && match e
       case Tick => Here(k).Open()
       case Key(_) => Here(k).Open()
       case Continue => Here(k).AtTest? || Here(k).AfterSchedule? || Here(k).AfterHalt?
       case Spawn(_, _, _, _) => Here(k).InUser? && FreeSlot(k.sc.procs, 0) < MAX_PROCESSES
       case _ => Here(k).InUser?
  }

  function At(k: Kernel, place: Place): Kernel
    requires Shaped(k) && k.sc.current >= 0
  {
    k.(places := k.places[k.sc.current := place])
  }

  /** A blocking call goes on waiting while there is no line, or while the process waited for is alive. */
  predicate Blocked(k: Kernel, call: Call) {
    match call
    case Reading(_) => !k.line.complete
    case Waiting(pid) => k.sc.IsAlive(pid)
  }

  /** The call returns to user mode; a reader takes the line. */
  function Return(k: Kernel, call: Call): Kernel
    requires Shaped(k) && k.sc.current >= 0
  {
    match call
    case Reading(max) =>
      At(k, InUser).(line := Line([], false),
                     delivered := k.delivered + [Delivery(k.sc.procs[k.sc.current].pid, max, Delivered(k.line, max))])
    case Waiting(_) => At(k, InUser)
  }

  /** Typing a key, with the completed line recorded. */
  function Typed(k: Kernel, scan: Byte): Kernel
    requires Shaped(k)
  {
    var line := Press(k.line, scan).0;
    k.(line := line, typed := if line.complete && !k.line.complete then k.typed + [line.text] else k.typed)
  }

  function Resched(k: Kernel): Kernel
    requires Shaped(k)
  {
    k.(sc := Scheduled(k.sc))
  }

  /** An interrupt wakes a halted process. More can follow before it turns interrupts off. */
  function Woken(k: Kernel): Kernel
    requires Shaped(k) && k.sc.current >= 0
  {
    if Here(k).AtHalt? then At(k, AfterHalt(Here(k).call)) else k
  }

  function Killed(k: Kernel): Kernel
    requires Shaped(k) && k.sc.current >= 0
  {
    var c := k.sc.current;
    k.(sc := k.sc.(procs := k.sc.procs[c := k.sc.procs[c].(state := Dead)]))
  }

  function Step(k: Kernel, e: Event): (r: Kernel)
    requires Enabled(k, e)
    ensures Shaped(r)
  {
    match e
    case Tick => if Here(k).InUser? then Resched(k) else Woken(k)
    case Key(scan) => Woken(Typed(k, scan))
    case Yield => Resched(k)
    case Exit =>
      var dead := Killed(k);
      if Scan(dead.sc.procs, dead.sc.current, 1) < 0 then dead.(halted := true) else Resched(dead)
    case Spawn(esp, dir, kstack, name) =>
      var slot := FreeSlot(k.sc.procs, 0);
      k.(sc := Created(k.sc, esp, dir, kstack, name), places := k.places[slot := InUser])
    case SpawnFails => k
    case Block(call) => At(k, AtTest(call))
    case Continue =>
      var call := Here(k).call;
      if Here(k).AtTest? then
        if Blocked(k, call) then Resched(At(k, AfterSchedule(call))) else Return(k, call)
      else if Here(k).AfterSchedule? && Blocked(k, call) then At(k, AtHalt(call))
      else At(k, AtTest(call))
  }

  /** The step calls the scheduler. */
  predicate Schedules(k: Kernel, e: Event)
    requires Enabled(k, e)
  {
    match e
    case Tick => Here(k).InUser?
    case Yield => true
    case Exit => true
    case Continue => Here(k).AtTest? && Blocked(k, Here(k).call)
    case _ => false
  }

  // ----- What every step keeps -----

  /** One running process, the current one, with its stack and directory loaded; every other process is ready or dead;
      in a halted system all are dead. */
  ghost predicate OneRunning(k: Kernel)
    requires Shaped(k)
  {
    if k.halted then forall s :: 0 <= s < MAX_PROCESSES ==> k.sc.procs[s].state == Dead
    else
      && k.sc.current >= 0 && k.sc.procs[k.sc.current].state == Running
      && (forall s :: 0 <= s < MAX_PROCESSES && s != k.sc.current ==> k.sc.procs[s].state != Running)
      && k.sc.esp0 == k.sc.procs[k.sc.current].StackTop() && k.sc.cr3 == k.sc.procs[k.sc.current].dir
  }

  /** Every live pid has been handed out, and live ones are unique. */
  ghost predicate PidsUnique(sc: Sched) {
    && |sc.procs| == MAX_PROCESSES
    && (forall s :: 0 <= s < MAX_PROCESSES && sc.procs[s].Alive() ==> 0 < sc.procs[s].pid < sc.nextPid)
    && forall s, t :: 0 <= s < t < MAX_PROCESSES && sc.procs[s].Alive() && sc.procs[t].Alive() ==>
         sc.procs[s].pid != sc.procs[t].pid
  }

  /** Each delivery is the longest prefix of its line that fits, lines go out one each in typing order, and the only
      line completed but not delivered is the one in the buffer. */
  ghost predicate LinesInOrder(k: Kernel) {
    && |k.typed| == |k.delivered| + (if k.line.complete then 1 else 0)
    && (k.line.complete ==> k.typed[|k.delivered|] == k.line.text)
    && forall i :: 0 <= i < |k.delivered| ==>
         k.delivered[i].text == Delivered(Line(k.typed[i], true), k.delivered[i].max)
  }

  /** What holds between any two steps. */
  ghost predicate Inv(k: Kernel) {
    Shaped(k) && OneRunning(k) && PidsUnique(k.sc) && LinesInOrder(k)
  }

  lemma ScheduledOneRunning(sc: Sched)
    requires sc.Shaped() && sc.current >= 0
    requires sc.procs[sc.current].state != Ready
    requires forall s :: 0 <= s < MAX_PROCESSES && s != sc.current ==> sc.procs[s].state != Running
    ensures var r := Scheduled(sc);
            if Scan(sc.procs, sc.current, 1) < 0 then r == sc
            else && r.current >= 0 && r.procs[r.current].state == Running
                 && r.esp0 == r.procs[r.current].StackTop() && r.cr3 == r.procs[r.current].dir
                 && forall s :: 0 <= s < MAX_PROCESSES && s != r.current ==> r.procs[s].state != Running
  {
  }

  lemma ReschedOneRunning(k: Kernel)
    requires Shaped(k) && !k.halted && OneRunning(k)
    ensures OneRunning(Resched(k))
  {
  }

  lemma ExitOneRunning(k: Kernel)
    requires Enabled(k, Exit) && OneRunning(k)
    ensures OneRunning(Step(k, Exit))
  {
    var dead := Killed(k);
    ScanFinds(dead.sc.procs, dead.sc.current);
    ScheduledOneRunning(dead.sc);
  }

  lemma StepOneRunning(k: Kernel, e: Event)
    requires Inv(k) && Enabled(k, e)
    ensures OneRunning(Step(k, e))
  {
    match e
    case Tick => ReschedOneRunning(k);
    case Yield => ReschedOneRunning(k);
    case Exit => ExitOneRunning(k);
    case Continue => ReschedOneRunning(At(k, AfterSchedule(Here(k).call)));
    case _ =>
  }

  /** Slot by slot the pids are the same, and no process came to life. */
  ghost predicate NoneBorn(sc: Sched, r: Sched) {
    && |sc.procs| == |r.procs| == MAX_PROCESSES && r.nextPid == sc.nextPid
    && forall s :: 0 <= s < MAX_PROCESSES ==>
         r.procs[s].pid == sc.procs[s].pid && (r.procs[s].Alive() ==> sc.procs[s].Alive())
  }

  lemma ScheduledNoneBorn(sc: Sched)
    requires sc.Shaped()
    ensures NoneBorn(sc, Scheduled(sc))
  {
    if sc.current >= 0 { ScanFinds(sc.procs, sc.current); }
  }

  lemma NoneBornUnique(sc: Sched, r: Sched)
    requires PidsUnique(sc) && NoneBorn(sc, r)
    ensures PidsUnique(r)
  {
  }

  /** Only a spawn brings a process to life. */
  lemma StepNoneBorn(k: Kernel, e: Event)
    requires Enabled(k, e) && !e.Spawn?
    ensures NoneBorn(k.sc, Step(k, e).sc)
  {
    ScheduledNoneBorn(k.sc);
    if e.Exit? { ScheduledNoneBorn(Killed(k).sc); }
  }

  lemma CreatedUnique(sc: Sched, esp: nat, dir: nat, kstack: nat, name: seq<Byte>)
    requires sc.Shaped() && PidsUnique(sc) && sc.nextPid > 0 && FreeSlot(sc.procs, 0) < MAX_PROCESSES
    ensures PidsUnique(Created(sc, esp, dir, kstack, name))
  {
  }

  lemma StepPidsUnique(k: Kernel, e: Event)
    requires Inv(k) && Enabled(k, e)
    ensures PidsUnique(Step(k, e).sc)
  {
    if e.Spawn? {
      CreatedUnique(k.sc, e.esp, e.dir, e.kstack, e.name);
    } else {
      StepNoneBorn(k, e);
      NoneBornUnique(k.sc, Step(k, e).sc);
    }
  }

  lemma StepLinesInOrder(k: Kernel, e: Event)
    requires Inv(k) && Enabled(k, e)
    ensures LinesInOrder(Step(k, e))
  {
  }

  /** Every step keeps the invariant. */
  lemma StepKeepsInv(k: Kernel, e: Event)
    requires Inv(k) && Enabled(k, e)
    ensures Inv(Step(k, e))
  {
    StepOneRunning(k, e);
    StepPidsUnique(k, e);
    StepLinesInOrder(k, e);
  }
}
