/** Kernel stacks over whole runs: a process that is switched in again finds exactly what it left.

    The run is the one of `Isolation`, with the processor and the saved stack pointers added: physical memory, the page
    directories in it and the frames of all processes are the same. */
module SwitchRuns {
  import opened Bytes
  import opened FrameSets
  import opened Translation
  import opened AddressSpace
  import opened Machine
  import opened Paging
  import opened Loader
  import opened ProcessTable
  import opened ContextSwitch
  import I = Isolation

  const PCB_SIZE: nat := 56
  const ESP_OFFSET: nat := 8

  /** A live process: which one it is, and what it left when it was last switched out - the registers and the stack
      pointer, or the first context if it never ran. */
  datatype Task = Task(who: nat, left: Registers, esp: nat, started: bool)

  /** `tasks` are the live processes by slot of the process table, which lies at address `table`. `image` are the frames
      of the kernel image: its text, its data and the process table, and whatever else the kernel uses. */
  datatype World = World(sys: I.World, regs: Registers, esp: nat, cr3: nat, reserved: set<nat>, image: set<nat>,
                         table: nat, trampoline: Word, current: nat, tasks: map<nat, Task>)

  ghost predicate IsTask(w: World, s: nat) {
    s in w.tasks && s < MAX_PROCESSES && w.tasks[s].who < |w.sys.ps|
  }

  /** The process in slot `s`. */
  function Proc(w: World, s: nat): Process
    requires s in w.tasks && w.tasks[s].who < |w.sys.ps|
  {
    w.sys.ps[w.tasks[s].who]
  }

  function Cpu(w: World): Processor {
    Processor(w.sys.m, w.regs, w.esp, w.cr3)
  }

  /** The address of the stack pointer in the control block of slot `s`. */
  function Field(table: nat, s: nat): nat {
    table + PCB_SIZE * s + ESP_OFFSET
  }

  predicate TablePage(table: nat, f: nat) {
    table / 4096 <= f <= (table + PCB_SIZE * MAX_PROCESSES - 1) / 4096
  }

  /** The process table is aligned and lies in the kernel image. */
  ghost predicate TableInside(table: nat, image: set<nat>) {
    && table % 4 == 0 && table + PCB_SIZE * MAX_PROCESSES <= TWO32
    && (forall f :: TablePage(table, f) ==> f in image) && forall f :: f in image ==> f < MAX_FRAMES
  }

  /** While the process runs, the kernel reaches its stack, its text and its data at their own addresses. */
  ghost predicate Visible(v: View, image: set<nat>, p: Process) {
    Sees(v, p.dir, p.kstack) && SeesAll(v, p.dir, image)
  }

  ghost predicate Laid(w: World) {
    && w.sys.Valid() && I.Ledger(w.sys.v, w.sys.used, w.reserved, w.sys.ps, w.sys.mapped) && w.reserved <= w.sys.used
    && w.image <= w.reserved && TableInside(w.table, w.image)
    && (forall s :: s in w.tasks ==> IsTask(w, s) && Visible(w.sys.v, w.image, Proc(w, s)))
    && (forall s, t :: s in w.tasks && t in w.tasks && s != t ==> w.tasks[s].who != w.tasks[t].who)
    && w.current in w.tasks && w.cr3 == Proc(w, w.current).dir * 4096
  }

  /** What is needed to resume the task is in memory. */
  ghost predicate Suspended(m: Memory, table: nat, trampoline: Word, s: nat, t: Task, p: Process) {
    && p.kstack < MAX_FRAMES && Field(table, s) + 4 <= TWO32
    && InFrame(t.esp, SAVED, p.kstack) && WordAt(m, Field(table, s)) == t.esp && Context(m, t.esp) == t.left
    && (!t.started ==> t.esp == FirstEsp(p.kstack) && Pushed(m, p.kstack, FirstFrame(trampoline)))
  }

  ghost predicate SuspendedAt(w: World, s: nat)
    requires IsTask(w, s)
  {
    Suspended(w.sys.m, w.table, w.trampoline, s, w.tasks[s], Proc(w, s))
  }

  ghost predicate Inv(w: World) {
    Laid(w) && forall s :: s in w.tasks && s != w.current ==> SuspendedAt(w, s)
  }

  /** The saved stack pointers of suspended processes are kept. */
  ghost predicate FieldsKept(w: World, m': Memory) {
    forall s :: s in w.tasks && s != w.current ==> SameBytes(w.sys.m, m', Field(w.table, s), 4)
  }

  // ----- Steps -----

  /** The current process runs: it stores in its own pages, by itself or in a system call, or the kernel changes memory
      of its own, short of the stack pointers it saved. */
  ghost predicate Works(w: World, w': World) {
    && w.current in w.tasks && w' == w.(sys := w'.sys, regs := w'.regs, esp := w'.esp) && w'.sys.Valid()
    && (|| (exists g :: I.StoreStep(w.sys, w'.sys, w.tasks[w.current].who, g))
        || (I.KernelStep(w.sys, w'.sys) && FieldsKept(w, w'.sys.m)))
  }

  /** A new task of process `p`. */
  function NewTask(who: nat, p: Process, trampoline: Word): Task {
    Task(who, FirstContext(trampoline), FirstEsp(p.kstack), false)
  }

  /** A program is loaded: process `p` is built from frames that were free. */
  ghost predicate Loads(w: World, mid: I.World, p: Process, mapped: bool, data: seq<Byte>) {
    && mid.Valid() && FixedKept(w.sys.m, mid.m, w.sys.used) && w.sys.used <= mid.used
    && I.Adds(w.sys, mid, p, mapped, data, w.trampoline)
  }

  /** The control block in slot `s` holds the stack pointer of process `p`, and `w'` lists it there. */
  ghost predicate Enters(w: World, w': World, s: nat, p: Process) {
    && w'.sys.Valid() && Field(w.table, s) + 4 <= TWO32 && WordAt(w'.sys.m, Field(w.table, s)) == FirstEsp(p.kstack)
    && w' == w.(sys := w'.sys, regs := w'.regs, esp := w'.esp,
                tasks := w.tasks[s := NewTask(|w.sys.ps|, p, w.trampoline)])
  }

  /** The current process creates one, in a slot that holds no live one: the program is loaded, which gives `mid`, and
      then the control block is written. */
  ghost predicate Spawns(w: World, mid: I.World, w': World, s: nat, p: Process, mapped: bool, data: seq<Byte>) {
    && s !in w.tasks && s < MAX_PROCESSES && Loads(w, mid, p, mapped, data)
    && I.KernelStep(mid, w'.sys) && FieldsKept(w, w'.sys.m) && Enters(w, w', s, p)
    && Visible(w'.sys.v, w.image, p)
  }

  /** The stack pointer in the control block of slot `s`. */
  function SavedEsp(w: World, s: nat): nat
    requires Field(w.table, s) + 4 <= TWO32
  {
    WordAt(w.sys.m, Field(w.table, s))
  }

  /** The scheduler has called for the switch from the current process to the one in slot `to`. */
  ghost predicate Calls(w: World, to: nat) {
    && IsTask(w, w.current) && IsTask(w, to) && to != w.current && 20 <= w.esp
    && InFrame(w.esp - 20, 36, Proc(w, w.current).kstack) && Field(w.table, to) + 4 <= TWO32
    && Called(Cpu(w), Field(w.table, w.current), SavedEsp(w, to), Proc(w, to).dir * 4096)
  }

  /** What the current process leaves behind. */
  ghost function Leaving(w: World): Task
    requires w.current in w.tasks && 20 <= w.esp && w.esp + 4 <= TWO32
  {
    Task(w.tasks[w.current].who, w.regs.(eip := WordAt(w.sys.m, w.esp)), w.esp - 20, true)
  }

  /** The switch; a process that exits is gone afterwards. */
  ghost predicate Switches(w: World, w': World, to: nat, exits: bool) {
    && Calls(w, to) && w'.sys.Valid() && w'.sys == w.sys.(m := w'.sys.m, v := w'.sys.v)
    && Switched(Cpu(w), Cpu(w'), Field(w.table, w.current), SavedEsp(w, to), Proc(w, to).dir * 4096)
    && w' == World(w'.sys, w'.regs, w'.esp, w'.cr3, w.reserved, w.image, w.table, w.trampoline, to,
                   if exits then w.tasks - {w.current} else w.tasks[w.current := Leaving(w)])
  }

  ghost predicate Step(w: World, w': World) {
    || Works(w, w')
    || (exists mid, s, p, mapped, data :: Spawns(w, mid, w', s, p, mapped, data))
    || exists to, exits :: Switches(w, w', to, exits)
  }

  // ----- Frames that stay apart -----

  /** A word at a multiple of four lies in one frame. */
  lemma AlignedWord(a: nat, b: nat)
    requires a == 4 * b
    ensures a / 4096 == b / 1024 && InFrame(a, 4, a / 4096)
  {
  }

  lemma PagesOrdered(a: nat, b: nat)
    requires a <= b
    ensures a / 4096 <= b / 4096
  {
  }

  lemma FieldInTable(table: nat, image: set<nat>, s: nat)
    requires TableInside(table, image) && s < MAX_PROCESSES
    ensures Field(table, s) + 4 <= TWO32 && InFrame(Field(table, s), 4, Field(table, s) / 4096)
    ensures TablePage(table, Field(table, s) / 4096) && Field(table, s) / 4096 in image
  {
    var a := Field(table, s);
    AlignedWord(a, table / 4 + 14 * s + 2);
    PagesOrdered(table, a);
    PagesOrdered(a, table + PCB_SIZE * MAX_PROCESSES - 1);
  }

  lemma FieldsApart(table: nat, s: nat, t: nat)
    requires s < MAX_PROCESSES && t < MAX_PROCESSES && s != t
    ensures Field(table, s) + 4 <= Field(table, t) || Field(table, t) + 4 <= Field(table, s)
  {
  }

  /** No frame of a process is reserved. */
  lemma NotReserved(w: World, i: nat, f: nat)
    requires Laid(w) && i < |w.sys.ps| && I.FrameOf(w.sys.v, w.sys.ps[i], f)
    ensures f !in w.reserved && f in w.sys.used && f < MAX_FRAMES
  {
    assert I.Resident(w.sys.v, w.sys.used, w.reserved, w.sys.ps[i], w.sys.mapped[i]);
    I.FramesUsed(w.sys.v, w.sys.used, w.reserved, w.sys.ps[i], w.sys.mapped[i], f);
  }

  /** The data frames of one process are not the kernel stack of another. */
  lemma StackApart(w: World, s: nat, t: nat, c: nat)
    requires Laid(w) && s in w.tasks && t in w.tasks && s != t && I.DataFrame(Proc(w, s), c)
    ensures c != Proc(w, t).kstack
  {
    var i, j := w.tasks[s].who, w.tasks[t].who;
    if i < j {
      assert I.Apart(w.sys.v, w.sys.ps[i], w.sys.ps[j]);
    } else {
      assert I.Apart(w.sys.v, w.sys.ps[j], w.sys.ps[i]);
    }
    assert I.FrameOf(w.sys.v, w.sys.ps[i], c);
  }

  lemma StackIsProcess(w: World, s: nat)
    requires Laid(w) && s in w.tasks
    ensures var p := Proc(w, s);
            && p.kstack < MAX_FRAMES && p.kstack !in w.reserved && p.kstack in w.sys.used
            && I.FrameOf(w.sys.v, p, p.kstack) && p.dir < MAX_FRAMES
  {
    assert I.FrameOf(w.sys.v, Proc(w, s), Proc(w, s).kstack) && I.FrameOf(w.sys.v, Proc(w, s), Proc(w, s).dir);
    NotReserved(w, w.tasks[s].who, Proc(w, s).kstack);
    NotReserved(w, w.tasks[s].who, Proc(w, s).dir);
  }

  // ----- What the run keeps of the directories -----

  lemma VisibleKept(v: View, v': View, used: set<nat>, reserved: set<nat>, image: set<nat>, p: Process, mapped: bool)
    requires I.Resident(v, used, reserved, p, mapped) && Visible(v, image, p)
    requires (forall f :: f in image ==> f < MAX_FRAMES) && forall f :: PartOf(v, p.dir, f) ==> SameEntries(v, v', f)
    ensures Visible(v', image, p)
  {
    Untouched(v, v', p.dir, used);
    SamePages(v, v', p.dir);
    assert SamePage(v, v', p.dir, p.kstack);
    forall f | f in image ensures Sees(v', p.dir, f) {
      assert Sees(v, p.dir, f) && SamePage(v, v', p.dir, f);
    }
  }

  /** Steps that change no directory and no page table keep the ledger and what each process's directory shows. */
  lemma SysKept(sys: I.World, sys': I.World, reserved: set<nat>, image: set<nat>)
    requires I.Ledger(sys.v, sys.used, reserved, sys.ps, sys.mapped) && forall f :: f in image ==> f < MAX_FRAMES
    requires I.TablesKept(sys.v, sys'.v, sys.used, sys'.used, sys.ps)
    ensures I.Ledger(sys'.v, sys'.used, reserved, sys.ps, sys.mapped)
    ensures forall i :: 0 <= i < |sys.ps| && Visible(sys.v, image, sys.ps[i]) ==> Visible(sys'.v, image, sys.ps[i])
  {
    I.LedgerKept(sys.v, sys'.v, sys.used, sys'.used, reserved, sys.ps, sys.mapped);
    forall i | 0 <= i < |sys.ps| && Visible(sys.v, image, sys.ps[i]) ensures Visible(sys'.v, image, sys.ps[i]) {
      assert I.Resident(sys.v, sys.used, reserved, sys.ps[i], sys.mapped[i]);
      VisibleKept(sys.v, sys'.v, sys.used, reserved, image, sys.ps[i], sys.mapped[i]);
    }
  }

  // ----- Every step keeps the invariant -----

  lemma PushedSame(m: Memory, m': Memory, f: nat, words: seq<Word>)
    requires Pushed(m, f, words) && SameFrame(m, m', f)
    ensures Pushed(m', f, words)
  {
  }

  lemma StaysSuspended(m: Memory, m': Memory, table: nat, trampoline: Word, s: nat, t: Task, p: Process)
    requires Suspended(m, table, trampoline, s, t, p)
    requires SameFrame(m, m', p.kstack) && SameBytes(m, m', Field(table, s), 4)
    ensures Suspended(m', table, trampoline, s, t, p)
  {
    ContextSame(m, m', t.esp);
    WordSame(m, m', Field(table, s), 4, Field(table, s));
    if !t.started { PushedSame(m, m', p.kstack, FirstFrame(trampoline)); }
  }

  /** A store of the current process leaves the stacks and saved stack pointers of the others alone. */
  lemma StoreLeavesOthers(w: World, sys': I.World, g: nat, s: nat)
    requires Laid(w) && I.StoreStep(w.sys, sys', w.tasks[w.current].who, g) && s in w.tasks && s != w.current
    ensures SameFrame(w.sys.m, sys'.m, Proc(w, s).kstack) && SameBytes(w.sys.m, sys'.m, Field(w.table, s), 4)
  {
    var k := w.tasks[w.current].who;
    var c := I.Behind(w.sys.v, w.sys.ps[k], g);
    I.StoreKeepsTables(w.sys, sys', w.reserved, k, g);
    StackApart(w, w.current, s, c);
    FieldInTable(w.table, w.image, s);
    assert I.FrameOf(w.sys.v, w.sys.ps[k], c);
    NotReserved(w, k, c);
    assert SameFrame(w.sys.m, sys'.m, Field(w.table, s) / 4096);
  }

  lemma KernelLeavesOthers(w: World, sys': I.World, s: nat)
    requires Laid(w) && I.KernelStep(w.sys, sys') && s in w.tasks
    ensures SameFrame(w.sys.m, sys'.m, Proc(w, s).kstack)
  {
    assert I.FrameOf(w.sys.v, Proc(w, s), Proc(w, s).kstack);
  }

  lemma WorkKeepsTables(w: World, w': World)
    requires Laid(w) && Works(w, w')
    ensures I.TablesKept(w.sys.v, w'.sys.v, w.sys.used, w'.sys.used, w.sys.ps)
    ensures w'.sys.ps == w.sys.ps && w'.sys.mapped == w.sys.mapped
  {
    if g :| I.StoreStep(w.sys, w'.sys, w.tasks[w.current].who, g) {
      I.StoreKeepsTables(w.sys, w'.sys, w.reserved, w.tasks[w.current].who, g);
    } else {
      I.KernelKeepsTables(w.sys, w'.sys, w.reserved);
    }
  }

  lemma WorkKeepsTask(w: World, w': World, s: nat)
    requires Inv(w) && Works(w, w') && s in w.tasks && s != w.current && w'.sys.ps == w.sys.ps
    ensures IsTask(w', s) && SuspendedAt(w', s)
  {
    assert SuspendedAt(w, s);
    if g :| I.StoreStep(w.sys, w'.sys, w.tasks[w.current].who, g) {
      StoreLeavesOthers(w, w'.sys, g, s);
    } else {
      KernelLeavesOthers(w, w'.sys, s);
    }
    StaysSuspended(w.sys.m, w'.sys.m, w.table, w.trampoline, s, w.tasks[s], Proc(w, s));
  }

  lemma WorkKeepsInv(w: World, w': World)
    requires Inv(w) && Works(w, w')
    ensures Inv(w')
  {
    WorkKeepsTables(w, w');
    SysKept(w.sys, w'.sys, w.reserved, w.image);
    forall s | s in w'.tasks && s != w'.current ensures SuspendedAt(w', s) { WorkKeepsTask(w, w', s); }
  }

  /** After a spawn the processes are the old ones, as visible as before, and the new one. */
  lemma SpawnKeepsSys(w: World, mid: I.World, w': World, s: nat, p: Process, mapped: bool, data: seq<Byte>)
    requires Laid(w) && Spawns(w, mid, w', s, p, mapped, data)
    ensures I.Ledger(w'.sys.v, w'.sys.used, w.reserved, w'.sys.ps, w'.sys.mapped) && w'.sys.ps == w.sys.ps + [p]
    ensures forall i :: 0 <= i < |w.sys.ps| && Visible(w.sys.v, w.image, w.sys.ps[i]) ==>
                          Visible(w'.sys.v, w.image, w.sys.ps[i])
  {
    assert I.SpawnStep(w.sys, mid);
    I.SpawnKeepsLedger(w.sys, mid, w.reserved);
    I.SpawnKeepsTables(w.sys, mid, w.reserved);
    SysKept(w.sys, mid, w.reserved, w.image);
    I.KernelKeepsTables(mid, w'.sys, w.reserved);
    SysKept(mid, w'.sys, w.reserved, w.image);
    forall i | 0 <= i < |w.sys.ps| ensures mid.ps[i] == w.sys.ps[i] { }
  }

  lemma SpawnLeavesOthers(w: World, mid: I.World, w': World, s: nat, p: Process, mapped: bool, data: seq<Byte>, u: nat)
    requires Laid(w) && Spawns(w, mid, w', s, p, mapped, data) && u in w.tasks
    ensures SameFrame(w.sys.m, w'.sys.m, Proc(w, u).kstack)
  {
    var q := Proc(w, u);
    StackIsProcess(w, u);
    assert SameFrame(w.sys.m, mid.m, q.kstack);
    assert mid.ps[w.tasks[u].who] == q && I.FrameOf(mid.v, q, q.kstack);
    assert SameFrame(mid.m, w'.sys.m, q.kstack);
  }

  lemma SpawnKeepsTask(w: World, mid: I.World, w': World, s: nat, p: Process, mapped: bool, data: seq<Byte>, u: nat)
    requires Inv(w) && Spawns(w, mid, w', s, p, mapped, data) && u in w.tasks && u != w.current
    requires w'.sys.ps == w.sys.ps + [p]
    ensures IsTask(w', u) && SuspendedAt(w', u)
  {
    var q := Proc(w, u);
    assert SuspendedAt(w, u);
    SpawnLeavesOthers(w, mid, w', s, p, mapped, data, u);
    StaysSuspended(w.sys.m, w'.sys.m, w.table, w.trampoline, u, w.tasks[u], q);
  }

  lemma SpawnedSuspended(w: World, mid: I.World, w': World, s: nat, p: Process, mapped: bool, data: seq<Byte>)
    requires Laid(w) && Spawns(w, mid, w', s, p, mapped, data) && w'.sys.ps == w.sys.ps + [p]
    ensures IsTask(w', s) && SuspendedAt(w', s)
  {
    assert mid.ps[|w.sys.ps|] == p && I.FrameOf(mid.v, p, p.kstack);
    PushedSame(mid.m, w'.sys.m, p.kstack, FirstFrame(w.trampoline));
    FirstFrameRead(w'.sys.m, p.kstack, w.trampoline);
  }

  lemma SpawnVisible(w: World, mid: I.World, w': World, s: nat, p: Process, mapped: bool, data: seq<Byte>, u: nat)
    requires Laid(w) && Spawns(w, mid, w', s, p, mapped, data) && u in w'.tasks
    ensures IsTask(w', u) && Visible(w'.sys.v, w'.image, Proc(w', u))
  {
    SpawnKeepsSys(w, mid, w', s, p, mapped, data);
    if u != s { assert IsTask(w, u) && Proc(w', u) == Proc(w, u); }
  }

  lemma SpawnDistinct(w: World, mid: I.World, w': World, s: nat, p: Process, mapped: bool, data: seq<Byte>)
    requires Laid(w) && Spawns(w, mid, w', s, p, mapped, data)
    ensures forall t, u :: t in w'.tasks && u in w'.tasks && t != u ==> w'.tasks[t].who != w'.tasks[u].who
    ensures w'.current in w'.tasks && w'.tasks[w'.current] == w.tasks[w.current]
  {
    forall u | u in w.tasks ensures w.tasks[u].who < |w.sys.ps| { assert IsTask(w, u); }
  }

  lemma SpawnKeepsLaid(w: World, mid: I.World, w': World, s: nat, p: Process, mapped: bool, data: seq<Byte>)
    requires Laid(w) && Spawns(w, mid, w', s, p, mapped, data)
    ensures Laid(w')
  {
    SpawnKeepsSys(w, mid, w', s, p, mapped, data);
    SpawnDistinct(w, mid, w', s, p, mapped, data);
    forall u | u in w'.tasks ensures IsTask(w', u) && Visible(w'.sys.v, w'.image, Proc(w', u)) {
      SpawnVisible(w, mid, w', s, p, mapped, data, u);
    }
  }

  lemma SpawnKeepsInv(w: World, mid: I.World, w': World, s: nat, p: Process, mapped: bool, data: seq<Byte>)
    requires Inv(w) && Spawns(w, mid, w', s, p, mapped, data)
    ensures Inv(w')
  {
    SpawnKeepsSys(w, mid, w', s, p, mapped, data);
    SpawnKeepsLaid(w, mid, w', s, p, mapped, data);
    SpawnedSuspended(w, mid, w', s, p, mapped, data);
    forall u | u in w'.tasks && u != w'.current ensures SuspendedAt(w', u) {
      if u != s { SpawnKeepsTask(w, mid, w', s, p, mapped, data, u); }
    }
  }

  /** What a switch does to memory: it writes the stack and the saved stack pointer of the process that leaves. */
  ghost predicate Writes(w: World, sys': I.World) {
    && IsTask(w, w.current) && 20 <= w.esp && InFrame(w.esp - 20, 20, Proc(w, w.current).kstack)
    && sys'.Valid() && sys' == w.sys.(m := sys'.m, v := sys'.v)
    && SameButTwo(w.sys.m, sys'.m, w.esp - 20, 20, Field(w.table, w.current))
  }

  lemma SwitchWrites(w: World, w': World, to: nat, exits: bool)
    requires Switches(w, w', to, exits)
    ensures Writes(w, w'.sys)
  {
  }

  lemma OtherFrame(m: Memory, m': Memory, a: nat, field: nat, k: nat, g: nat, f: nat)
    requires SameButTwo(m, m', a, 20, field) && InFrame(a, 20, k) && InFrame(field, 4, g) && f != k && f != g
    ensures SameFrame(m, m', f)
  {
    assert f * 4096 + 4096 <= k * 4096 || k * 4096 + 4096 <= f * 4096;
    assert f * 4096 + 4096 <= g * 4096 || g * 4096 + 4096 <= f * 4096;
  }

  lemma OtherField(m: Memory, m': Memory, a: nat, field: nat, k: nat, other: nat, g: nat)
    requires SameButTwo(m, m', a, 20, field) && InFrame(a, 20, k) && InFrame(other, 4, g) && g != k
    requires field + 4 <= other || other + 4 <= field
    ensures SameBytes(m, m', other, 4)
  {
    assert g * 4096 + 4096 <= k * 4096 || k * 4096 + 4096 <= g * 4096;
  }

  /** A switch changes only the stack of the process that leaves and the frame of its saved stack pointer. */
  lemma SwitchTouches(w: World, sys': I.World, f: nat)
    requires Laid(w) && Writes(w, sys') && f != Proc(w, w.current).kstack && f !in w.reserved
    ensures SameFrame(w.sys.m, sys'.m, f)
  {
    var field := Field(w.table, w.current);
    FieldInTable(w.table, w.image, w.current);
    OtherFrame(w.sys.m, sys'.m, w.esp - 20, field, Proc(w, w.current).kstack, field / 4096, f);
  }

  lemma SwitchLeavesOthers(w: World, sys': I.World, s: nat)
    requires Laid(w) && Writes(w, sys') && s in w.tasks && s != w.current
    ensures SameFrame(w.sys.m, sys'.m, Proc(w, s).kstack) && SameBytes(w.sys.m, sys'.m, Field(w.table, s), 4)
  {
    var k, other := Proc(w, w.current).kstack, Field(w.table, s);
    StackIsProcess(w, s);
    StackIsProcess(w, w.current);
    StackApart(w, w.current, s, k);
    SwitchTouches(w, sys', Proc(w, s).kstack);
    FieldsApart(w.table, s, w.current);
    FieldInTable(w.table, w.image, s);
    OtherField(w.sys.m, sys'.m, w.esp - 20, Field(w.table, w.current), k, other, other / 4096);
  }

  lemma SwitchKeepsTables(w: World, sys': I.World)
    requires Laid(w) && Writes(w, sys')
    ensures I.TablesKept(w.sys.v, sys'.v, w.sys.used, sys'.used, w.sys.ps)
  {
    forall i, f | 0 <= i < |w.sys.ps| && PartOf(w.sys.v, w.sys.ps[i].dir, f) ensures SameEntries(w.sys.v, sys'.v, f) {
      assert I.FrameOf(w.sys.v, w.sys.ps[i], f);
      NotReserved(w, i, f);
      I.DataNotTable(w.sys.v, w.sys.used, w.reserved, w.sys.ps, w.sys.mapped, w.tasks[w.current].who,
                     Proc(w, w.current).kstack, i);
      SwitchTouches(w, sys', f);
      SameFrameEntries(w.sys.m, w.sys.v, sys'.m, sys'.v, f);
    }
  }

  /** The process that leaves can be resumed. */
  lemma LeavesSuspended(w: World, w': World, to: nat)
    requires Laid(w) && Switches(w, w', to, false)
    ensures Suspended(w'.sys.m, w.table, w.trampoline, w.current, Leaving(w), Proc(w, w.current))
  {
    StackIsProcess(w, w.current);
  }

  /** The tasks after a switch: the same processes in the same slots, one fewer if the old one exits. */
  ghost predicate Fewer(w: World, w': World) {
    && w'.reserved == w.reserved && w'.image == w.image && w'.table == w.table && w'.trampoline == w.trampoline
    && (forall s :: s in w'.tasks ==> s in w.tasks && w'.tasks[s].who == w.tasks[s].who)
    && forall s :: s in w'.tasks && s != w.current ==> w'.tasks[s] == w.tasks[s]
  }

  lemma SwitchTasks(w: World, w': World, to: nat, exits: bool)
    requires Switches(w, w', to, exits)
    ensures Fewer(w, w') && w'.current == to && to in w'.tasks && w'.cr3 == Proc(w, to).dir * 4096
  {
  }

  lemma FewerLaid(w: World, w': World)
    requires Laid(w) && Writes(w, w'.sys) && Fewer(w, w')
    requires w'.current in w'.tasks && w'.cr3 == Proc(w, w'.current).dir * 4096
    ensures Laid(w')
  {
    SwitchKeepsTables(w, w'.sys);
    SysKept(w.sys, w'.sys, w.reserved, w.image);
    forall s | s in w'.tasks ensures IsTask(w', s) && Visible(w'.sys.v, w'.image, Proc(w', s)) {
      assert IsTask(w, s) && Proc(w', s) == Proc(w, s);
    }
  }

  lemma SwitchKeepsTask(w: World, w': World, s: nat)
    requires Inv(w) && Writes(w, w'.sys) && Fewer(w, w') && s in w'.tasks && s != w.current
    ensures IsTask(w', s) && SuspendedAt(w', s)
  {
    assert SuspendedAt(w, s);
    SwitchLeavesOthers(w, w'.sys, s);
    StaysSuspended(w.sys.m, w'.sys.m, w.table, w.trampoline, s, w.tasks[s], Proc(w, s));
  }

  lemma SwitchKeepsLeaver(w: World, w': World, to: nat, exits: bool)
    requires Laid(w) && Switches(w, w', to, exits) && w.current in w'.tasks
    ensures IsTask(w', w.current) && SuspendedAt(w', w.current)
  {
    LeavesSuspended(w, w', to);
  }

  lemma SwitchKeepsInv(w: World, w': World, to: nat, exits: bool)
    requires Inv(w) && Switches(w, w', to, exits)
    ensures Inv(w')
  {
    SwitchWrites(w, w', to, exits);
    SwitchTasks(w, w', to, exits);
    FewerLaid(w, w');
    if w.current in w'.tasks { SwitchKeepsLeaver(w, w', to, exits); }
    forall s | s in w'.tasks && s != w'.current && s != w.current ensures SuspendedAt(w', s) {
      SwitchKeepsTask(w, w', s);
    }
  }

  lemma StepKeepsInv(w: World, w': World)
    requires Inv(w) && Step(w, w')
    ensures Inv(w')
  {
    if Works(w, w') {
      WorkKeepsInv(w, w');
    } else if mid, s, p, mapped, data :| Spawns(w, mid, w', s, p, mapped, data) {
      SpawnKeepsInv(w, mid, w', s, p, mapped, data);
    } else {
      var to, exits :| Switches(w, w', to, exits);
      SwitchKeepsInv(w, w', to, exits);
    }
  }

  // ----- The switch is possible, and a loaded program is a spawn -----

  lemma FrameOfAddress(d: nat)
    ensures d * 4096 / 4096 == d
  {
  }

  /** Under the directory of any live process the kernel reaches its image, that process's stack and the saved stack
      pointers, and neither the current stack nor they are part of it. */
  lemma DirectoryReaches(w: World, s: nat)
    requires Laid(w) && s in w.tasks
    ensures var d, g := Proc(w, s).dir, Field(w.table, w.current) / 4096;
            && Reachable(w.sys.v, d, Proc(w, s).kstack) && Reachable(w.sys.v, d, g)
            && !PartOf(w.sys.v, d, Proc(w, w.current).kstack) && !PartOf(w.sys.v, d, g)
            && Fetches(w.sys.v, d, w.image)
  {
    StackIsProcess(w, s);
    FieldInTable(w.table, w.image, w.current);
    I.DataNotTable(w.sys.v, w.sys.used, w.reserved, w.sys.ps, w.sys.mapped, w.tasks[w.current].who,
                   Proc(w, w.current).kstack, w.tasks[s].who);
    assert I.Resident(w.sys.v, w.sys.used, w.reserved, Proc(w, s), w.sys.mapped[w.tasks[s].who]);
  }

  /** In every reachable state the switch finds everything it touches at its own address, under the old directory and
      then under the new one. */
  lemma CallReaches(w: World, to: nat)
    requires Inv(w) && Calls(w, to)
    ensures var field := Field(w.table, w.current);
            Reaches(Cpu(w), w.sys.v, w.image, field, SavedEsp(w, to), Proc(w, to).dir * 4096, Proc(w, w.current).kstack,
                    field / 4096, Proc(w, to).kstack)
  {
    assert SuspendedAt(w, to);
    FieldInTable(w.table, w.image, w.current);
    DirectoryReaches(w, w.current);
    DirectoryReaches(w, to);
    FrameOfAddress(Proc(w, w.current).dir);
    FrameOfAddress(Proc(w, to).dir);
  }

  /** The world after the switch that left the processor and the directories in the given state. */
  ghost function SwitchedWorld(w: World, c: Processor, v: View, to: nat, exits: bool): World
    requires w.current in w.tasks && 20 <= w.esp && w.esp + 4 <= TWO32
  {
    World(w.sys.(m := c.mem, v := v), c.regs, c.esp, c.cr3, w.reserved, w.image, w.table, w.trampoline, to,
          if exits then w.tasks - {w.current} else w.tasks[w.current := Leaving(w)])
  }

  /** So the switch that the scheduler calls for is carried out as a switch of the run. */
  method SwitchTo(cpu: Cpu, ghost w: World, ghost to: nat, ghost exits: bool) returns (ghost w': World)
    requires Inv(w) && Calls(w, to) && cpu.State() == Cpu(w) && cpu.view == w.sys.v
    modifies cpu
    ensures Switches(w, w', to, exits) && Inv(w') && cpu.State() == Cpu(w') && cpu.view == w'.sys.v
  {
    CallReaches(w, to);
    cpu.SwitchContext(w.image, Field(w.table, w.current), SavedEsp(w, to), Proc(w, to).dir * 4096,
                      Proc(w, w.current).kstack, Field(w.table, w.current) / 4096, Proc(w, to).kstack);
    w' := SwitchedWorld(w, cpu.State(), cpu.view, to, exits);
    SwitchKeepsInv(w, w', to, exits);
  }

  /** No page of the process hides its kernel stack or the kernel image. */
  ghost predicate Unhidden(p: Process, mapped: bool, image: set<nat>) {
    I.NotHidden(p, mapped, p.kstack) && forall f :: f in image ==> I.NotHidden(p, mapped, f)
  }

  /** A process sees its kernel stack and the kernel image if and only if none of its pages hides one of them. */
  lemma VisibleExactly(v: View, used: set<nat>, reserved: set<nat>, image: set<nat>, p: Process, mapped: bool)
    requires I.Resident(v, used, reserved, p, mapped) && image <= reserved && forall f :: f in image ==> f < MAX_FRAMES
    ensures Visible(v, image, p) <==> Unhidden(p, mapped, image)
  {
    I.StackSeenExactly(v, used, reserved, p, mapped);
    I.ImageSeenExactly(v, used, reserved, p, mapped, image);
  }

  /** In a state of the run, the current process can create another exactly when none of its pages hides a free
      frame. */
  lemma SpawnReady(mc: Machine, w: World)
    requires Laid(w) && mc.frames.Valid() && 0 in mc.frames.used
    requires mc.mem == w.sys.m && mc.view == w.sys.v && mc.frames.used == w.sys.used
    requires mc.cr3 == Proc(w, w.current).dir && mc.kernel == w.image + {Proc(w, w.current).kstack}
    ensures mc.Working(mc.frames.used) <==>
            forall f: nat :: f < MAX_FRAMES && f !in w.sys.used ==>
                               I.NotHidden(Proc(w, w.current), w.sys.mapped[w.tasks[w.current].who], f)
  {
    var i := w.tasks[w.current].who;
    var p, mapped := w.sys.ps[i], w.sys.mapped[i];
    assert I.Resident(w.sys.v, w.sys.used, w.reserved, p, mapped);
    VisibleExactly(w.sys.v, w.sys.used, w.reserved, w.image, p, mapped);
    I.ProcessWorking(mc, w.reserved, w.image, p, mapped);
  }

  /** The bytes of one control block are written. */
  ghost predicate Registered(m: Memory, m': Memory, table: nat, s: nat) {
    SameBut(m, m', table + PCB_SIZE * s, PCB_SIZE)
  }

  lemma RegisterTouches(m: Memory, m': Memory, table: nat, image: set<nat>, s: nat, f: nat)
    requires TableInside(table, image) && s < MAX_PROCESSES && Registered(m, m', table, s) && f !in image
    ensures SameFrame(m, m', f)
  {
    assert !TablePage(table, f);
  }

  lemma RegisterLeavesFields(m: Memory, m': Memory, table: nat, s: nat, t: nat)
    requires s < MAX_PROCESSES && t < MAX_PROCESSES && s != t && Registered(m, m', table, s)
    ensures SameBytes(m, m', Field(table, t), 4)
  {
  }

  /** Writing the control block is a step of the kernel in its own memory. */
  lemma RegisterIsKernelStep(w: World, mid: I.World, sys': I.World, s: nat)
    requires I.Ledger(mid.v, mid.used, w.reserved, mid.ps, mid.mapped) && w.image <= w.reserved
    requires TableInside(w.table, w.image)
    requires s < MAX_PROCESSES && sys' == mid.(m := sys'.m, v := sys'.v) && Registered(mid.m, sys'.m, w.table, s)
    ensures I.KernelStep(mid, sys')
  {
    forall i, f | 0 <= i < |mid.ps| && I.FrameOf(mid.v, mid.ps[i], f) ensures SameFrame(mid.m, sys'.m, f) {
      assert I.Resident(mid.v, mid.used, w.reserved, mid.ps[i], mid.mapped[i]);
      I.FramesUsed(mid.v, mid.used, w.reserved, mid.ps[i], mid.mapped[i], f);
      RegisterTouches(mid.m, sys'.m, w.table, w.image, s, f);
    }
  }

  lemma RegisterKeepsFields(w: World, mid: I.World, m': Memory, s: nat)
    requires Laid(w) && FixedKept(w.sys.m, mid.m, w.sys.used) && s !in w.tasks && s < MAX_PROCESSES
    requires Registered(mid.m, m', w.table, s)
    ensures FieldsKept(w, m')
  {
    forall u | u in w.tasks && u != w.current ensures SameBytes(w.sys.m, m', Field(w.table, u), 4) {
      assert IsTask(w, u);
      FieldInTable(w.table, w.image, u);
      assert SameFrame(w.sys.m, mid.m, Field(w.table, u) / 4096);
      RegisterLeavesFields(mid.m, m', w.table, s, u);
    }
  }

  /** The state in which the scheduler enters the first process, loaded at boot, meets the invariant. */
  lemma StartsInv(boot: I.World, mid: I.World, w: World, p: Process, mapped: bool, data: seq<Byte>)
    requires boot.Valid() && boot.ps == [] && boot.mapped == [] && w.reserved <= boot.used && mid.Valid()
    requires FixedKept(boot.m, mid.m, boot.used) && boot.used <= mid.used
    requires I.Adds(boot, mid, p, mapped, data, w.trampoline) && I.KernelStep(mid, w.sys) && w.sys.Valid()
    requires w.image <= w.reserved && TableInside(w.table, w.image) && Unhidden(p, mapped, w.image)
    requires w.current == 0 && w.tasks == map[0 := NewTask(0, p, w.trampoline)] && w.cr3 == p.dir * 4096
    ensures Inv(w)
  {
    assert I.Ledger(boot.v, boot.used, w.reserved, [], []);
    assert I.SpawnStep(boot, mid);
    I.SpawnKeepsLedger(boot, mid, w.reserved);
    assert mid.ps[0] == p && mid.mapped[0] == mapped;
    NewVisible(mid, w.sys, w.reserved, w.image, 0);
    I.KernelKeepsTables(mid, w.sys, w.reserved);
    SysKept(mid, w.sys, w.reserved, w.image);
  }

  lemma LoadKeepsLedger(w: World, mid: I.World, p: Process, mapped: bool, data: seq<Byte>)
    requires Laid(w) && Loads(w, mid, p, mapped, data)
    ensures I.Ledger(mid.v, mid.used, w.reserved, mid.ps, mid.mapped) && |w.sys.ps| == |w.sys.mapped|
  {
    assert I.SpawnStep(w.sys, mid);
    I.SpawnKeepsLedger(w.sys, mid, w.reserved);
  }

  lemma NewVisible(mid: I.World, sys': I.World, reserved: set<nat>, image: set<nat>, n: nat)
    requires I.Ledger(mid.v, mid.used, reserved, mid.ps, mid.mapped) && mid.Valid() && sys'.Valid() && n < |mid.ps|
    requires I.KernelStep(mid, sys') && image <= reserved && forall f :: f in image ==> f < MAX_FRAMES
    requires Unhidden(mid.ps[n], mid.mapped[n], image)
    ensures Visible(sys'.v, image, mid.ps[n])
  {
    assert I.Resident(mid.v, mid.used, reserved, mid.ps[n], mid.mapped[n]);
    VisibleExactly(mid.v, mid.used, reserved, image, mid.ps[n], mid.mapped[n]);
    I.KernelKeepsTables(mid, sys', reserved);
    VisibleKept(mid.v, sys'.v, mid.used, reserved, image, mid.ps[n], mid.mapped[n]);
  }

  /** A program that was loaded and then entered in the process table is a spawn of this run, provided none of its pages
      hides its kernel stack or the kernel image. `mid` is the state `process_create` leaves when it has loaded the
      program. */
  lemma CreationIsSpawn(w: World, mid: I.World, w': World, s: nat, p: Process, mapped: bool, data: seq<Byte>)
    requires Laid(w) && s !in w.tasks && s < MAX_PROCESSES && Loads(w, mid, p, mapped, data) && Enters(w, w', s, p)
    requires w'.sys == mid.(m := w'.sys.m, v := w'.sys.v) && Registered(mid.m, w'.sys.m, w.table, s)
    requires Unhidden(p, mapped, w.image)
    ensures Spawns(w, mid, w', s, p, mapped, data)
  {
    LoadKeepsLedger(w, mid, p, mapped, data);
    RegisterIsKernelStep(w, mid, w'.sys, s);
    RegisterKeepsFields(w, mid, w'.sys.m, s);
    assert mid.ps[|w.sys.ps|] == p && mid.mapped[|w.sys.ps|] == mapped;
    NewVisible(mid, w'.sys, w.reserved, w.image, |w.sys.ps|);
  }

  // ----- Whole runs -----

  /** The worlds up to the `n`-th are a run from a state that meets the invariant. */
  ghost predicate Run(ws: seq<World>, n: nat)
    requires n < |ws|
  {
    if n == 0 then Inv(ws[0]) else Run(ws, n - 1) && Step(ws[n - 1], ws[n])
  }

  lemma {:induction false} RunKeepsInv(ws: seq<World>, n: nat)
    requires n < |ws| && Run(ws, n)
    ensures Inv(ws[n])
  {
    if n > 0 {
      RunKeepsInv(ws, n - 1);
      StepKeepsInv(ws[n - 1], ws[n]);
    }
  }

  lemma {:induction false} RunInvAt(ws: seq<World>, n: nat, k: nat)
    requires k <= n < |ws| && Run(ws, n)
    ensures Inv(ws[k])
  {
    if k < n { RunInvAt(ws, n - 1, k); } else { RunKeepsInv(ws, n); }
  }

  /** A switch resumes the process with the registers and the stack it left, under its own directory. */
  lemma Resumes(w: World, w': World, to: nat, exits: bool)
    requires Inv(w) && Switches(w, w', to, exits)
    ensures w'.regs == w.tasks[to].left && w'.esp == w.tasks[to].esp + SAVED && w'.cr3 == Proc(w, to).dir * 4096
  {
    assert SuspendedAt(w, to);
    SwitchWrites(w, w', to, exits);
    SwitchLeavesOthers(w, w'.sys, to);
    ContextSame(w.sys.m, w'.sys.m, w.tasks[to].esp);
  }

  /** The process in slot `s` and what it left are the same. */
  ghost predicate SameLeft(w: World, w': World, s: nat) {
    && s in w.tasks && s in w'.tasks && w'.tasks[s] == w.tasks[s] && w'.trampoline == w.trampoline
    && (w.tasks[s].who < |w.sys.ps| ==> w.tasks[s].who < |w'.sys.ps| && Proc(w', s) == Proc(w, s))
  }

  lemma SameLeftTrans(w: World, w1: World, w2: World, s: nat)
    requires SameLeft(w, w1, s) && SameLeft(w1, w2, s)
    ensures SameLeft(w, w2, s)
  {
  }

  lemma SpawnKeepsLeft(w: World, mid: I.World, w': World, u: nat, p: Process, mapped: bool, data: seq<Byte>, s: nat)
    requires Spawns(w, mid, w', u, p, mapped, data) && s in w.tasks
    ensures SameLeft(w, w', s)
  {
  }

  lemma SwitchKeepsLeft(w: World, w': World, to: nat, exits: bool, s: nat)
    requires Switches(w, w', to, exits) && s in w.tasks && s in w'.tasks && s != w.current
    ensures SameLeft(w, w', s)
  {
  }

  lemma StepKeepsLeft(w: World, w': World, s: nat)
    requires Step(w, w') && s in w.tasks && s in w'.tasks && s != w.current
    ensures SameLeft(w, w', s)
  {
    if Works(w, w') {
    } else if mid, u, p, mapped, data :| Spawns(w, mid, w', u, p, mapped, data) {
      SpawnKeepsLeft(w, mid, w', u, p, mapped, data, s);
    } else {
      var to, exits :| Switches(w, w', to, exits);
      SwitchKeepsLeft(w, w', to, exits, s);
    }
  }

  /** From the `i`-th to the `j`-th world slot `s` is live and not current. */
  ghost predicate Away(ws: seq<World>, i: nat, j: nat, s: nat)
    requires i <= j < |ws|
    decreases j - i
  {
    ws[j].current != s && s in ws[j].tasks && (i < j ==> Away(ws, i, j - 1, s))
  }

  /** While a process is away, what it left does not change. */
  lemma {:induction false} LeftStays(ws: seq<World>, i: nat, j: nat, s: nat)
    requires i <= j < |ws| && Run(ws, j) && Away(ws, i, j, s)
    ensures SameLeft(ws[i], ws[j], s)
    decreases j - i
  {
    if i < j {
      LeftStays(ws, i, j - 1, s);
      StepKeepsLeft(ws[j - 1], ws[j], s);
      SameLeftTrans(ws[i], ws[j - 1], ws[j], s);
    }
  }

  /** In `w'` the processor is back where the current process of `w` called the switch: the same flags and registers, at
      the return address, with the stack pointer above it, the process's directory loaded, and the whole stack from the
      return address up as it was. */
  ghost predicate Returned(w: World, w': World) {
    && IsTask(w, w.current) && w.esp + 4 <= TWO32
    && w'.regs == w.regs.(eip := WordAt(w.sys.m, w.esp)) && w'.esp == w.esp + 4
    && w'.cr3 == Proc(w, w.current).dir * 4096
    && SameStack(w.sys.m, w'.sys.m, w.esp, Proc(w, w.current).kstack)
  }

  /** The stack in frame `k` is the same from address `a` up. */
  ghost predicate SameStack(m: Memory, m': Memory, a: nat, k: nat) {
    forall b :: a <= b < k * 4096 + 4096 && b < TWO32 ==> m'[b] == m[b]
  }

  lemma LeavesStack(w: World, w1: World, out: nat)
    requires Laid(w) && Switches(w, w1, out, false)
    ensures SameStack(w.sys.m, w1.sys.m, w.esp, Proc(w, w.current).kstack)
  {
    var k, field := Proc(w, w.current).kstack, Field(w.table, w.current);
    SwitchWrites(w, w1, out, false);
    StackIsProcess(w, w.current);
    FieldInTable(w.table, w.image, w.current);
    FieldOffStack(field, field / 4096, k);
  }

  lemma FieldOffStack(field: nat, g: nat, k: nat)
    requires InFrame(field, 4, g) && g != k
    ensures field + 4 <= k * 4096 || k * 4096 + 4096 <= field
  {
    assert g * 4096 + 4096 <= k * 4096 || k * 4096 + 4096 <= g * 4096;
  }

  lemma SameStackTrans(m: Memory, m1: Memory, m2: Memory, a: nat, k: nat)
    requires SameStack(m, m1, a, k) && SameFrame(m1, m2, k) && k < MAX_FRAMES && k * 4096 <= a
    ensures SameStack(m, m2, a, k)
  {
  }

  /** A step leaves the kernel stacks of the processes that do not run alone. */
  lemma StepKeepsStack(w: World, w': World, s: nat)
    requires Inv(w) && Step(w, w') && s in w.tasks && s != w.current
    ensures SameFrame(w.sys.m, w'.sys.m, Proc(w, s).kstack)
  {
    if Works(w, w') {
      if g :| I.StoreStep(w.sys, w'.sys, w.tasks[w.current].who, g) {
        StoreLeavesOthers(w, w'.sys, g, s);
      } else {
        KernelLeavesOthers(w, w'.sys, s);
      }
    } else if mid, u, p, mapped, data :| Spawns(w, mid, w', u, p, mapped, data) {
      SpawnLeavesOthers(w, mid, w', u, p, mapped, data, s);
    } else {
      var to, exits :| Switches(w, w', to, exits);
      SwitchWrites(w, w', to, exits);
      SwitchLeavesOthers(w, w'.sys, s);
    }
  }

  /** While a process is away, its kernel stack does not change. */
  lemma {:induction false} StackStays(ws: seq<World>, i: nat, j: nat, s: nat, k: nat)
    requires i <= j < |ws| && Run(ws, j) && Away(ws, i, j, s)
    requires s in ws[i].tasks && ws[i].tasks[s].who < |ws[i].sys.ps| && Proc(ws[i], s).kstack == k
    ensures SameFrame(ws[i].sys.m, ws[j].sys.m, k)
    decreases j - i
  {
    if i < j {
      StackStays(ws, i, j - 1, s, k);
      LeftStays(ws, i, j - 1, s);
      RunKeepsInv(ws, j - 1);
      StepKeepsStack(ws[j - 1], ws[j], s);
    }
  }

  /** What a process pushed in one switch is what it pops in another, if what it left is the same. */
  lemma PopsWhatItPushed(w: World, w1: World, w2: World, w': World, out: nat, s: nat, exits: bool)
    requires s == w.current && Laid(w) && Switches(w, w1, out, false) && Inv(w2) && Switches(w2, w', s, exits)
    requires SameLeft(w1, w2, s) && SameFrame(w1.sys.m, w2.sys.m, Proc(w, s).kstack)
    ensures Returned(w, w')
  {
    SwitchTasks(w, w1, out, false);
    Resumes(w2, w', s, exits);
    StackReturned(w, w1, w2, w', out, s, exits);
  }

  lemma StackReturned(w: World, w1: World, w2: World, w': World, out: nat, s: nat, exits: bool)
    requires s == w.current && Laid(w) && Switches(w, w1, out, false) && Inv(w2) && Switches(w2, w', s, exits)
    requires SameLeft(w1, w2, s) && SameFrame(w1.sys.m, w2.sys.m, Proc(w, s).kstack)
    ensures SameStack(w.sys.m, w'.sys.m, w.esp, Proc(w, s).kstack)
  {
    var k := Proc(w, s).kstack;
    StackIsProcess(w, s);
    LeavesStack(w, w1, out);
    SwitchTasks(w, w1, out, false);
    SameStackTrans(w.sys.m, w1.sys.m, w2.sys.m, w.esp, k);
    SwitchWrites(w2, w', s, exits);
    SwitchLeavesOthers(w2, w'.sys, s);
    SameStackTrans(w.sys.m, w2.sys.m, w'.sys.m, w.esp, k);
  }

  lemma LeaverStays(w: World, w1: World, out: nat)
    requires Switches(w, w1, out, false)
    ensures IsTask(w, w.current) && IsTask(w1, w.current) && Proc(w1, w.current) == Proc(w, w.current)
  {
  }

  /** From a switch out to the next switch in. */
  lemma AwayKeeps(ws: seq<World>, h: nat, i: nat, j: nat, out: nat, s: nat)
    requires h + 1 == i <= j < |ws| && Run(ws, j) && s == ws[h].current && Away(ws, i, j, s)
    requires Switches(ws[h], ws[i], out, false)
    ensures Laid(ws[h]) && Inv(ws[j]) && SameLeft(ws[i], ws[j], s)
    ensures SameFrame(ws[i].sys.m, ws[j].sys.m, Proc(ws[h], s).kstack)
  {
    RunInvAt(ws, j, h);
    RunKeepsInv(ws, j);
    LeftStays(ws, i, j, s);
    LeaverStays(ws[h], ws[i], out);
    StackStays(ws, i, j, s, Proc(ws[h], s).kstack);
  }

  /** A process switched out by the step from `h` to `i` and next switched in by the step after `j` goes on with exactly
      the flags, registers and return address it had pushed, its stack pointer just above them and its whole stack as it
      was, whatever ran, was created or exited in between. */
  lemma ResumesWhatItLeft(ws: seq<World>, h: nat, i: nat, j: nat, out: nat, s: nat, exits: bool)
    requires h + 1 == i <= j && j + 1 < |ws| && Run(ws, j) && s == ws[h].current && Away(ws, i, j, s)
    requires Switches(ws[h], ws[i], out, false) && Switches(ws[j], ws[j + 1], s, exits)
    ensures Returned(ws[h], ws[j + 1])
  {
    AwayKeeps(ws, h, i, j, out, s);
    PopsWhatItPushed(ws[h], ws[i], ws[j], ws[j + 1], out, s, exits);
  }

  /** The processor stands at the trampoline, with the interrupt return frame of a new process on top of its stack. */
  ghost predicate AtTrampoline(c: Processor, trampoline: Word, p: Process) {
    && c.regs == FirstContext(trampoline) && c.cr3 == p.dir * 4096 && c.esp + 20 == p.kstack * 4096 + 4096 <= TWO32
    && WordAt(c.mem, c.esp) == 0 && WordAt(c.mem, c.esp + 4) == 0x1B && WordAt(c.mem, c.esp + 8) == 0x0202
    && WordAt(c.mem, c.esp + 12) == 0xC000_0000 && WordAt(c.mem, c.esp + 16) == 0x23
  }

  lemma FirstContextLoaded(c: Processor, trampoline: Word, p: Process)
    requires Pushed(c.mem, p.kstack, FirstFrame(trampoline)) && c.regs == FirstContext(trampoline)
    requires c.cr3 == p.dir * 4096 && c.esp == FirstEsp(p.kstack) + SAVED
    ensures AtTrampoline(c, trampoline, p)
  {
    FirstFrameRead(c.mem, p.kstack, trampoline);
  }

  lemma FirstFrameStays(w: World, w': World, s: nat, exits: bool)
    requires Inv(w) && Switches(w, w', s, exits) && !w.tasks[s].started
    ensures Pushed(w'.sys.m, Proc(w, s).kstack, FirstFrame(w.trampoline))
    ensures w.tasks[s].esp == FirstEsp(Proc(w, s).kstack)
  {
    assert SuspendedAt(w, s);
    SwitchWrites(w, w', s, exits);
    SwitchLeavesOthers(w, w'.sys, s);
    PushedSame(w.sys.m, w'.sys.m, Proc(w, s).kstack, FirstFrame(w.trampoline));
  }

  lemma StartsAtTrampoline(w: World, w': World, s: nat, exits: bool)
    requires Inv(w) && Switches(w, w', s, exits) && !w.tasks[s].started && w.tasks[s].left == FirstContext(w.trampoline)
    ensures AtTrampoline(Cpu(w'), w.trampoline, Proc(w, s))
  {
    Resumes(w, w', s, exits);
    FirstFrameStays(w, w', s, exits);
    FirstContextLoaded(Cpu(w'), w.trampoline, Proc(w, s));
  }

  lemma SpawnedTask(w: World, mid: I.World, w': World, s: nat, p: Process, mapped: bool, data: seq<Byte>)
    requires Spawns(w, mid, w', s, p, mapped, data)
    ensures IsTask(w', s) && Proc(w', s) == p && w'.tasks[s] == NewTask(|w.sys.ps|, p, w.trampoline)
    ensures w'.trampoline == w.trampoline
  {
  }

  /** A process created at step `i` and first switched in at step `j` arrives at the trampoline with the interrupt
      return frame for its first instruction on top of its stack. */
  lemma FirstRunReachesUser(ws: seq<World>, i: nat, j: nat, mid: I.World, s: nat, p: Process, mapped: bool,
                            data: seq<Byte>, exits: bool)
    requires i < j && j + 1 < |ws| && Run(ws, j) && Away(ws, i + 1, j, s)
    requires Spawns(ws[i], mid, ws[i + 1], s, p, mapped, data) && Switches(ws[j], ws[j + 1], s, exits)
    ensures AtTrampoline(Cpu(ws[j + 1]), ws[i].trampoline, p)
  {
    SpawnedTask(ws[i], mid, ws[i + 1], s, p, mapped, data);
    LeftStays(ws, i + 1, j, s);
    RunKeepsInv(ws, j);
    StartsAtTrampoline(ws[j], ws[j + 1], s, exits);
  }
}
