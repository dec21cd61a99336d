/** Creating a process from a file of the mounted image. */
module ProcessCreate {
  import opened Bytes
  import opened FrameSets
  import opened Translation
  import opened Machine
  import opened Loader
  import opened SofsImage
  import opened SofsDriver
  import opened ProcessTable
  import opened ContextSwitch
  import S = Scheduler
  import I = Isolation
  import R = SwitchRuns

  /** The image of `files` is mounted: it sits in used frames the kernel reads at their own addresses. */
  ghost predicate Mounted(fs: FsInstance, m: Memory, v: View, cr3: nat, used: set<nat>, image: seq<Byte>,
                          files: seq<File>)
    reads fs
  {
    && 0 < fs.base == fs.header && fs.entries == fs.base + HEADER_SIZE && fs.base + |image| < TWO32
    && SourceOk(m, v, cr3, used, fs.base, image) && Layout(image, files) && NamesPlain(files)
  }

  /** A file of the mounted image can be loaded from where the driver says it is. */
  lemma FileSource(fs: FsInstance, m: Memory, v: View, cr3: nat, used: set<nat>, image: seq<Byte>,
                   files: seq<File>, k: nat)
    requires Mounted(fs, m, v, cr3, used, image, files) && k < |files|
    ensures fs.entries + ENTRY_SIZE * (k + 1) <= |m| && fs.FileSize(m, k) == |files[k].data|
    ensures SourceOk(m, v, cr3, used, fs.FileData(m, k), files[k].data)
  {
    assert Holds(m, fs.base, image);
    ContentsReadBack(m, fs, image, files, k);
    assert EntryHolds(image, files, k) && DataHolds(image, files, k);
    EntryReadBack(m, fs.base, image, files, k);
    ExtentBefore(files, k, |files|);
  }

  /** The frames a program of `size` bytes needs, without the table for its stack. */
  function FramesFor(size: nat): nat {
    3 + PagesOf(size) + TablesFor(PagesOf(size))
  }

  /** Slot `s` holds process `p`, ready to run under its own directory and on its own kernel stack. */
  ghost predicate HoldsProcess(procs: seq<Pcb>, s: nat, pid: int, p: Process) {
    && s < |procs| == MAX_PROCESSES && procs[s].pid == pid && procs[s].state == Ready
    && procs[s].esp == FirstEsp(p.kstack) && procs[s].dir == p.dir * 4096 && procs[s].kstack == p.kstack * 4096
  }

  /** Entering that slot loads the address space built from the file, and the end of the process's kernel stack. */
  lemma EnteredSpace(m: Memory, v: View, used: set<nat>, fixed: set<nat>, data: seq<Byte>, p: Process, mapped: bool,
                     trampoline: Word, procs: seq<Pcb>, s: nat, pid: int, r: Sched)
    requires Built(m, v, used, fixed, data, p, mapped, trampoline) && HoldsProcess(procs, s, pid, p)
    requires Entered(procs, r, s)
    ensures r.cr3 == p.dir * 4096 && Space(v, r.cr3 / 4096, p.code, if mapped then p.stack else -1)
    ensures r.esp0 == p.kstack * 4096 + 4096
  {
  }

  /** Finds the first file called `name` and where its contents are. */
  method FindProgram(fs: FsInstance, m: Memory, name: seq<Byte>, ghost v: View, ghost cr3: nat, ghost used: set<nat>,
                     ghost image: seq<Byte>, ghost files: seq<File>)
    returns (k: int, prog: nat, size: nat)
    requires NoNul(name) && Mounted(fs, m, v, cr3, used, image, files)
    ensures FirstNamed(StoredNames(files), name, k)
    ensures k >= 0 ==> k < |files| && size == |files[k].data| && SourceOk(m, v, cr3, used, prog, files[k].data)
  {
    ImageIsDirectory(m, fs.base, image, files);
    k := fs.Find(m, name, StoredNames(files));
    prog, size := 0, 0;
    if k >= 0 {
      FileSource(fs, m, v, cr3, used, image, files, k);
      prog, size := fs.FileData(m, k), fs.FileSize(m, k);
    }
  }

  /** Creates a process from the first file called `name`. It fails exactly when the table is full, there is no such
      file or too few frames are free, and then the process table is as before; a full table or a missing file takes no
      frames either. */
  method ProcessCreate(sc: S.Scheduler, fs: FsInstance, mc: Machine, name: seq<Byte>, trampoline: Word,
                       ghost image: seq<Byte>, ghost files: seq<File>)
    returns (pid: int, ghost k: int, ghost p: Process, ghost mapped: bool)
    requires sc.Value().Shaped() && NoNul(name) && mc.Working(mc.frames.used)
    requires Mounted(fs, mc.mem, mc.view, mc.cr3, mc.frames.used, image, files)
    modifies sc`procs, sc`nextPid, mc`mem, mc`view, mc.frames`usedCount, mc.frames`used, mc.frames.bitmap
    ensures FreeSlot(old(sc.procs), 0) < MAX_PROCESSES ==> FirstNamed(StoredNames(files), name, k)
    ensures pid < 0 <==> FreeSlot(old(sc.procs), 0) == MAX_PROCESSES || k < 0 ||
                         |old(mc.frames.used)| + FramesFor(|files[k].data|) > MAX_FRAMES
    ensures pid < 0 ==> sc.Value() == old(sc.Value())
    ensures FreeSlot(old(sc.procs), 0) == MAX_PROCESSES || k < 0 ==>
              mc.mem == old(mc.mem) && mc.frames.used == old(mc.frames.used)
    ensures mc.Working(old(mc.frames.used)) && FixedKept(old(mc.mem), mc.mem, old(mc.frames.used))
    ensures pid >= 0 ==>
              && pid == old(sc.nextPid) && HoldsProcess(sc.procs, FreeSlot(old(sc.procs), 0), pid, p)
              && (forall s :: 0 <= s < MAX_PROCESSES && s != FreeSlot(old(sc.procs), 0) ==>
                    sc.procs[s] == old(sc.procs)[s])
              && sc.Value() == Created(old(sc.Value()), FirstEsp(p.kstack), p.dir * 4096, p.kstack * 4096, name)
              && Built(mc.mem, mc.view, mc.frames.used, old(mc.frames.used), files[k].data, p, mapped, trampoline)
              && (mapped <==> |old(mc.frames.used)| + 1 + FramesFor(|files[k].data|) <= MAX_FRAMES)
  {
    k, p, mapped := -1, Process(0, 0, [], 0), false;
    var slot := sc.FindFreeSlot();
    if slot == MAX_PROCESSES { return -1, k, p, mapped; }
    var index, prog, size := FindProgram(fs, mc.mem, name, mc.view, mc.cr3, mc.frames.used, image, files);
    k := index;
    if index < 0 { return -1, k, p, mapped; }
    var r;
    r, p, mapped := LoadProcess(mc, prog, size, trampoline, files[k].data);
    if r.NoMemory? { return -1, k, p, mapped; }
    pid := sc.Register(slot, r.kstack * 4096 + r.sp * 4, r.dir * 4096, r.kstack * 4096, name);
  }

  /** A process created in state `w` of a run of switches is loaded as the run's spawns require; entering it in the
      process table then makes it a spawn of the run. */
  method SpawnProcess(sc: S.Scheduler, fs: FsInstance, mc: Machine, name: seq<Byte>, trampoline: Word,
                      ghost w: R.World, ghost image: seq<Byte>, ghost files: seq<File>)
    returns (pid: int, ghost p: Process, ghost mapped: bool, ghost data: seq<Byte>)
    requires sc.Value().Shaped() && NoNul(name) && mc.Working(mc.frames.used)
    requires Mounted(fs, mc.mem, mc.view, mc.cr3, mc.frames.used, image, files)
    requires w.trampoline == trampoline && w.sys.m == mc.mem && w.sys.v == mc.view && w.sys.used == mc.frames.used
    modifies sc`procs, sc`nextPid, mc`mem, mc`view, mc.frames`usedCount, mc.frames`used, mc.frames.bitmap
    ensures pid < 0 ==> sc.Value() == old(sc.Value())
    ensures pid >= 0 ==>
              && FreeSlot(old(sc.procs), 0) < |sc.procs|
              && sc.procs[FreeSlot(old(sc.procs), 0)].esp == FirstEsp(p.kstack)
              && R.Loads(w, I.World(mc.mem, mc.view, mc.frames.used, w.sys.ps + [p], w.sys.mapped + [mapped]), p,
                         mapped, data)
  {
    ghost var k;
    pid, k, p, mapped := ProcessCreate(sc, fs, mc, name, trampoline, image, files);
    data := if pid >= 0 then files[k].data else [];
    assert pid >= 0 ==> I.Adds(w.sys, I.World(mc.mem, mc.view, mc.frames.used, w.sys.ps + [p], w.sys.mapped + [mapped]),
                               p, mapped, data, w.trampoline);
  }
}
