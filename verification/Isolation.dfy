/** What a built address space shows the program, and how the address spaces of all processes stay apart. */
module Isolation {
  import opened Bytes
  import opened FrameSets
  import opened Translation
  import opened AddressSpace
  import opened Machine
  import opened Paging
  import opened Loader

  lemma ProgramPage(m: Memory, v: View, used: set<nat>, fixed: set<nat>, data: seq<Byte>, p: Process, mapped: bool,
                    trampoline: Word, q: nat, o: nat)
    requires Built(m, v, used, fixed, data, p, mapped, trampoline) && q < PagesOf(|data|) && o < 4096
    ensures p.code[q] < MAX_FRAMES && PageAt(v, p.dir, q) == UserPage(p.code[q])
    ensures FrameByte(m, p.code[q], o) == ByteOf(data, q * 4096 + o)
  {
    var all := p.code + [p.stack];
    assert PageIs(v, p.dir, p.code, if mapped then p.stack else -1, q);
    assert CodePageOk(m, v, p.dir, used, fixed, data, all, q);
    assert all[q] == p.code[q];
  }

  /** The program reads back its file from address zero on, then zeros to the end of its last page, through pages it
      may write. */
  lemma ProgramVisible(m: Memory, v: View, used: set<nat>, fixed: set<nat>, data: seq<Byte>, p: Process, mapped: bool,
                       trampoline: Word, i: nat, j: nat, o: nat)
    requires Built(m, v, used, fixed, data, p, mapped, trampoline)
    requires i < 1024 && j < 1024 && o < 4096 && i * 1024 + j < PagesOf(|data|)
    ensures var t, a := Translate(v, p.dir, i, j, o), VirtualAddress(i, j, o);
            && t.Mapped? && t.user && t.write && t.phys < TWO32
            && m[t.phys] == if a < |data| then data[a] else 0
  {
    ProgramPage(m, v, used, fixed, data, p, mapped, trampoline, i * 1024 + j, o);
    OffsetPassesThrough(v, p.dir, i, j, o);
  }

  /** If the stack was mapped, the page below 0xC0000000 is the process's own and reads as zeros. */
  lemma StackVisible(m: Memory, v: View, used: set<nat>, fixed: set<nat>, data: seq<Byte>, p: Process,
                     trampoline: Word, o: nat)
    requires Built(m, v, used, fixed, data, p, true, trampoline) && o < 4096
    ensures var t := Translate(v, p.dir, 767, 1023, o);
            t == Mapped(p.stack * 4096 + o, true, true) && t.phys < TWO32 && m[t.phys] == 0
    ensures VirtualAddress(767, 1023, 4096) == 0xC000_0000
  {
    OffsetPassesThrough(v, p.dir, 767, 1023, o);
    assert PageIs(v, p.dir, p.code, p.stack, STACK_PAGE);
    var n := |p.code|;
    assert CodePageOk(m, v, p.dir, used, fixed, data, p.code + [p.stack], n);
    assert FrameByte(m, p.stack, o) == ByteOf(data, n * 4096 + o);
  }

  /** Every other address is mapped to itself and closed to user mode. */
  lemma KernelElsewhere(v: View, d: nat, code: seq<nat>, stack: int, i: nat, j: nat, o: nat)
    requires Space(v, d, code, stack) && i < 1024 && j < 1024 && o < 4096
    requires i * 1024 + j >= |code| && (stack < 0 || i * 1024 + j != STACK_PAGE)
    ensures Translate(v, d, i, j, o) == Mapped(VirtualAddress(i, j, o), false, true)
  {
    OffsetPassesThrough(v, d, i, j, o);
    assert PageIs(v, d, code, stack, i * 1024 + j);
  }

  /** While a process runs, the kernel reaches frame `f` at its own address exactly when no page of the process hides
      it: page `f` is not a user page, or happens to be mapped to itself. */
  lemma ShadowExact(v: View, d: nat, code: seq<nat>, stack: int, f: nat)
    requires Space(v, d, code, stack) && f < MAX_FRAMES
    ensures Sees(v, d, f) <==> if f < |code| then code[f] == f else f == STACK_PAGE && stack >= 0 ==> stack == f
  {
    assert PageIs(v, d, code, stack, f);
  }

  /** Frame `f` belongs to process `p`. */
  ghost predicate FrameOf(v: View, p: Process, f: nat) {
    f == p.kstack || f == p.dir || f == p.stack || f in p.code || Owns(v, p.dir, f)
  }

  /** The frames of a process are used, not reserved, and play one part each; its address space is as built. */
  ghost predicate Resident(v: View, used: set<nat>, reserved: set<nat>, p: Process, mapped: bool) {
    && UnderConstruction(v, p.dir, used, reserved)
    && Private(v, p.dir, used, reserved, p.kstack) && Private(v, p.dir, used, reserved, p.stack)
    && (forall k :: 0 <= k < |p.code| ==> Private(v, p.dir, used, reserved, p.code[k]))
    && (forall k, l :: 0 <= k < l < |p.code| ==> p.code[k] != p.code[l])
    && p.kstack !in p.code && p.stack !in p.code && p.kstack != p.stack
    && Space(v, p.dir, p.code, if mapped then p.stack else -1)
  }

  ghost predicate Apart(v: View, p: Process, q: Process) {
    forall f :: FrameOf(v, p, f) ==> !FrameOf(v, q, f)
  }

  /** All processes ever created: each resident, no two sharing a frame, none touching a reserved frame. */
  ghost predicate Ledger(v: View, used: set<nat>, reserved: set<nat>, ps: seq<Process>, mapped: seq<bool>) {
    && |ps| == |mapped|
    && (forall i :: 0 <= i < |ps| ==> Resident(v, used, reserved, ps[i], mapped[i]))
    && forall i, j :: 0 <= i < j < |ps| ==> Apart(v, ps[i], ps[j])
  }

  lemma BuiltResident(m: Memory, v: View, used: set<nat>, fixed: set<nat>, data: seq<Byte>, p: Process,
                      mapped: bool, trampoline: Word)
    requires Built(m, v, used, fixed, data, p, mapped, trampoline)
    ensures Resident(v, used, fixed, p, mapped)
  {
    var all := p.code + [p.stack];
    forall k | 0 <= k < |all| ensures Private(v, p.dir, used, fixed, all[k]) {
      assert CodePageOk(m, v, p.dir, used, fixed, data, all, k);
    }
    assert all[|p.code|] == p.stack;
    forall k | 0 <= k < |p.code| ensures Private(v, p.dir, used, fixed, p.code[k]) && p.code[k] != p.stack {
      assert all[k] == p.code[k];
    }
    forall k, l | 0 <= k < l < |p.code| ensures p.code[k] != p.code[l] {
      assert all[k] == p.code[k] && all[l] == p.code[l];
    }
  }

  lemma FramesUsed(v: View, used: set<nat>, reserved: set<nat>, p: Process, mapped: bool, f: nat)
    requires Resident(v, used, reserved, p, mapped) && FrameOf(v, p, f)
    ensures f in used && f !in reserved
  {
    if f in p.code {
      var k :| 0 <= k < |p.code| && p.code[k] == f;
    } else if Owns(v, p.dir, f) {
      OwnedUsed(v, p.dir, used, f);
    }
  }

  /** A process whose directory and tables did not change is still resident, with the same frames and the same space. */
  lemma ResidentKept(v: View, v': View, used: set<nat>, more: set<nat>, reserved: set<nat>, p: Process, mapped: bool)
    requires Resident(v, used, reserved, p, mapped) && used <= more
    requires forall f :: PartOf(v, p.dir, f) ==> SameEntries(v, v', f)
    ensures Resident(v', more, reserved, p, mapped) && forall f :: FrameOf(v', p, f) <==> FrameOf(v, p, f)
  {
    Untouched(v, v', p.dir, used);
    DirectoryGrows(v', p.dir, used, more);
    assert PartOf(v, p.dir, p.dir);
    SameOwners(v, v', p.dir);
    SamePages(v, v', p.dir);
    SpaceKept(v, v', p.dir, p.code, if mapped then p.stack else -1);
    forall k | 0 <= k < |p.code| ensures Private(v', p.dir, more, reserved, p.code[k]) {
      assert Private(v, p.dir, used, reserved, p.code[k]);
    }
  }

  /** A reserved set can only shrink to a smaller one. */
  lemma ResidentFewerReserved(v: View, used: set<nat>, fixed: set<nat>, reserved: set<nat>, p: Process, mapped: bool)
    requires Resident(v, used, fixed, p, mapped) && reserved <= fixed
    ensures Resident(v, used, reserved, p, mapped)
  {
  }

  /** Used frames stay used, and no directory or page table of any process changed. */
  ghost predicate TablesKept(v: View, v': View, used: set<nat>, more: set<nat>, ps: seq<Process>) {
    && used <= more
    && forall i, f :: 0 <= i < |ps| && PartOf(v, ps[i].dir, f) ==> SameEntries(v, v', f)
  }

  /** What changes no directory and no page table keeps the ledger. */
  lemma LedgerKept(v: View, v': View, used: set<nat>, more: set<nat>, reserved: set<nat>, ps: seq<Process>,
                   mapped: seq<bool>)
    requires Ledger(v, used, reserved, ps, mapped) && TablesKept(v, v', used, more, ps)
    ensures Ledger(v', more, reserved, ps, mapped)
    ensures forall i, f :: 0 <= i < |ps| ==> (FrameOf(v', ps[i], f) <==> FrameOf(v, ps[i], f))
  {
    forall i | 0 <= i < |ps|
      ensures Resident(v', more, reserved, ps[i], mapped[i])
      ensures forall f :: FrameOf(v', ps[i], f) <==> FrameOf(v, ps[i], f)
    {
      ResidentKept(v, v', used, more, reserved, ps[i], mapped[i]);
    }
    forall i, j | 0 <= i < j < |ps| ensures Apart(v', ps[i], ps[j]) { assert Apart(v, ps[i], ps[j]); }
  }

  /** If no used frame changed, no table did. */
  lemma UsedKept(v: View, v': View, used: set<nat>, more: set<nat>, reserved: set<nat>, ps: seq<Process>,
                 mapped: seq<bool>)
    requires Ledger(v, used, reserved, ps, mapped) && used <= more && forall f :: f in used ==> SameEntries(v, v', f)
    ensures TablesKept(v, v', used, more, ps)
  {
    forall i, f | 0 <= i < |ps| && PartOf(v, ps[i].dir, f) ensures SameEntries(v, v', f) {
      assert Resident(v, used, reserved, ps[i], mapped[i]);
      PartUsed(v, ps[i].dir, used);
    }
  }

  /** Adding a process built from frames that were free keeps the ledger. */
  lemma LedgerGrows(v: View, v': View, used: set<nat>, more: set<nat>, reserved: set<nat>, ps: seq<Process>,
                    mapped: seq<bool>, p: Process, stackMapped: bool)
    requires Ledger(v, used, reserved, ps, mapped) && TablesKept(v, v', used, more, ps) && reserved <= used
    requires Resident(v', more, used, p, stackMapped)
    ensures Ledger(v', more, reserved, ps + [p], mapped + [stackMapped])
  {
    LedgerKept(v, v', used, more, reserved, ps, mapped);
    ResidentFewerReserved(v', more, used, reserved, p, stackMapped);
    var all, maps := ps + [p], mapped + [stackMapped];
    forall i | 0 <= i < |all| ensures Resident(v', more, reserved, all[i], maps[i]) {
      if i < |ps| { assert Resident(v', more, reserved, ps[i], mapped[i]); }
    }
    forall i, j | 0 <= i < j < |all| ensures Apart(v', all[i], all[j]) {
      if j < |ps| {
        assert Apart(v', ps[i], ps[j]);
      } else {
        NewApart(v, v', used, more, reserved, ps[i], mapped[i], p, stackMapped);
      }
    }
  }

  lemma NewApart(v: View, v': View, used: set<nat>, more: set<nat>, reserved: set<nat>, q: Process, qMapped: bool,
                 p: Process, stackMapped: bool)
    requires Resident(v, used, reserved, q, qMapped) && forall f :: FrameOf(v', q, f) <==> FrameOf(v, q, f)
    requires Resident(v', more, used, p, stackMapped)
    ensures Apart(v', q, p)
  {
    forall f | FrameOf(v', q, f) ensures !FrameOf(v', p, f) {
      FramesUsed(v, used, reserved, q, qMapped, f);
      if FrameOf(v', p, f) { FramesUsed(v', more, used, p, stackMapped, f); }
    }
  }

  /** Frame `c` holds data of some process: program, user stack or kernel stack. */
  ghost predicate DataFrame(p: Process, c: nat) {
    c == p.kstack || c == p.stack || c in p.code
  }

  lemma DataFrameApart(v: View, used: set<nat>, reserved: set<nat>, p: Process, mapped: bool, c: nat)
    requires Resident(v, used, reserved, p, mapped) && DataFrame(p, c)
    ensures c != p.dir && !Owns(v, p.dir, c) && FrameOf(v, p, c)
  {
  }

  lemma DataNotTable(v: View, used: set<nat>, reserved: set<nat>, ps: seq<Process>, mapped: seq<bool>, k: nat, c: nat,
                     i: nat)
    requires Ledger(v, used, reserved, ps, mapped) && k < |ps| && i < |ps| && DataFrame(ps[k], c)
    ensures !PartOf(v, ps[i].dir, c)
  {
    DataFrameApart(v, used, reserved, ps[k], mapped[k], c);
    if i < k { assert Apart(v, ps[i], ps[k]); } else if i > k { assert Apart(v, ps[k], ps[i]); }
    if PartOf(v, ps[i].dir, c) { assert FrameOf(v, ps[i], c); }
  }

  /** A process writing its own data frames changes no address space, its own or another's. */
  lemma WriteKeepsTables(m: Memory, v: View, m': Memory, v': View, used: set<nat>, reserved: set<nat>,
                         ps: seq<Process>, mapped: seq<bool>, k: nat, c: nat)
    requires Ledger(v, used, reserved, ps, mapped) && k < |ps| && DataFrame(ps[k], c) && Elsewhere(m, v, m', v', c)
    ensures TablesKept(v, v', used, used, ps)
  {
    forall i, f | 0 <= i < |ps| && PartOf(v, ps[i].dir, f) ensures SameEntries(v, v', f) {
      DataNotTable(v, used, reserved, ps, mapped, k, c, i);
    }
  }

  /** User mode can write no frame but the process's own program and stack frames. */
  lemma UserStoreStaysHome(v: View, d: nat, code: seq<nat>, stack: int, i: nat, j: nat, o: nat)
    requires Space(v, d, code, stack) && i < 1024 && j < 1024 && o < 4096
    requires var t := Translate(v, d, i, j, o); t.Mapped? && t.user
    ensures var f := Translate(v, d, i, j, o).phys / 4096; f in code || f == stack
  {
    OffsetPassesThrough(v, d, i, j, o);
    assert PageIs(v, d, code, stack, i * 1024 + j);
  }

  // ----- Stores at addresses a process gives -----

  /** Page `g` is one of the process's own: of its program, its stack, or a data frame reached at its own address. */
  predicate OwnPage(p: Process, mapped: bool, g: nat) {
    g < |p.code| || (mapped && g == STACK_PAGE) || g == p.kstack || g == p.stack || g in p.code
  }

  /** The frame that a store in page `g` reaches while the process runs. */
  function Behind(v: View, p: Process, g: nat): nat {
    var t := PageAt(v, p.dir, g);
    if t.Mapped? then t.phys / 4096 else 0
  }

  /** A system call stores through the caller's directory at an address the caller gives, and the kernel may write
      every page of it. The store stays in the process's own data if and only if the page is one of its own. */
  lemma StoreExact(v: View, used: set<nat>, reserved: set<nat>, p: Process, mapped: bool, g: nat)
    requires Resident(v, used, reserved, p, mapped) && g < MAX_FRAMES
    ensures PageAt(v, p.dir, g).Mapped? && PageAt(v, p.dir, g).write
    ensures DataFrame(p, Behind(v, p, g)) <==> OwnPage(p, mapped, g)
  {
    assert PageIs(v, p.dir, p.code, if mapped then p.stack else -1, g);
  }

  /** Another process's directory is such a page that is not its own: the kernel writes it in place. */
  lemma OtherDirectoryReached(v: View, used: set<nat>, reserved: set<nat>, ps: seq<Process>, mapped: seq<bool>, i: nat,
                              j: nat)
    requires Ledger(v, used, reserved, ps, mapped) && i < |ps| && j < |ps| && i != j
    requires ps[j].dir >= |ps[i].code| && !(mapped[i] && ps[j].dir == STACK_PAGE)
    ensures Behind(v, ps[i], ps[j].dir) == ps[j].dir && !OwnPage(ps[i], mapped[i], ps[j].dir)
  {
    var d := ps[j].dir;
    assert Resident(v, used, reserved, ps[j], mapped[j]) && FrameOf(v, ps[j], d);
    if i < j { assert Apart(v, ps[i], ps[j]); } else { assert Apart(v, ps[j], ps[i]); }
    assert !FrameOf(v, ps[i], d);
    assert Resident(v, used, reserved, ps[i], mapped[i]);
    assert PageIs(v, ps[i].dir, ps[i].code, if mapped[i] then ps[i].stack else -1, d);
  }

  /** A directory whose first entry was overwritten with one that is not present no longer maps what was built. */
  lemma OverwrittenDirectoryBroken(v: View, used: set<nat>, reserved: set<nat>, p: Process, mapped: bool, e: Entry)
    requires Resident(v, used, reserved, p, mapped) && !e.present
    ensures !Resident(WithEntry(v, p.dir, 0, e), used, reserved, p, mapped)
  {
    var v' := WithEntry(v, p.dir, 0, e);
    assert PageAt(v', p.dir, 0).Fault?;
    assert !PageIs(v', p.dir, p.code, if mapped then p.stack else -1, 0);
  }

  // ----- What the kernel sees while a process runs -----

  /** No page of the process hides frame `f`. */
  predicate NotHidden(p: Process, mapped: bool, f: nat) {
    f >= |p.code| && !(mapped && f == STACK_PAGE)
  }

  /** A frame that is no data frame of the process is seen at its own address if and only if no page hides it. */
  lemma SeenExactly(v: View, used: set<nat>, reserved: set<nat>, p: Process, mapped: bool, f: nat)
    requires Resident(v, used, reserved, p, mapped) && f < MAX_FRAMES && f !in p.code && f != p.stack
    ensures Sees(v, p.dir, f) <==> NotHidden(p, mapped, f)
  {
    ShadowExact(v, p.dir, p.code, if mapped then p.stack else -1, f);
  }

  /** While a process runs, the kernel reaches its stack at its own address if and only if no page of the process hides
      it. */
  lemma StackSeenExactly(v: View, used: set<nat>, reserved: set<nat>, p: Process, mapped: bool)
    requires Resident(v, used, reserved, p, mapped)
    ensures Sees(v, p.dir, p.kstack) <==> NotHidden(p, mapped, p.kstack)
  {
    SeenExactly(v, used, reserved, p, mapped, p.kstack);
  }

  /** The same holds for a reserved frame, such as one of the kernel image. */
  lemma ReservedSeenExactly(v: View, used: set<nat>, reserved: set<nat>, p: Process, mapped: bool, f: nat)
    requires Resident(v, used, reserved, p, mapped) && f in reserved && f < MAX_FRAMES
    ensures Sees(v, p.dir, f) <==> NotHidden(p, mapped, f)
  {
    SeenExactly(v, used, reserved, p, mapped, f);
  }

  /** A program of more than 256 pages hides the start of the kernel text, which is linked at 1 MiB, whether or not it
      hides its own kernel stack. */
  lemma LongProgramHidesText(v: View, used: set<nat>, reserved: set<nat>, p: Process, mapped: bool)
    requires Resident(v, used, reserved, p, mapped) && 256 in reserved && |p.code| > 256
    ensures !Sees(v, p.dir, 256) && Behind(v, p, 256) == p.code[256] != 256
  {
    ReservedSeenExactly(v, used, reserved, p, mapped, 256);
    assert PageIs(v, p.dir, p.code, if mapped then p.stack else -1, 256);
    assert Private(v, p.dir, used, reserved, p.code[256]);
  }

  /** A kernel stack that a program page hides reads as the program. */
  lemma HiddenStackReadsProgram(m: Memory, v: View, used: set<nat>, fixed: set<nat>, data: seq<Byte>, p: Process,
                                mapped: bool, trampoline: Word, o: nat)
    requires Built(m, v, used, fixed, data, p, mapped, trampoline) && p.kstack < |p.code| && o < 4096
    ensures var t := Translate(v, p.dir, p.kstack / 1024, p.kstack % 1024, o);
            t.Mapped? && t.phys < TWO32 && m[t.phys] == ByteOf(data, p.kstack * 4096 + o)
  {
    ProgramVisible(m, v, used, fixed, data, p, mapped, trampoline, p.kstack / 1024, p.kstack % 1024, o);
  }

  /** A program of two pages hides its own kernel stack if frame one was free: the stack is the first frame taken. */
  lemma TwoPagesHideStack(m: Memory, v: View, used: set<nat>, fixed: set<nat>, data: seq<Byte>, p: Process,
                          mapped: bool, trampoline: Word)
    requires Built(m, v, used, fixed, data, p, mapped, trampoline) && 0 in fixed && 1 !in fixed
    requires |p.code| == 2 && LowestFree(fixed, p.kstack)
    ensures p.kstack == 1 && !Sees(v, p.dir, p.kstack)
  {
    BuiltResident(m, v, used, fixed, data, p, mapped, trampoline);
    StackSeenExactly(v, used, fixed, p, mapped);
  }

  /** While a process runs, the kernel sees every free frame at its own address if and only if no page of the process
      hides one. */
  lemma FreeSeenExactly(v: View, used: set<nat>, reserved: set<nat>, p: Process, mapped: bool)
    requires Resident(v, used, reserved, p, mapped)
    ensures SeesOutside(v, p.dir, used) <==> forall f: nat :: f < MAX_FRAMES && f !in used ==> NotHidden(p, mapped, f)
  {
    forall f: nat | f < MAX_FRAMES && f !in used ensures Sees(v, p.dir, f) <==> NotHidden(p, mapped, f) {
      SeenExactly(v, used, reserved, p, mapped, f);
    }
  }

  /** While a process runs, the kernel sees its own image if and only if no page of the process hides a frame of it. */
  lemma ImageSeenExactly(v: View, used: set<nat>, reserved: set<nat>, p: Process, mapped: bool, image: set<nat>)
    requires Resident(v, used, reserved, p, mapped) && image <= reserved && forall f :: f in image ==> f < MAX_FRAMES
    ensures SeesAll(v, p.dir, image) <==> forall f :: f in image ==> NotHidden(p, mapped, f)
  {
    forall f | f in image ensures Sees(v, p.dir, f) <==> NotHidden(p, mapped, f) {
      ReservedSeenExactly(v, used, reserved, p, mapped, f);
    }
  }

  /** A free frame that a program page hides is missed: what the kernel stores there goes into the program. */
  lemma HiddenFrameMissed(v: View, used: set<nat>, reserved: set<nat>, p: Process, mapped: bool, f: nat)
    requires Resident(v, used, reserved, p, mapped) && f !in used && f < |p.code| && f < MAX_FRAMES
    ensures Behind(v, p, f) == p.code[f] != f
  {
    assert PageIs(v, p.dir, p.code, if mapped then p.stack else -1, f);
    assert Private(v, p.dir, used, reserved, p.code[f]);
  }

  /** At boot the kernel can load programs: under the identity directory it sees every frame. */
  lemma BootWorking(mc: Machine)
    requires mc.frames.Valid() && Reflects(mc.mem, mc.view) && 0 in mc.frames.used
    requires mc.cr3 < MAX_FRAMES && mc.cr3 in mc.frames.used && mc.kernel <= mc.frames.used
    requires forall k :: 0 <= k < 1024 ==> IsKernelPage(mc.view(mc.cr3, k), k)
    ensures mc.Working(mc.frames.used)
  {
    IdentityDirectory(mc.view, mc.cr3, mc.frames.used);
    forall f: nat | f < MAX_FRAMES ensures Sees(mc.view, mc.cr3, f) {
      assert IsKernelPage(mc.view(mc.cr3, f / 1024), f / 1024);
    }
  }

  /** While a process runs, with the kernel on its kernel stack, the kernel can load another exactly when no page of the
      process hides the kernel stack, a frame of the kernel image or a free frame. */
  lemma ProcessWorking(mc: Machine, reserved: set<nat>, image: set<nat>, p: Process, mapped: bool)
    requires mc.frames.Valid() && Reflects(mc.mem, mc.view) && 0 in mc.frames.used && mc.cr3 == p.dir
    requires Resident(mc.view, mc.frames.used, reserved, p, mapped)
    requires image <= reserved <= mc.frames.used && mc.kernel == image + {p.kstack}
    ensures mc.Working(mc.frames.used) <==>
            && NotHidden(p, mapped, p.kstack)
            && forall f: nat :: f < MAX_FRAMES && (f !in mc.frames.used || f in image) ==> NotHidden(p, mapped, f)
  {
    FreeSeenExactly(mc.view, mc.frames.used, reserved, p, mapped);
    ImageSeenExactly(mc.view, mc.frames.used, reserved, p, mapped, image);
    StackSeenExactly(mc.view, mc.frames.used, reserved, p, mapped);
    assert SeesAll(mc.view, p.dir, mc.kernel) <==> SeesAll(mc.view, p.dir, image) && Sees(mc.view, p.dir, p.kstack);
  }

  // ----- Frames are used up -----

  /** The three frames every process has. */
  function CoreFrames(p: Process): set<nat> {
    {p.kstack, p.dir, p.stack}
  }

  ghost function AllCores(ps: seq<Process>): set<nat> {
    if ps == [] then {} else AllCores(ps[..|ps| - 1]) + CoreFrames(ps[|ps| - 1])
  }

  lemma {:induction false} CoreMember(ps: seq<Process>, f: nat)
    ensures f in AllCores(ps) <==> exists i :: 0 <= i < |ps| && f in CoreFrames(ps[i])
  {
    if ps != [] {
      var n := |ps| - 1;
      CoreMember(ps[..n], f);
      if i :| 0 <= i < n && f in CoreFrames(ps[i]) { assert ps[..n][i] == ps[i]; }
    }
  }

  lemma LedgerPrefix(v: View, used: set<nat>, reserved: set<nat>, ps: seq<Process>, mapped: seq<bool>)
    requires Ledger(v, used, reserved, ps, mapped) && ps != []
    ensures Ledger(v, used, reserved, ps[..|ps| - 1], mapped[..|ps| - 1])
  {
    var n := |ps| - 1;
    forall i | 0 <= i < n ensures Resident(v, used, reserved, ps[..n][i], mapped[..n][i]) {
      assert Resident(v, used, reserved, ps[i], mapped[i]);
    }
    forall i, j | 0 <= i < j < n ensures Apart(v, ps[..n][i], ps[..n][j]) { assert Apart(v, ps[i], ps[j]); }
  }

  lemma NewCore(v: View, used: set<nat>, reserved: set<nat>, ps: seq<Process>, mapped: seq<bool>, f: nat)
    requires Ledger(v, used, reserved, ps, mapped) && ps != [] && f in CoreFrames(ps[|ps| - 1])
    ensures f in used - reserved && forall i :: 0 <= i < |ps| - 1 ==> f !in CoreFrames(ps[i])
  {
    var n := |ps| - 1;
    assert Resident(v, used, reserved, ps[n], mapped[n]);
    FramesUsed(v, used, reserved, ps[n], mapped[n], f);
    forall i | 0 <= i < n ensures f !in CoreFrames(ps[i]) {
      assert Apart(v, ps[i], ps[n]) && FrameOf(v, ps[n], f);
      assert !FrameOf(v, ps[i], f);
    }
  }

  lemma {:induction false} CoresCounted(v: View, used: set<nat>, reserved: set<nat>, ps: seq<Process>,
                                        mapped: seq<bool>)
    requires Ledger(v, used, reserved, ps, mapped)
    ensures |AllCores(ps)| == 3 * |ps| && AllCores(ps) <= used - reserved
    decreases |ps|
  {
    if ps != [] {
      var n := |ps| - 1;
      var rest, last := AllCores(ps[..n]), CoreFrames(ps[n]);
      LedgerPrefix(v, used, reserved, ps, mapped);
      CoresCounted(v, used, reserved, ps[..n], mapped[..n]);
      assert Resident(v, used, reserved, ps[n], mapped[n]);
      forall f | f in last ensures f in used - reserved && f !in rest {
        NewCore(v, used, reserved, ps, mapped, f);
        CoreMember(ps[..n], f);
      }
      assert |last| == 3 && rest !! last;
    }
  }

  /** Every process takes at least three frames for good, so there are never more processes than frames allow. */
  lemma ProcessesFitFrames(v: View, used: set<nat>, reserved: set<nat>, ps: seq<Process>, mapped: seq<bool>)
    requires Ledger(v, used, reserved, ps, mapped) && reserved <= used && forall f :: f in used ==> f < MAX_FRAMES
    ensures 3 * |ps| + |reserved| <= |used| <= MAX_FRAMES
  {
    CoresCounted(v, used, reserved, ps, mapped);
    FullWhenNoRun(used);
    SubsetSize(AllCores(ps) + reserved, used);
    assert AllCores(ps) !! reserved;
  }

  // ----- Whole runs -----

  datatype World = World(m: Memory, v: View, used: set<nat>, ps: seq<Process>, mapped: seq<bool>) {
    ghost predicate Valid() {
      Reflects(m, v) && forall f :: f in used ==> f < MAX_FRAMES
    }
  }

  /** A spawn: writes only frames that were free, and adds a built process or, when it fails, none. */
  ghost predicate SpawnStep(w: World, w': World) {
    && FixedKept(w.m, w'.m, w.used) && w.used <= w'.used
    && (|| (w'.ps == w.ps && w'.mapped == w.mapped)
        || exists p, mapped, data, trampoline :: Adds(w, w', p, mapped, data, trampoline))
  }

  ghost predicate Adds(w: World, w': World, p: Process, mapped: bool, data: seq<Byte>, trampoline: Word) {
    && Built(w'.m, w'.v, w'.used, w.used, data, p, mapped, trampoline)
    && w'.ps == w.ps + [p] && w'.mapped == w.mapped + [mapped]
  }

  /** Process `k`, or the kernel in a system call of its, stores in page `g` of its address space, one of its own. */
  ghost predicate StoreStep(w: World, w': World, k: nat, g: nat) {
    && w'.used == w.used && w'.ps == w.ps && w'.mapped == w.mapped
    && k < |w.ps| == |w.mapped| && g < MAX_FRAMES && OwnPage(w.ps[k], w.mapped[k], g)
    && Elsewhere(w.m, w.v, w'.m, w'.v, Behind(w.v, w.ps[k], g))
  }

  /** The kernel changes its own memory: any frames that belong to no process. It may take more frames. */
  ghost predicate KernelStep(w: World, w': World) {
    && w.used <= w'.used && w'.ps == w.ps && w'.mapped == w.mapped
    && forall i, f :: 0 <= i < |w.ps| && FrameOf(w.v, w.ps[i], f) ==> SameFrame(w.m, w'.m, f)
  }

  ghost predicate Step(w: World, w': World) {
    SpawnStep(w, w') || KernelStep(w, w') || exists k, g :: StoreStep(w, w', k, g)
  }

  ghost predicate Run(ws: seq<World>) {
    && |ws| > 0 && (forall i :: 0 <= i < |ws| ==> ws[i].Valid())
    && forall i :: 0 <= i < |ws| - 1 ==> Step(ws[i], ws[i + 1])
  }

  /** Loading a program is such a spawn, whether or not it succeeds. */
  method Spawn(mc: Machine, prog: nat, size: nat, trampoline: Word, ghost data: seq<Byte>,
               ghost ps: seq<Process>, ghost mapped: seq<bool>)
    returns (r: LoadResult, ghost w': World)
    requires mc.Working(mc.frames.used) && |ps| == |mapped|
    requires SourceOk(mc.mem, mc.view, mc.cr3, mc.frames.used, prog, data) && size == |data|
    modifies mc`mem, mc`view, mc.frames`usedCount, mc.frames`used, mc.frames.bitmap
    ensures w'.m == mc.mem && w'.v == mc.view && w'.used == mc.frames.used
    ensures SpawnStep(World(old(mc.mem), old(mc.view), old(mc.frames.used), ps, mapped), w')
    ensures r.NoMemory? <==> w'.ps == ps
  {
    ghost var p, stackMapped;
    ghost var w := World(mc.mem, mc.view, mc.frames.used, ps, mapped);
    r, p, stackMapped := LoadProcess(mc, prog, size, trampoline, data);
    w' := if r.NoMemory? then World(mc.mem, mc.view, mc.frames.used, ps, mapped)
          else World(mc.mem, mc.view, mc.frames.used, ps + [p], mapped + [stackMapped]);
    assert r.Loaded? ==> Adds(w, w', p, stackMapped, data, trampoline);
  }

  lemma SpawnKeepsTables(w: World, w': World, reserved: set<nat>)
    requires Ledger(w.v, w.used, reserved, w.ps, w.mapped) && SpawnStep(w, w') && w.Valid() && w'.Valid()
    ensures TablesKept(w.v, w'.v, w.used, w'.used, w.ps)
  {
    forall f | f in w.used ensures SameEntries(w.v, w'.v, f) { SameFrameEntries(w.m, w.v, w'.m, w'.v, f); }
    UsedKept(w.v, w'.v, w.used, w'.used, reserved, w.ps, w.mapped);
  }

  lemma SpawnKeepsLedger(w: World, w': World, reserved: set<nat>)
    requires Ledger(w.v, w.used, reserved, w.ps, w.mapped) && reserved <= w.used && SpawnStep(w, w')
    requires w.Valid() && w'.Valid()
    ensures Ledger(w'.v, w'.used, reserved, w'.ps, w'.mapped)
  {
    SpawnKeepsTables(w, w', reserved);
    if w'.ps == w.ps && w'.mapped == w.mapped {
      LedgerKept(w.v, w'.v, w.used, w'.used, reserved, w.ps, w.mapped);
    } else {
      var p, mapped, data, trampoline :| Adds(w, w', p, mapped, data, trampoline);
      BuiltResident(w'.m, w'.v, w'.used, w.used, data, p, mapped, trampoline);
      LedgerGrows(w.v, w'.v, w.used, w'.used, reserved, w.ps, w.mapped, p, mapped);
    }
  }

  lemma StoreKeepsTables(w: World, w': World, reserved: set<nat>, k: nat, g: nat)
    requires Ledger(w.v, w.used, reserved, w.ps, w.mapped) && StoreStep(w, w', k, g)
    ensures TablesKept(w.v, w'.v, w.used, w'.used, w.ps) && DataFrame(w.ps[k], Behind(w.v, w.ps[k], g))
  {
    assert Resident(w.v, w.used, reserved, w.ps[k], w.mapped[k]);
    StoreExact(w.v, w.used, reserved, w.ps[k], w.mapped[k], g);
    WriteKeepsTables(w.m, w.v, w'.m, w'.v, w.used, reserved, w.ps, w.mapped, k, Behind(w.v, w.ps[k], g));
  }

  lemma KernelKeepsTables(w: World, w': World, reserved: set<nat>)
    requires Ledger(w.v, w.used, reserved, w.ps, w.mapped) && KernelStep(w, w') && w.Valid() && w'.Valid()
    ensures TablesKept(w.v, w'.v, w.used, w'.used, w.ps)
  {
    forall i, f | 0 <= i < |w.ps| && PartOf(w.v, w.ps[i].dir, f) ensures SameEntries(w.v, w'.v, f) {
      assert FrameOf(w.v, w.ps[i], f);
      assert Resident(w.v, w.used, reserved, w.ps[i], w.mapped[i]);
      FramesUsed(w.v, w.used, reserved, w.ps[i], w.mapped[i], f);
      SameFrameEntries(w.m, w.v, w'.m, w'.v, f);
    }
  }

  lemma StepKeepsLedger(w: World, w': World, reserved: set<nat>)
    requires Ledger(w.v, w.used, reserved, w.ps, w.mapped) && reserved <= w.used && Step(w, w')
    requires w.Valid() && w'.Valid()
    ensures Ledger(w'.v, w'.used, reserved, w'.ps, w'.mapped) && reserved <= w'.used
  {
    if SpawnStep(w, w') {
      SpawnKeepsLedger(w, w', reserved);
    } else if KernelStep(w, w') {
      KernelKeepsTables(w, w', reserved);
      LedgerKept(w.v, w'.v, w.used, w'.used, reserved, w.ps, w.mapped);
    } else {
      var k, g :| StoreStep(w, w', k, g);
      StoreKeepsTables(w, w', reserved, k, g);
      LedgerKept(w.v, w'.v, w.used, w'.used, reserved, w.ps, w.mapped);
    }
  }

  /** In every state of every run all processes are resident, their frames pairwise distinct and clear of everything
      reserved at the start, and every address space is still the one that was built. */
  lemma {:induction false} AlwaysApart(ws: seq<World>, reserved: set<nat>, n: nat)
    requires Run(ws) && n < |ws| && ws[0].ps == [] && ws[0].mapped == [] && reserved <= ws[0].used
    ensures Ledger(ws[n].v, ws[n].used, reserved, ws[n].ps, ws[n].mapped) && reserved <= ws[n].used
  {
    if n > 0 {
      AlwaysApart(ws, reserved, n - 1);
      StepKeepsLedger(ws[n - 1], ws[n], reserved);
    }
  }

  /** So in every state of every run there are at most a third as many processes as frames not reserved at the start. */
  lemma AlwaysFits(ws: seq<World>, reserved: set<nat>, n: nat)
    requires Run(ws) && n < |ws| && ws[0].ps == [] && ws[0].mapped == [] && reserved <= ws[0].used
    ensures 3 * |ws[n].ps| + |reserved| <= MAX_FRAMES
  {
    AlwaysApart(ws, reserved, n);
    ProcessesFitFrames(ws[n].v, ws[n].used, reserved, ws[n].ps, ws[n].mapped);
  }
}
