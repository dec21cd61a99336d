/** Switching between kernel stacks: what a switch saves and restores, for one switch and over whole runs. */
module ContextSwitch {
  import opened Bytes
  import opened FrameSets
  import opened Translation
  import opened AddressSpace
  import opened Machine
  import opened Paging
  import opened Loader

  /** The registers a switch keeps; `eip` is where execution continues. */
  datatype Registers = Registers(eflags: Word, edi: Word, esi: Word, ebx: Word, ebp: Word, eip: Word)

  datatype Processor = Processor(mem: Memory, regs: Registers, esp: nat, cr3: nat)

  const SAVED: nat := 24

  /** The registers saved at address `a`, lowest first. */
  function Context(m: Memory, a: nat): Registers
    requires a + SAVED <= TWO32
  {
    Registers(WordAt(m, a), WordAt(m, a + 4), WordAt(m, a + 8), WordAt(m, a + 12), WordAt(m, a + 16), WordAt(m, a + 20))
  }

  /** Memory is the same on the `n` bytes from `a` on. */
  ghost predicate SameBytes(m: Memory, m': Memory, a: nat, n: nat) {
    forall b :: a <= b < a + n && b < TWO32 ==> m'[b] == m[b]
  }

  /** Memory is the same outside the `n` bytes from `a` on. */
  ghost predicate SameBut(m: Memory, m': Memory, a: nat, n: nat) {
    forall b :: 0 <= b < TWO32 && !(a <= b < a + n) ==> m'[b] == m[b]
  }

  /** Memory is the same outside the `n` bytes from `a` on and the word at `field`. */
  ghost predicate SameButTwo(m: Memory, m': Memory, a: nat, n: nat, field: nat) {
    forall b :: 0 <= b < TWO32 && !(a <= b < a + n) && !(field <= b < field + 4) ==> m'[b] == m[b]
  }

  lemma TwoStores(m: Memory, m1: Memory, m': Memory, a: nat, n: nat, field: nat)
    requires SameBut(m, m1, a, n) && SameBut(m1, m', field, 4)
    ensures SameButTwo(m, m', a, n, field)
  {
  }

  lemma WordSame(m: Memory, m': Memory, a: nat, n: nat, b: nat)
    requires SameBytes(m, m', a, n) && a <= b && b + 4 <= a + n && b + 4 <= TWO32
    ensures WordAt(m', b) == WordAt(m, b)
  {
  }

  lemma ContextSame(m: Memory, m': Memory, a: nat)
    requires a + SAVED <= TWO32 && SameBytes(m, m', a, SAVED)
    ensures Context(m', a) == Context(m, a)
  {
  }

  // ----- Reaching memory through a page directory -----

  /** Under directory `d` the processor reaches frame `f` at its own address. */
  ghost predicate Reachable(v: View, d: nat, f: nat) {
    d < MAX_FRAMES && f < MAX_FRAMES && Sees(v, d, f)
  }

  /** Under directory `d` the processor reaches the kernel image, from which it fetches its instructions. */
  ghost predicate Fetches(v: View, d: nat, image: set<nat>) {
    forall f :: f in image ==> Reachable(v, d, f)
  }

  /** Reading and writing frame `f` under directory `d` goes to the frame itself, and is no change of the directory. */
  ghost predicate Usable(v: View, d: nat, f: nat) {
    Reachable(v, d, f) && !PartOf(v, d, f)
  }

  /** Only entries in frame `f` differ. */
  ghost predicate OnlyFrame(v: View, v': View, f: nat) {
    forall g: nat :: g != f ==> SameEntries(v, v', g)
  }

  /** The `n` bytes from `a` on lie in frame `f`. */
  predicate InFrame(a: nat, n: nat, f: nat) {
    f * 4096 <= a && a + n <= f * 4096 + 4096
  }

  /** A write inside frame `f` changes the view of that frame only. */
  lemma FrameWritten(m: Memory, v: View, m': Memory, a: nat, n: nat, f: nat)
    requires Reflects(m, v) && SameBut(m, m', a, n) && InFrame(a, n, f)
    ensures Reflects(m', WithFrame(v, f, m')) && OnlyFrame(v, WithFrame(v, f, m'), f)
  {
    forall g: nat, l: nat | InTable(g, l) ensures WithFrame(v, f, m')(g, l) == Slot(m', g, l) {
      if g != f {
        assert g * 4096 + 4096 <= f * 4096 || f * 4096 + 4096 <= g * 4096;
        SameSlot(m, m', g, l);
      }
    }
  }

  /** Changes in a frame that is no part of a directory do not change what is reached under it. */
  lemma ReachableKept(v: View, v': View, d: nat, f: nat, g: nat)
    requires OnlyFrame(v, v', f) && !PartOf(v, d, f) && Reachable(v, d, g)
    ensures Reachable(v', d, g)
  {
    var pde := v(d, g / 1024);
    assert SameEntries(v, v', d) && v'(d, g / 1024) == pde;
    if !pde.large {
      assert Owns(v, d, pde.frame);
      assert SameEntries(v, v', pde.frame);
    }
  }

  lemma UsableKept(v: View, v': View, d: nat, f: nat, g: nat)
    requires OnlyFrame(v, v', f) && !PartOf(v, d, f) && Usable(v, d, g)
    ensures Usable(v', d, g)
  {
    ReachableKept(v, v', d, f, g);
    assert SameEntries(v, v', d);
    SameOwners(v, v', d);
  }

  lemma OnlyFrameTrans(v: View, v1: View, v2: View, f: nat)
    requires OnlyFrame(v, v1, f) && OnlyFrame(v1, v2, f)
    ensures OnlyFrame(v, v2, f)
  {
    forall g: nat | g != f ensures SameEntries(v, v2, g) { assert SameEntries(v, v1, g) && SameEntries(v1, v2, g); }
  }

  /** Where the walk of directory `d` finds the address `a` of a word in frame `f`. */
  lemma WalkFindsWord(m: Memory, v: View, d: nat, a: nat, f: nat)
    requires Reflects(m, v) && Reachable(v, d, f) && InFrame(a, 4, f)
    ensures a / 4096 == f && Walk(m, d, f) * 4096 + a % 4096 == a && a + 4 <= TWO32
  {
    WalkIdentity(m, v, d, f);
  }

  // ----- One switch -----

  ghost predicate Pair(m: Memory, a: nat, low: Word, high: Word) {
    a + 8 <= TWO32 && WordAt(m, a) == low && WordAt(m, a + 4) == high
  }

  /** The call `switch_context(field, to, dir)` has been made: return address and arguments are on the stack, and the
      word at `field` lies apart from them and from the room the registers need. */
  ghost predicate Called(c: Processor, field: nat, to: nat, dir: nat) {
    && 20 <= c.esp && c.esp + 16 <= TWO32 && field + 4 <= TWO32 && to + SAVED <= TWO32
    && WordAt(c.mem, c.esp + 4) == field && WordAt(c.mem, c.esp + 8) == to && WordAt(c.mem, c.esp + 12) == dir
    && (field + 4 <= c.esp - 20 || c.esp + 16 <= field)
  }

  /** What the switch touches under the old directory and then under the new one: the old stack in frame `s`, the saved
      stack pointer in frame `f`, the new stack in frame `t`, and its own instructions in `image`. */
  ghost predicate Reaches(c: Processor, v: View, image: set<nat>, field: nat, to: nat, dir: nat, s: nat, f: nat,
                          t: nat) {
    && 20 <= c.esp && InFrame(c.esp - 20, 36, s) && InFrame(field, 4, f) && InFrame(to, SAVED, t)
    && Usable(v, c.cr3 / 4096, s) && Usable(v, c.cr3 / 4096, f)
    && Reachable(v, dir / 4096, t) && !PartOf(v, dir / 4096, s) && !PartOf(v, dir / 4096, f)
    && Fetches(v, c.cr3 / 4096, image) && Fetches(v, dir / 4096, image)
  }

  /** What a switch leaves in memory: the registers and the return address on the old stack, its pointer in `field`. */
  ghost predicate Saved(c: Processor, m: Memory, field: nat)
    requires 20 <= c.esp && c.esp + 16 <= TWO32 && field + 4 <= TWO32
  {
    && Context(m, c.esp - 20) == c.regs.(eip := WordAt(c.mem, c.esp)) && WordAt(m, field) == c.esp - 20
    && SameButTwo(c.mem, m, c.esp - 20, 20, field)
  }

  /** What a switch does: it saves the old context and goes on with what the new stack holds. */
  ghost predicate Switched(c: Processor, c': Processor, field: nat, to: nat, dir: nat)
    requires Called(c, field, to, dir)
  {
    Saved(c, c'.mem, field) && c' == Processor(c'.mem, Context(c'.mem, to), to + SAVED, dir)
  }

  class Cpu {
    var mem: Memory
    var eflags: Word
    var edi: Word
    var esi: Word
    var ebx: Word
    var ebp: Word
    var eip: Word
    var esp: nat
    var cr3: nat
    ghost var view: View  // the page directories and tables in memory

    ghost function State(): Processor
      reads this
    {
      Processor(mem, Registers(eflags, edi, esi, ebx, ebp, eip), esp, cr3)
    }

    constructor (mem: Memory, regs: Registers, esp: nat, cr3: nat)
      ensures State() == Processor(mem, regs, esp, cr3) && Reflects(mem, view)
    {
      this.mem, this.esp, this.cr3, this.view := mem, esp, cr3, ViewOf(mem);
      eflags, edi, esi, ebx, ebp, eip := regs.eflags, regs.edi, regs.esi, regs.ebx, regs.ebp, regs.eip;
    }

    /** Frame `f` can be read and written at its own address, and writing it changes no translation. */
    ghost predicate Uses(f: nat)
      reads this
    {
      Reflects(mem, view) && Usable(view, cr3 / 4096, f)
    }

    /** Frame `f` can be read at its own address. */
    ghost predicate Reads(f: nat)
      reads this
    {
      Reflects(mem, view) && Reachable(view, cr3 / 4096, f)
    }

    method Load(a: nat, ghost f: nat) returns (w: Word)
      requires InFrame(a, 4, f) && Reads(f)
      ensures a + 4 <= TWO32 && w == WordAt(mem, a)
    {
      WalkFindsWord(mem, view, cr3 / 4096, a, f);
      w := WordAt(mem, Walk(mem, cr3 / 4096, a / 4096) * 4096 + a % 4096);
    }

    method Store(a: nat, w: Word, ghost f: nat)
      requires InFrame(a, 4, f) && Uses(f)
      modifies this`mem, this`view
      ensures a + 4 <= TWO32 && WordAt(mem, a) == w && SameBut(old(mem), mem, a, 4)
      ensures OnlyFrame(old(view), view, f) && Uses(f)
    {
      WalkFindsWord(mem, view, cr3 / 4096, a, f);
      ghost var m0, v0 := mem, view;
      SetWordReads(mem, a, w);
      mem := SetWord(mem, Walk(mem, cr3 / 4096, a / 4096) * 4096 + a % 4096, w);
      view := WithFrame(v0, f, mem);
      FrameWritten(m0, v0, mem, a, 4, f);
      UsableKept(v0, view, cr3 / 4096, f, f);
    }

    method Push(w: Word, ghost a: nat, ghost f: nat)
      requires esp == a + 4 && InFrame(a, 4, f) && Uses(f)
      modifies this`mem, this`view, this`esp
      ensures esp == a && a + 4 <= TWO32 && WordAt(mem, a) == w && SameBut(old(mem), mem, a, 4)
      ensures OnlyFrame(old(view), view, f) && Uses(f)
    {
      esp := esp - 4;
      Store(esp, w, f);
    }

    method PushTwo(high: Word, low: Word, ghost a: nat, ghost f: nat)
      requires esp == a + 8 && InFrame(a, 8, f) && Uses(f)
      modifies this`mem, this`view, this`esp
      ensures esp == a && SameBut(old(mem), mem, a, 8) && Pair(mem, a, low, high)
      ensures OnlyFrame(old(view), view, f) && Uses(f)
    {
      ghost var v0 := view;
      Push(high, a + 4, f);
      ghost var m1, v1 := mem, view;
      Push(low, a, f);
      OnlyFrameTrans(v0, v1, view, f);
      WordSame(m1, mem, a + 4, 4, a + 4);
    }

    /** Pushes the registers a switch keeps, below the return address. */
    method SaveRegisters(ghost a: nat, ghost f: nat)
      requires esp == a + 20 && InFrame(a, SAVED, f) && Uses(f)
      modifies this`mem, this`view, this`esp
      ensures esp == a && a + SAVED <= TWO32 && SameBut(old(mem), mem, a, 20)
      ensures OnlyFrame(old(view), view, f) && Uses(f)
      ensures Context(mem, a) == Registers(eflags, edi, esi, ebx, ebp, WordAt(old(mem), a + 20))
    {
      ghost var m0, v0 := mem, view;
      PushTwo(ebp, ebx, a + 12, f);
      ghost var m2, v2 := mem, view;
      PushTwo(esi, edi, a + 4, f);
      ghost var m4, v4 := mem, view;
      Push(eflags, a, f);
      OnlyFrameTrans(v0, v2, v4, f);
      OnlyFrameTrans(v0, v4, view, f);
      ContextPushed(m0, m2, m4, mem, a, Registers(eflags, edi, esi, ebx, ebp, WordAt(m0, a + 20)));
    }

    method Pop(ghost a: nat, ghost f: nat) returns (w: Word)
      requires esp == a && InFrame(a, 4, f) && Reads(f)
      modifies this`esp
      ensures esp == a + 4 <= TWO32 && w == WordAt(mem, a)
    {
      w := Load(esp, f);
      esp := esp + 4;
    }

    method PopThree(ghost a: nat, ghost f: nat) returns (x: Word, y: Word, z: Word)
      requires esp == a && InFrame(a, 12, f) && Reads(f)
      modifies this`esp
      ensures esp == a + 12 <= TWO32
      ensures x == WordAt(mem, a) && y == WordAt(mem, a + 4) && z == WordAt(mem, a + 8)
    {
      x := Pop(a, f);
      y := Pop(a + 4, f);
      z := Pop(a + 8, f);
    }

    /** Pops the registers a switch keeps and returns to the address above them. */
    method RestoreRegisters(ghost a: nat, ghost f: nat)
      requires esp == a && InFrame(a, SAVED, f) && Reads(f)
      modifies this`eflags, this`edi, this`esi, this`ebx, this`ebp, this`eip, this`esp
      ensures a + SAVED <= TWO32
      ensures State() == Processor(mem, Context(mem, a), a + SAVED, cr3)
    {
      eflags, edi, esi := PopThree(a, f);
      ebx, ebp, eip := PopThree(a + 12, f);
      ContextOf(mem, a, Registers(eflags, edi, esi, ebx, ebp, eip));
    }

    /** Loads the three arguments above the return address of the switch, once the registers are saved. */
    method LoadArguments(ghost a: nat, ghost s: nat) returns (eax: Word, ecx: Word, edx: Word)
      requires esp == a && InFrame(a, 36, s) && Reads(s)
      ensures a + 36 <= TWO32
      ensures eax == WordAt(mem, a + 24) && ecx == WordAt(mem, a + 28) && edx == WordAt(mem, a + 32)
    {
      eax := Load(esp + 24, s);
      ecx := Load(esp + 28, s);
      edx := Load(esp + 32, s);
    }

    /** Saves the registers and loads the arguments of the switch. */
    method SaveAndLoad(ghost a: nat, ghost s: nat) returns (eax: Word, ecx: Word, edx: Word)
      requires esp == a + 20 && InFrame(a, 36, s) && Uses(s)
      modifies this`mem, this`view, this`esp
      ensures esp == a && a + 36 <= TWO32 && SameBut(old(mem), mem, a, 20)
      ensures OnlyFrame(old(view), view, s) && Uses(s)
      ensures Context(mem, a) == Registers(eflags, edi, esi, ebx, ebp, WordAt(old(mem), a + 20))
      ensures eax == WordAt(old(mem), a + 24) && ecx == WordAt(old(mem), a + 28) && edx == WordAt(old(mem), a + 32)
    {
      ghost var m0 := mem;
      SaveRegisters(a, s);
      ArgumentsSame(m0, mem, a);
      eax, ecx, edx := LoadArguments(a, s);
    }

    /** Saves the registers and stores the stack pointer where the first argument says. `v` is the view in between. */
    method SaveContext(ghost field: nat, ghost to: nat, ghost dir: nat, ghost s: nat, ghost f: nat)
      returns (ecx: Word, edx: Word, ghost v: View)
      requires Called(State(), field, to, dir) && InFrame(esp - 20, 36, s) && InFrame(field, 4, f) && Uses(s) && Uses(f)
      modifies this`mem, this`view, this`esp
      ensures esp == old(esp) - 20 && Saved(old(State()), mem, field) && ecx == to && edx == dir
      ensures Reflects(mem, view) && OnlyFrame(old(view), v, s) && OnlyFrame(v, view, f)
    {
      ghost var v0 := view;
      ghost var a: nat := esp - 20;
      var eax;
      eax, ecx, edx := SaveAndLoad(a, s);
      ghost var m1 := mem;
      v := view;
      UsableKept(v0, v, cr3 / 4096, s, f);
      Store(eax, esp, f);
      ContextSaved(old(State()), m1, mem, field, a);
    }

    /** The switch. The new context is read under the new directory. */
    method SwitchContext(ghost image: set<nat>, ghost field: nat, ghost to: nat, ghost dir: nat, ghost s: nat,
                         ghost f: nat, ghost t: nat)
      requires Reflects(mem, view)
      requires Called(State(), field, to, dir) && Reaches(State(), view, image, field, to, dir, s, f, t)
      modifies this
      ensures Reflects(mem, view) && Switched(old(State()), State(), field, to, dir)
      ensures Fetches(view, cr3 / 4096, image)
    {
      ghost var v0 := view;
      var ecx, edx;
      ghost var v;
      ecx, edx, v := SaveContext(field, to, dir, s, f);
      StillReachable(v0, v, view, dir / 4096, s, f, t);
      StillFetches(v0, v, view, dir / 4096, s, f, image);
      cr3 := edx;
      esp := ecx;
      RestoreRegisters(to, t);
    }

    /** The one-way switch to the first process. */
    method JumpToProcess(to: nat, dir: nat, ghost image: set<nat>, ghost t: nat)
      requires InFrame(to, SAVED, t) && Reflects(mem, view) && Reachable(view, dir / 4096, t)
      requires Fetches(view, dir / 4096, image)
      modifies this
      ensures to + SAVED <= TWO32 && State() == Processor(old(mem), Context(old(mem), to), to + SAVED, dir)
      ensures view == old(view) && Fetches(view, cr3 / 4096, image)
    {
      cr3 := dir;
      esp := to;
      RestoreRegisters(to, t);
    }

    /** The trampoline leaves for user mode with what the interrupt return frame says; `data` is the selector loaded
        into the data segment registers. */
    method Trampoline(ghost a: nat, ghost f: nat) returns (cs: Word, userEsp: Word, ss: Word, data: Word)
      requires esp == a && InFrame(a, 20, f) && Reads(f)
      modifies this`eip, this`eflags, this`esp
      ensures a + 20 <= TWO32
      ensures eip == WordAt(mem, a) && cs == WordAt(mem, a + 4) && eflags == WordAt(mem, a + 8)
      ensures userEsp == WordAt(mem, a + 12) && ss == WordAt(mem, a + 16) && data == 0x23
    {
      data := 0x23;
      eip, cs, eflags := PopThree(a, f);
      userEsp := Pop(a + 12, f);
      ss := Pop(a + 16, f);
    }

    /** A process that never ran goes through the trampoline to its first instruction in user mode, with interrupts
        on and its stack pointer at the top of its stack, if its directory hides neither its kernel stack nor the
        kernel image. */
    method FirstRun(stack: nat, dir: nat, trampoline: Word, ghost image: set<nat>)
      returns (cs: Word, userEsp: Word, ss: Word, data: Word)
      requires Pushed(mem, stack, FirstFrame(trampoline)) && Reflects(mem, view)
      requires Reachable(view, dir / 4096, stack) && Fetches(view, dir / 4096, image)
      modifies this
      ensures eip == 0 && cs == 0x1B && eflags == 0x0202 && userEsp == 0xC000_0000 && ss == 0x23 && data == 0x23
      ensures cr3 == dir && mem == old(mem) && Fetches(view, cr3 / 4096, image)
    {
      FirstFrameRead(mem, stack, trampoline);
      JumpToProcess(FirstEsp(stack), dir, image, stack);
      assert eip == trampoline;
      cs, userEsp, ss, data := Trampoline(FirstEsp(stack) + SAVED, stack);
    }
  }

  lemma ContextOf(m: Memory, a: nat, r: Registers)
    requires a + SAVED <= TWO32
    requires r.eflags == WordAt(m, a) && r.edi == WordAt(m, a + 4) && r.esi == WordAt(m, a + 8)
    requires r.ebx == WordAt(m, a + 12) && r.ebp == WordAt(m, a + 16) && r.eip == WordAt(m, a + 20)
    ensures r == Context(m, a)
  {
  }

  lemma ArgumentsSame(m: Memory, m': Memory, a: nat)
    requires SameBut(m, m', a, 20) && a + 36 <= TWO32
    ensures WordAt(m', a + 24) == WordAt(m, a + 24)
    ensures WordAt(m', a + 28) == WordAt(m, a + 28)
    ensures WordAt(m', a + 32) == WordAt(m, a + 32)
  {
    WordSame(m, m', a + 20, 16, a + 24);
    WordSame(m, m', a + 20, 16, a + 28);
    WordSame(m, m', a + 20, 16, a + 32);
  }

  /** The context pushed at `a` in three steps, below a return address that stays. */
  lemma ContextPushed(m0: Memory, m2: Memory, m4: Memory, m5: Memory, a: nat, r: Registers)
    requires a + SAVED <= TWO32
    requires SameBut(m0, m2, a + 12, 8) && SameBut(m2, m4, a + 4, 8) && SameBut(m4, m5, a, 4)
    requires Pair(m2, a + 12, r.ebx, r.ebp) && Pair(m4, a + 4, r.edi, r.esi) && WordAt(m5, a) == r.eflags
    requires WordAt(m0, a + 20) == r.eip
    ensures SameBut(m0, m5, a, 20) && Context(m5, a) == r
  {
    WordSame(m0, m5, a + 20, 4, a + 20);
    WordSame(m4, m5, a + 4, 8, a + 4);
    WordSame(m4, m5, a + 4, 8, a + 8);
    WordSame(m2, m5, a + 12, 8, a + 12);
    WordSame(m2, m5, a + 12, 8, a + 16);
  }

  lemma ContextSaved(c: Processor, m1: Memory, m: Memory, field: nat, a: nat)
    requires c.esp == a + 20 && a + 36 <= TWO32 && field + 4 <= TWO32 && (field + 4 <= a || a + 36 <= field)
    requires SameBut(c.mem, m1, a, 20) && SameBut(m1, m, field, 4) && WordAt(m, field) == a
    requires Context(m1, a) == c.regs.(eip := WordAt(c.mem, a + 20))
    ensures Saved(c, m, field)
  {
    ContextSame(m1, m, a);
    TwoStores(c.mem, m1, m, a, 20, field);
  }

  /** What a switch saves does not change what the new directory reaches. */
  lemma StillReachable(v: View, v1: View, v2: View, d: nat, s: nat, f: nat, t: nat)
    requires OnlyFrame(v, v1, s) && OnlyFrame(v1, v2, f) && !PartOf(v, d, s) && !PartOf(v, d, f) && Reachable(v, d, t)
    ensures Reachable(v2, d, t)
  {
    ReachableKept(v, v1, d, s, t);
    assert SameEntries(v, v1, d);
    SameOwners(v, v1, d);
    ReachableKept(v1, v2, d, f, t);
  }

  lemma StillFetches(v: View, v1: View, v2: View, d: nat, s: nat, f: nat, image: set<nat>)
    requires OnlyFrame(v, v1, s) && OnlyFrame(v1, v2, f) && !PartOf(v, d, s) && !PartOf(v, d, f) && Fetches(v, d, image)
    ensures Fetches(v2, d, image)
  {
    forall g | g in image ensures Reachable(v2, d, g) { StillReachable(v, v1, v2, d, s, f, g); }
  }

  /** The stack pointer saved for a process that never ran. */
  function FirstEsp(stack: nat): nat {
    stack * 4096 + 1013 * 4
  }

  function FirstContext(trampoline: Word): Registers {
    Registers(0x0002, 0, 0, 0, 0, trampoline)
  }

  /** The first context as the switch and the trampoline read it. */
  lemma FirstFrameRead(m: Memory, stack: nat, trampoline: Word)
    requires Pushed(m, stack, FirstFrame(trampoline))
    ensures FirstEsp(stack) + SAVED + 20 <= TWO32 && Context(m, FirstEsp(stack)) == FirstContext(trampoline)
    ensures var a := FirstEsp(stack) + SAVED;
            && WordAt(m, a) == 0 && WordAt(m, a + 4) == 0x1B && WordAt(m, a + 8) == 0x0202
            && WordAt(m, a + 12) == 0xC000_0000 && WordAt(m, a + 16) == 0x23
  {
    var words := FirstFrame(trampoline);
    forall j | 0 <= j < 11 ensures WordAt(m, stack * 4096 + (1023 - j) * 4) == words[j] {
      assert FrameWord(m, stack, 1023 - j) == words[j];
    }
    assert WordAt(m, stack * 4096 + (1023 - 10) * 4) == words[10];
    assert WordAt(m, stack * 4096 + (1023 - 9) * 4) == words[9];
    assert WordAt(m, stack * 4096 + (1023 - 8) * 4) == words[8];
    assert WordAt(m, stack * 4096 + (1023 - 7) * 4) == words[7];
    assert WordAt(m, stack * 4096 + (1023 - 6) * 4) == words[6];
    assert WordAt(m, stack * 4096 + (1023 - 5) * 4) == words[5];
    assert WordAt(m, stack * 4096 + (1023 - 4) * 4) == words[4];
    assert WordAt(m, stack * 4096 + (1023 - 3) * 4) == words[3];
    assert WordAt(m, stack * 4096 + (1023 - 2) * 4) == words[2];
    assert WordAt(m, stack * 4096 + (1023 - 1) * 4) == words[1];
    assert WordAt(m, stack * 4096 + (1023 - 0) * 4) == words[0];
  }
}
