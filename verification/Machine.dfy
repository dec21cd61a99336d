/** The machine the kernel runs on: physical memory reached through the current page directory. */
module Machine {
  import opened Bits
  import opened Bytes
  import opened FrameSets
  import opened Translation
  import opened AddressSpace
  import FrameAllocator

  /** The kernel's view of frame `f` under directory `d`: its identity address reaches the frame itself. */
  ghost predicate Sees(v: View, d: nat, f: nat) {
    var t := Translate(v, d, f / 1024, f % 1024, 0);
    t.Mapped? && t.phys == f * 4096 && t.write
  }

  /** The frame behind page `f` as the processor finds it, walking the directory and table in memory. */
  function Walk(m: Memory, d: nat, f: nat): nat
    requires d < MAX_FRAMES && f < MAX_FRAMES
  {
    var pde := Slot(m, d, f / 1024);
    if pde.large then pde.frame / 1024 * 1024 + f % 1024
    else Slot(m, pde.frame, f % 1024).frame
  }

  lemma WalkIdentity(m: Memory, v: View, d: nat, f: nat)
    requires Reflects(m, v) && d < MAX_FRAMES && f < MAX_FRAMES && Sees(v, d, f)
    ensures Walk(m, d, f) == f
  {
    assert InTable(d, f / 1024) && InTable(v(d, f / 1024).frame, f % 1024);
  }

  /** Nothing changed outside frame `t`. */
  ghost predicate Elsewhere(m: Memory, v: View, m': Memory, v': View, t: nat) {
    forall g: nat :: g != t ==> SameFrame(m, m', g) && SameEntries(v, v', g)
  }

  /** The view after entry `k` of frame `f` became `e`. */
  ghost function WithEntry(v: View, f: nat, k: nat, e: Entry): View {
    (g: nat, l: nat) => if g == f && l == k then e else v(g, l)
  }

  /** The view after the bytes of frame `f` changed. */
  ghost function WithFrame(v: View, f: nat, m: Memory): View {
    (g: nat, l: nat) => if g == f && InTable(g, l) then Slot(m, g, l) else v(g, l)
  }

  lemma StoreReflected(m: Memory, v: View, f: nat, k: nat, w: Word, m': Memory)
    requires Reflects(m, v) && f < MAX_FRAMES && k < 1024 && m' == SetWord(m, f * 4096 + k * 4, w)
    ensures Reflects(m', WithEntry(v, f, k, Decode(w)))
  {
    SetSlot(m, f, k, w, m');
    forall g: nat, l: nat | InTable(g, l) ensures WithEntry(v, f, k, Decode(w))(g, l) == Slot(m', g, l) {
      if g != f { SameSlot(m, m', g, l); }
    }
  }

  ghost predicate SeesOutside(v: View, d: nat, fixed: set<nat>) {
    forall f: nat :: f < MAX_FRAMES && f !in fixed ==> Sees(v, d, f)
  }

  ghost predicate SeesAll(v: View, d: nat, frames: set<nat>) {
    forall f :: f in frames ==> Sees(v, d, f)
  }

  /** Changes outside the current directory's frames do not change what the kernel sees. */
  lemma StillSees(v: View, v': View, d: nat, fixed: set<nat>, kernel: set<nat>)
    requires Directory(v, d, fixed) && SeesOutside(v, d, fixed) && SeesAll(v, d, kernel)
    requires (forall f :: f in fixed ==> SameEntries(v, v', f)) && forall f :: f in kernel ==> f < MAX_FRAMES
    ensures Directory(v', d, fixed) && SeesOutside(v', d, fixed) && SeesAll(v', d, kernel)
  {
    PartUsed(v, d, fixed);
    Untouched(v, v', d, fixed);
    forall f: nat | f < MAX_FRAMES && (f !in fixed || f in kernel) ensures Sees(v', d, f) {
      assert Sees(v, d, f);
      assert SameRow(v, v', d, f / 1024);
      assert SameTranslation(v, v', d, f / 1024, f % 1024);
    }
  }

  /** An entry packed from a frame number and flags. */
  method Pack(f: nat, flags: nat) returns (w: Word)
    requires f < MAX_FRAMES && flags < 4096
    ensures w == f * 4096 + flags
  {
    Pow2Values();
    OrAligned(f, 12, flags);
    TwelveBits(f);
    w := Or(f * 4096, flags);
  }

  method HasFlag(w: Word, i: nat) returns (b: bool)
    requires i == 0 || i == 2 || i == 7
    ensures b <==> if i == 0 then w % 2 == 1 else if i == 2 then w / 4 % 2 == 1 else w / 128 % 2 == 1
  {
    MaskTestsBit(w, i);
    b := And(w, Pow2(i)) != 0;
    if i == 2 { assert Shr(w, 2) == w / 4; }
    else if i == 7 { assert Shr(w, 7) == w / 128; }
  }

  lemma LowBits(q: nat, r: nat)
    requires r < 4
    ensures (8 * q + r + 4) % 2 == (8 * q + r) % 2 && (8 * q + r + 4) / 2 == (8 * q + r) / 2 + 2
    ensures (8 * q + r) / 4 == 2 * q && (8 * q + r + 4) / 4 == 2 * q + 1
  {
  }

  lemma HighBits(q: nat, r: nat)
    requires r < 4
    ensures (8 * q + r) / 128 == q / 16 == (8 * q + r + 4) / 128
    ensures (8 * q + r) / 4096 == q / 512 == (8 * q + r + 4) / 4096
  {
  }

  lemma UserSet(w: Word, q: nat, r: nat)
    requires w == 8 * q + r && r < 4
    ensures w + 4 < TWO32 && !Decode(w).user && Decode(w + 4) == Decode(w).(user := true)
  {
    LowBits(q, r);
    HighBits(q, r);
    EvenPlus(1, w / 2);
    EvenPlus(q, 1);
    EvenPlus(q, 0);
  }

  lemma UserClear(w: Word)
    requires w / 4 % 2 == 0
    ensures w == 8 * (w / 8) + w % 8 && w % 8 < 4
  {
    var q, r := w / 8, w % 8;
    if r >= 4 {
      LowBits(q, r - 4);
      EvenPlus(q, 1);
    }
  }

  /** The entry opened to user mode: only its user flag changes. */
  method OpenToUser(w: Word) returns (r: Word)
    ensures Decode(r) == Decode(w).(user := true)
  {
    OrFour(w);
    if w / 4 % 2 == 0 {
      UserClear(w);
      UserSet(w, w / 8, w % 8);
    }
    r := Or(w, 4);
  }

  lemma SeesKept(v: View, v': View, d: nat, fixed: set<nat>, f: nat)
    requires Directory(v, d, fixed) && (forall g :: g in fixed ==> SameEntries(v, v', g))
    requires f < MAX_FRAMES && Sees(v, d, f)
    ensures Sees(v', d, f)
  {
    PartUsed(v, d, fixed);
    Untouched(v, v', d, fixed);
    assert SameRow(v, v', d, f / 1024);
    assert SameTranslation(v, v', d, f / 1024, f % 1024);
  }

  lemma ByteKept(m: Memory, m': Memory, a: nat)
    requires a < TWO32 && SameFrame(m, m', a / 4096)
    ensures m'[a] == m[a]
  {
  }

  lemma ByteStored(m: Memory, v: View, f: nat, o: nat, b: Byte)
    requires Reflects(m, v) && f < MAX_FRAMES && o < 4096
    ensures var m' := m[f * 4096 + o := b];
            Reflects(m', WithFrame(v, f, m')) && Elsewhere(m, v, m', WithFrame(v, f, m'), f)
  {
  }

  class Machine {
    const frames: FrameAllocator.FrameAllocator
    ghost const kernel: set<nat>  // the frames the kernel runs in: its image and the stack it is on
    var mem: Memory
    var cr3: nat
    ghost var view: View

    constructor (frames: FrameAllocator.FrameAllocator, mem: Memory, cr3: nat, ghost kernel: set<nat>)
      ensures this.frames == frames && this.mem == mem && this.cr3 == cr3 && this.kernel == kernel
      ensures Reflects(mem, view)
    {
      this.frames, this.mem, this.cr3, this.kernel, this.view := frames, mem, cr3, kernel, ViewOf(mem);
    }

    /** Stores entry `k` of the table in frame `f` through the frame's identity address. */
    method StoreEntry(f: nat, k: nat, w: Word)
      requires Reflects(mem, view) && cr3 < MAX_FRAMES && f < MAX_FRAMES && k < 1024 && Sees(view, cr3, f)
      modifies this`mem, this`view
      ensures Reflects(mem, view) && view == WithEntry(old(view), f, k, Decode(w))
      ensures mem == SetWord(old(mem), f * 4096 + k * 4, w)
      ensures forall g: nat :: g != f ==> SameFrame(old(mem), mem, g)
    {
      WalkIdentity(mem, view, cr3, f);
      StoreReflected(mem, view, f, k, w, SetWord(mem, f * 4096 + k * 4, w));
      SetSlot(mem, f, k, w, SetWord(mem, f * 4096 + k * 4, w));
      mem := SetWord(mem, Walk(mem, cr3, f) * 4096 + k * 4, w);
      view := WithEntry(view, f, k, Decode(w));
    }

    /** The state a kernel function relies on while it builds something in frames outside `fixed`: the current
        directory lies in `fixed`, and the kernel sees every frame outside `fixed` and those it runs in at their own
        addresses. */
    ghost predicate Working(fixed: set<nat>)
      reads this, frames, frames.bitmap
    {
      && frames.Valid() && 0 in fixed && fixed <= frames.used
      && Reflects(mem, view) && Directory(view, cr3, fixed)
      && SeesOutside(view, cr3, fixed) && kernel <= fixed && SeesAll(view, cr3, kernel)
    }

    method LoadEntry(f: nat, k: nat) returns (w: Word)
      requires Reflects(mem, view) && cr3 < MAX_FRAMES && f < MAX_FRAMES && k < 1024 && Sees(view, cr3, f)
      ensures Decode(w) == view(f, k)
    {
      WalkIdentity(mem, view, cr3, f);
      assert InTable(f, k);
      w := WordAt(mem, Walk(mem, cr3, f) * 4096 + k * 4);
    }

    /** Stores an entry of a table outside `fixed`. */
    method Store(f: nat, k: nat, w: Word, ghost fixed: set<nat>)
      requires Working(fixed) && f < MAX_FRAMES && f !in fixed && k < 1024
      modifies this`mem, this`view
      ensures Working(fixed) && view == WithEntry(old(view), f, k, Decode(w))
      ensures mem == SetWord(old(mem), f * 4096 + k * 4, w)
      ensures forall g: nat :: g != f ==> SameFrame(old(mem), mem, g)
    {
      StoreEntry(f, k, w);
      StillSees(old(view), view, cr3, fixed, kernel);
    }

    method LoadByte(a: nat) returns (b: Byte)
      requires Reflects(mem, view) && cr3 < MAX_FRAMES && a < TWO32 && Sees(view, cr3, a / 4096)
      ensures b == mem[a]
    {
      WalkIdentity(mem, view, cr3, a / 4096);
      b := mem[Walk(mem, cr3, a / 4096) * 4096 + a % 4096];
    }

    /** Stores byte `o` of a frame outside `fixed`. */
    method StoreByte(f: nat, o: nat, b: Byte, ghost fixed: set<nat>)
      requires Working(fixed) && f < MAX_FRAMES && f !in fixed && o < 4096
      modifies this`mem, this`view
      ensures Working(fixed) && mem == old(mem)[f * 4096 + o := b]
      ensures Elsewhere(old(mem), old(view), mem, view, f)
    {
      WalkIdentity(mem, view, cr3, f);
      ByteStored(mem, view, f, o, b);
      mem := mem[Walk(mem, cr3, f) * 4096 + o := b];
      view := WithFrame(view, f, mem);
      StillSees(old(view), view, cr3, fixed, kernel);
    }
  }
}
