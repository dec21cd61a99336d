/** Building page directories: the kernel's identity directory and single-page mappings in it. */
module Paging {
  import opened Bits
  import opened Bytes
  import opened FrameSets
  import opened Translation
  import opened AddressSpace
  import opened Machine

  const NoEntry: Entry := Entry(0, false, false, false, false)

  lemma ElsewhereStep(m: Memory, v: View, m1: Memory, v1: View, m2: Memory, t: nat, k: nat, e: Entry)
    requires Elsewhere(m, v, m1, v1, t) && forall g: nat :: g != t ==> SameFrame(m1, m2, g)
    ensures Elsewhere(m, v, m2, WithEntry(v1, t, k, e), t)
  {
    forall g: nat | g != t ensures SameFrame(m, m2, g) && SameEntries(v, WithEntry(v1, t, k, e), g) {
      assert SameFrame(m, m1, g) && SameFrame(m1, m2, g) && SameEntries(v, v1, g);
    }
  }

  /** Takes a frame from the allocator; negative when there is none. */
  method AllocFrame(mc: Machine, ghost fixed: set<nat>) returns (t: int)
    requires mc.Working(fixed)
    modifies mc.frames`usedCount, mc.frames`used, mc.frames.bitmap
    ensures mc.Working(fixed)
    ensures (t < 0 <==> NoRun(old(mc.frames.used), 1)) && (t < 0 ==> mc.frames.used == old(mc.frames.used))
    ensures t >= 0 ==> t < MAX_FRAMES && LowestFree(old(mc.frames.used), t)
    ensures t >= 0 ==> mc.frames.used == old(mc.frames.used) + {t}
  {
    var addr := mc.frames.Alloc();
    ghost var before := old(mc.frames.used);
    if addr == 0 {
      FrameZeroTaken(before, addr, mc.frames.used);
      return -1;
    }
    t := addr / PAGE_SIZE;
    FrameTaken(before, addr, mc.frames.used);
  }

  lemma FrameZeroTaken(before: set<nat>, addr: nat, after: set<nat>)
    requires FirstFit(before, 1, addr, after) && addr == 0 && 0 in before
    ensures NoRun(before, 1) && after == before
  {
  }

  lemma FrameTaken(before: set<nat>, addr: nat, after: set<nat>)
    requires FirstFit(before, 1, addr, after) && addr != 0
    ensures !NoRun(before, 1)
    ensures addr / PAGE_SIZE < MAX_FRAMES && LowestFree(before, addr / PAGE_SIZE)
    ensures after == before + {addr / PAGE_SIZE}
  {
    var t := addr / PAGE_SIZE;
    forall g: nat | g < t ensures g in before { assert !FreeRun(before, g, 1); }
    assert t !in before && Range(t, t + 1) == {t};
  }

  /** Stores one packed entry of a frame that is being filled. */
  method StorePacked(mc: Machine, t: nat, k: nat, f: nat, flags: nat, ghost fixed: set<nat>, ghost m0: Memory,
                     ghost v0: View)
    requires mc.Working(fixed) && t < MAX_FRAMES && t !in fixed && k < 1024 && f < MAX_FRAMES && flags < 4096
    requires Elsewhere(m0, v0, mc.mem, mc.view, t)
    modifies mc`mem, mc`view
    ensures mc.Working(fixed) && Elsewhere(m0, v0, mc.mem, mc.view, t)
    ensures mc.view(t, k) == Decode(f * 4096 + flags)
    ensures forall l :: 0 <= l < 1024 && l != k ==> mc.view(t, l) == old(mc.view)(t, l)
  {
    var w := Pack(f, flags);
    ghost var m1, v1 := mc.mem, mc.view;
    mc.Store(t, k, w, fixed);
    ElsewhereStep(m0, v0, m1, v1, mc.mem, t, k, Decode(w));
  }

  /** Fills the table in frame `t` with supervisor identity pages from frame `base` on. */
  method FillTable(mc: Machine, t: nat, base: nat, ghost fixed: set<nat>)
    requires mc.Working(fixed) && t < MAX_FRAMES && t !in fixed && base + 1024 <= MAX_FRAMES
    modifies mc`mem, mc`view
    ensures mc.Working(fixed) && Elsewhere(old(mc.mem), old(mc.view), mc.mem, mc.view, t)
    ensures forall k :: 0 <= k < 1024 ==> mc.view(t, k) == Entry(base + k, true, true, false, false)
  {
    for k := 0 to 1024
      invariant mc.Working(fixed) && Elsewhere(old(mc.mem), old(mc.view), mc.mem, mc.view, t)
      invariant forall l :: 0 <= l < k ==> mc.view(t, l) == Entry(base + l, true, true, false, false)
    {
      StorePacked(mc, t, k, base + k, 3, fixed, old(mc.mem), old(mc.view));
      DecodeParts(base + k, 3);
    }
  }

  /** Clears the table in frame `t`. */
  method ClearTable(mc: Machine, t: nat, ghost fixed: set<nat>)
    requires mc.Working(fixed) && t < MAX_FRAMES && t !in fixed
    modifies mc`mem, mc`view
    ensures mc.Working(fixed) && Elsewhere(old(mc.mem), old(mc.view), mc.mem, mc.view, t)
    ensures forall k :: 0 <= k < 1024 ==> mc.view(t, k) == NoEntry
  {
    for k := 0 to 1024
      invariant mc.Working(fixed) && Elsewhere(old(mc.mem), old(mc.view), mc.mem, mc.view, t)
      invariant forall l :: 0 <= l < k ==> mc.view(t, l) == NoEntry
    {
      StorePacked(mc, t, k, 0, 0, fixed, old(mc.mem), old(mc.view));
    }
  }

  /** Fills the directory in frame `d` with the kernel's 4 MiB identity pages. */
  method FillDirectory(mc: Machine, d: nat, ghost fixed: set<nat>)
    requires mc.Working(fixed) && d < MAX_FRAMES && d !in fixed
    modifies mc`mem, mc`view
    ensures mc.Working(fixed) && Elsewhere(old(mc.mem), old(mc.view), mc.mem, mc.view, d)
    ensures forall k :: 0 <= k < 1024 ==> IsKernelPage(mc.view(d, k), k)
  {
    for k := 0 to 1024
      invariant mc.Working(fixed) && Elsewhere(old(mc.mem), old(mc.view), mc.mem, mc.view, d)
      invariant forall l :: 0 <= l < k ==> IsKernelPage(mc.view(d, l), l)
    {
      StorePacked(mc, d, k, k * 1024, 0x83, fixed, old(mc.mem), old(mc.view));
      DecodeParts(k * 1024, 0x83);
    }
  }

  /** A directory under construction: none of its frames is in `fixed`. */
  ghost predicate UnderConstruction(v: View, d: nat, used: set<nat>, fixed: set<nat>) {
    Directory(v, d, used) && d !in fixed && forall f :: f in fixed ==> !Owns(v, d, f)
  }

  /** Entry `i` leads to the table in frame `t`, open to user mode if asked for, and no translation changed. */
  ghost predicate Prepared(v: View, v': View, d: nat, i: nat, user: bool, t: nat) {
    IsTable(v'(d, i)) && v'(d, i).frame == t && (user ==> v'(d, i).user) && SameTranslations(v, v', d)
  }

  ghost predicate OwnsMore(v: View, v': View, d: nat, t: int) {
    forall f :: Owns(v', d, f) ==> Owns(v, d, f) || f == t
  }

  ghost predicate OtherEntries(v: View, v': View, d: nat, i: nat) {
    forall k :: 0 <= k < 1024 && k != i ==> v'(d, k) == v(d, k)
  }

  /** Creates a directory of identity pages in a fresh frame; negative when there is none. */
  method CreateKernelDir(mc: Machine, ghost fixed: set<nat>) returns (d: int)
    requires mc.Working(fixed)
    modifies mc`mem, mc`view, mc.frames`usedCount, mc.frames`used, mc.frames.bitmap
    ensures mc.Working(fixed)
    ensures d < 0 <==> NoRun(old(mc.frames.used), 1)
    ensures d < 0 ==> mc.frames.used == old(mc.frames.used) && mc.mem == old(mc.mem) && mc.view == old(mc.view)
    ensures d >= 0 ==> d !in old(mc.frames.used) && mc.frames.used == old(mc.frames.used) + {d}
    ensures d >= 0 ==> UnderConstruction(mc.view, d, mc.frames.used, fixed)
    ensures d >= 0 ==> forall k :: 0 <= k < 1024 ==> IsKernelPage(mc.view(d, k), k)
    ensures d >= 0 ==> Elsewhere(old(mc.mem), old(mc.view), mc.mem, mc.view, d)
  {
    d := AllocFrame(mc, fixed);
    if d < 0 { return; }
    FillDirectory(mc, d, fixed);
    IdentityDirectory(mc.view, d, mc.frames.used);
  }

  /** A directory of identity pages meets the invariant and maps every address to itself, for the kernel only. */
  lemma IdentityDirectory(v: View, d: nat, used: set<nat>)
    requires d < MAX_FRAMES && d in used && forall k :: 0 <= k < 1024 ==> IsKernelPage(v(d, k), k)
    ensures Directory(v, d, used) && forall f :: !Owns(v, d, f)
    ensures forall i, j, o :: 0 <= i < 1024 && 0 <= j < 1024 && 0 <= o < 4096 ==>
              Translate(v, d, i, j, o) == Mapped(VirtualAddress(i, j, o), false, true)
  {
  }

  lemma FreshTableLinked(v: View, m: Memory, v1: View, m1: Memory, v2: View, d: nat, i: nat, t: nat, user: bool,
                         used: set<nat>)
    requires Directory(v, d, used) && i < 1024 && t < MAX_FRAMES && t !in used && Repeats(v, d, i, v1, t)
    requires Elsewhere(m, v, m1, v1, t) && v2 == WithEntry(v1, d, i, Entry(t, true, true, user, false))
    ensures Directory(v2, d, used + {t}) && Prepared(v, v2, d, i, user, t) && OwnsMore(v, v2, d, t)
    ensures OtherEntries(v, v2, d, i)
  {
    assert SameEntries(v, v1, d);
    forall f | f in used && f != d ensures SameEntries(v, v2, f) { assert SameEntries(v, v1, f); }
    forall f | Owns(v2, d, f) ensures Owns(v, d, f) || f == t {
      var k :| 0 <= k < 1024 && IsTable(v2(d, k)) && v2(d, k).frame == f;
      if k != i { assert v(d, k) == v2(d, k); }
    }
    forall j | 0 <= j < 1024 ensures RepeatsAt(v, d, i, v2(t, j), j) { assert RepeatsAt(v, d, i, v1(t, j), j); }
    NewTable(v, v2, d, i, t, user, used);
  }

  method TableEntry(t: nat, user: bool) returns (w: Word)
    requires t < MAX_FRAMES
    ensures Decode(w) == Entry(t, true, true, user, false)
  {
    w := Pack(t, 3);
    DecodeParts(t, 3);
    if user { w := OpenToUser(w); }
  }

  /** Links the filled table in the fresh frame `t` behind entry `i`. */
  method LinkTable(mc: Machine, d: nat, i: nat, t: nat, user: bool, ghost fixed: set<nat>,
                   ghost m0: Memory, ghost v0: View, ghost used0: set<nat>)
    requires mc.Working(fixed) && UnderConstruction(v0, d, used0, fixed) && i < 1024 && fixed <= used0
    requires t < MAX_FRAMES && t !in used0 && mc.frames.used == used0 + {t}
    requires Elsewhere(m0, v0, mc.mem, mc.view, t) && Repeats(v0, d, i, mc.view, t)
    modifies mc`mem, mc`view
    ensures mc.Working(fixed) && UnderConstruction(mc.view, d, mc.frames.used, fixed)
    ensures Prepared(v0, mc.view, d, i, user, t) && OwnsMore(v0, mc.view, d, t) && OtherEntries(v0, mc.view, d, i)
    ensures forall f :: f in used0 && f != d ==> SameFrame(m0, mc.mem, f)
  {
    var w := TableEntry(t, user);
    ghost var v1, m1 := mc.view, mc.mem;
    mc.Store(d, i, w, fixed);
    FreshTableLinked(v0, m0, v1, m1, mc.view, d, i, t, user, used0);
    forall f | f in used0 && f != d ensures SameFrame(m0, mc.mem, f) {
      assert SameFrame(m0, m1, f) && SameFrame(m1, mc.mem, f);
    }
  }

  /** Splits the 4 MiB page at entry `i` into a table of 4 KiB pages. */
  method SplitPage(mc: Machine, d: nat, i: nat, w: Word, user: bool, ghost fixed: set<nat>) returns (t: int)
    requires mc.Working(fixed) && UnderConstruction(mc.view, d, mc.frames.used, fixed) && i < 1024
    requires IsKernelPage(mc.view(d, i), i) && Decode(w) == mc.view(d, i)
    modifies mc`mem, mc`view, mc.frames`usedCount, mc.frames`used, mc.frames.bitmap
    ensures mc.Working(fixed) && UnderConstruction(mc.view, d, mc.frames.used, fixed)
    ensures (t < 0 <==> NoRun(old(mc.frames.used), 1)) && (t < 0 ==> mc.frames.used == old(mc.frames.used))
    ensures t < 0 ==> mc.mem == old(mc.mem) && mc.view == old(mc.view)
    ensures t >= 0 ==> t !in old(mc.frames.used) && mc.frames.used == old(mc.frames.used) + {t}
    ensures t >= 0 ==> Prepared(old(mc.view), mc.view, d, i, user, t)
    ensures OwnsMore(old(mc.view), mc.view, d, t) && OtherEntries(old(mc.view), mc.view, d, i)
    ensures forall f :: f in old(mc.frames.used) && f != d ==> SameFrame(old(mc.mem), mc.mem, f)
  {
    t := AllocFrame(mc, fixed);
    if t < 0 { return; }
    FillTable(mc, t, w / 0x40_0000 * 1024, fixed);
    SplitRepeats(old(mc.view), d, i, mc.view, t);
    LinkTable(mc, d, i, t, user, fixed, old(mc.mem), old(mc.view), old(mc.frames.used));
  }

  /** Puts an empty table behind the absent entry `i`. */
  method AddTable(mc: Machine, d: nat, i: nat, user: bool, ghost fixed: set<nat>) returns (t: int)
    requires mc.Working(fixed) && UnderConstruction(mc.view, d, mc.frames.used, fixed) && i < 1024
    requires !mc.view(d, i).present
    modifies mc`mem, mc`view, mc.frames`usedCount, mc.frames`used, mc.frames.bitmap
    ensures mc.Working(fixed) && UnderConstruction(mc.view, d, mc.frames.used, fixed)
    ensures (t < 0 <==> NoRun(old(mc.frames.used), 1)) && (t < 0 ==> mc.frames.used == old(mc.frames.used))
    ensures t < 0 ==> mc.mem == old(mc.mem) && mc.view == old(mc.view)
    ensures t >= 0 ==> t !in old(mc.frames.used) && mc.frames.used == old(mc.frames.used) + {t}
    ensures t >= 0 ==> Prepared(old(mc.view), mc.view, d, i, user, t)
    ensures OwnsMore(old(mc.view), mc.view, d, t) && OtherEntries(old(mc.view), mc.view, d, i)
    ensures forall f :: f in old(mc.frames.used) && f != d ==> SameFrame(old(mc.mem), mc.mem, f)
  {
    t := AllocFrame(mc, fixed);
    if t < 0 { return; }
    ClearTable(mc, t, fixed);
    LinkTable(mc, d, i, t, user, fixed, old(mc.mem), old(mc.view), old(mc.frames.used));
  }

  /** Opens the existing table entry `i` to user mode if asked for. */
  method OpenTable(mc: Machine, d: nat, i: nat, w: Word, user: bool, ghost fixed: set<nat>) returns (t: nat)
    requires mc.Working(fixed) && UnderConstruction(mc.view, d, mc.frames.used, fixed) && i < 1024
    requires IsTable(mc.view(d, i)) && Decode(w) == mc.view(d, i)
    modifies mc`mem, mc`view
    ensures mc.Working(fixed) && UnderConstruction(mc.view, d, mc.frames.used, fixed)
    ensures t == old(mc.view)(d, i).frame && Prepared(old(mc.view), mc.view, d, i, user, t)
    ensures OwnsMore(old(mc.view), mc.view, d, t) && OtherEntries(old(mc.view), mc.view, d, i)
    ensures forall f :: f in mc.frames.used && f != d ==> SameFrame(old(mc.mem), mc.mem, f)
  {
    t := w / 4096;
    assert EntryOk(mc.view, d, i, mc.frames.used);
    var open := HasFlag(w, 2);
    if user && !open {
      var userEntry := OpenToUser(w);
      ghost var v0 := mc.view;
      mc.Store(d, i, userEntry, fixed);
      OpenedToUser(v0, mc.view, d, i, mc.frames.used);
      SameOwners(v0, mc.view, d);
    }
  }

  lemma SameOwners(v: View, v': View, d: nat)
    requires forall k :: 0 <= k < 1024 ==> v'(d, k).frame == v(d, k).frame && (IsTable(v'(d, k)) <==> IsTable(v(d, k)))
    ensures forall f :: Owns(v', d, f) <==> Owns(v, d, f)
  {
  }

  /** Finds or makes the page table behind entry `i`; negative when a frame was needed and there is none. */
  method EnsureTable(mc: Machine, d: nat, i: nat, user: bool, ghost fixed: set<nat>) returns (t: int)
    requires mc.Working(fixed) && UnderConstruction(mc.view, d, mc.frames.used, fixed) && i < 1024
    modifies mc`mem, mc`view, mc.frames`usedCount, mc.frames`used, mc.frames.bitmap
    ensures mc.Working(fixed) && UnderConstruction(mc.view, d, mc.frames.used, fixed)
    ensures t < 0 <==> !IsTable(old(mc.view)(d, i)) && NoRun(old(mc.frames.used), 1)
    ensures t < 0 ==> mc.frames.used == old(mc.frames.used) && mc.mem == old(mc.mem) && mc.view == old(mc.view)
    ensures t >= 0 ==> Prepared(old(mc.view), mc.view, d, i, user, t) && t < MAX_FRAMES
    ensures t >= 0 && IsTable(old(mc.view)(d, i)) ==>
              mc.frames.used == old(mc.frames.used) && t == old(mc.view)(d, i).frame
    ensures t >= 0 && !IsTable(old(mc.view)(d, i)) ==>
              t !in old(mc.frames.used) && mc.frames.used == old(mc.frames.used) + {t}
    ensures OwnsMore(old(mc.view), mc.view, d, t) && OtherEntries(old(mc.view), mc.view, d, i)
    ensures forall f :: f in old(mc.frames.used) && f != d ==> SameFrame(old(mc.mem), mc.mem, f)
  {
    assert EntryOk(mc.view, d, i, mc.frames.used);
    var w := mc.LoadEntry(d, i);
    var large := HasFlag(w, 7);
    var present := HasFlag(w, 0);
    if large {
      t := SplitPage(mc, d, i, w, user, fixed);
    } else if !present {
      t := AddTable(mc, d, i, user, fixed);
    } else {
      t := OpenTable(mc, d, i, w, user, fixed);
    }
  }

  /** Writes entry `j` of the table behind directory entry `i`. */
  method WritePage(mc: Machine, d: nat, i: nat, j: nat, w: Word, ghost fixed: set<nat>)
    requires mc.Working(fixed) && UnderConstruction(mc.view, d, mc.frames.used, fixed)
    requires i < 1024 && j < 1024 && IsTable(mc.view(d, i)) && (Decode(w).user ==> mc.view(d, i).user)
    modifies mc`mem, mc`view
    ensures mc.Working(fixed) && UnderConstruction(mc.view, d, mc.frames.used, fixed)
    ensures Remapped(old(mc.view), mc.view, d, i, j, Decode(w)) && SameEntries(old(mc.view), mc.view, d)
    ensures forall f :: Owns(mc.view, d, f) <==> Owns(old(mc.view), d, f)
    ensures forall g: nat :: g != old(mc.view)(d, i).frame ==> SameFrame(old(mc.mem), mc.mem, g)
  {
    ghost var v := mc.view;
    assert EntryOk(v, d, i, mc.frames.used);
    var pde := mc.LoadEntry(d, i);
    var t := pde / 4096;
    assert Owns(v, d, t);
    mc.Store(t, j, w, fixed);
    PageMapped(v, mc.view, d, i, j, Decode(w), mc.frames.used);
    SameOwners(v, mc.view, d);
  }

  lemma RemappedAfter(v: View, v1: View, v2: View, d: nat, i: nat, j: nat, e: Entry)
    requires SameTranslations(v, v1, d) && Remapped(v1, v2, d, i, j, e) && i < 1024 && j < 1024
    ensures Remapped(v, v2, d, i, j, e)
  {
    assert SameRow(v, v1, d, i);
    forall j' | 0 <= j' < 1024 && j' != j ensures SameTranslation(v, v2, d, i, j') {
      assert SameTranslation(v, v1, d, i, j') && SameTranslation(v1, v2, d, i, j');
    }
    forall i' | 0 <= i' < 1024 && i' != i ensures SameRow(v, v2, d, i') {
      assert SameRow(v, v1, d, i') && SameRow(v1, v2, d, i');
      forall j' | 0 <= j' < 1024 ensures SameTranslation(v, v2, d, i', j') {
        assert SameTranslation(v, v1, d, i', j') && SameTranslation(v1, v2, d, i', j');
      }
    }
  }

  /** Maps the page at `i`, `j` to frame `p` with the given flags. Fails only when a page table was needed and no
      frame was left; then nothing changed. */
  method MapPage(mc: Machine, d: nat, i: nat, j: nat, p: nat, flags: nat, ghost fixed: set<nat>) returns (ok: bool)
    requires mc.Working(fixed) && UnderConstruction(mc.view, d, mc.frames.used, fixed)
    requires i < 1024 && j < 1024 && p < MAX_FRAMES && flags < 4096
    modifies mc`mem, mc`view, mc.frames`usedCount, mc.frames`used, mc.frames.bitmap
    ensures mc.Working(fixed) && UnderConstruction(mc.view, d, mc.frames.used, fixed)
    ensures ok <==> IsTable(old(mc.view)(d, i)) || !NoRun(old(mc.frames.used), 1)
    ensures !ok ==> mc.frames.used == old(mc.frames.used) && mc.mem == old(mc.mem) && mc.view == old(mc.view)
    ensures ok ==> Remapped(old(mc.view), mc.view, d, i, j, Decode(p * 4096 + flags)) && IsTable(mc.view(d, i))
    ensures old(mc.frames.used) <= mc.frames.used
    ensures |mc.frames.used| == |old(mc.frames.used)| + if ok && !IsTable(old(mc.view)(d, i)) then 1 else 0
    ensures forall f :: Owns(mc.view, d, f) ==> Owns(old(mc.view), d, f) || f !in old(mc.frames.used)
    ensures OtherEntries(old(mc.view), mc.view, d, i)
    ensures forall f :: f in old(mc.frames.used) && f != d && !Owns(old(mc.view), d, f) ==>
                          SameFrame(old(mc.mem), mc.mem, f)
  {
    var user := HasFlag(flags, 2);
    var t := EnsureTable(mc, d, i, user, fixed);
    if t < 0 { return false; }
    ok := true;
    var w := Pack(p, flags);
    DecodeParts(p, flags);
    ghost var v1, m1 := mc.view, mc.mem;
    WritePage(mc, d, i, j, w, fixed);
    RemappedAfter(old(mc.view), v1, mc.view, d, i, j, Decode(w));
    forall f | f in old(mc.frames.used) && f != d && !Owns(old(mc.view), d, f)
      ensures SameFrame(old(mc.mem), mc.mem, f)
    {
      NotTheTable(old(mc.view), d, i, t, f, old(mc.frames.used));
      assert SameFrame(old(mc.mem), m1, f) && SameFrame(m1, mc.mem, f);
    }
  }

  lemma NotTheTable(v: View, d: nat, i: nat, t: nat, f: nat, used: set<nat>)
    requires f in used && !Owns(v, d, f) && i < 1024
    requires if IsTable(v(d, i)) then t == v(d, i).frame else t !in used
    ensures f != t
  {
  }
}
