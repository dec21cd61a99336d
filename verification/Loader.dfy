/** Building a process: its kernel stack, its address space and the program in it. */
module Loader {
  import opened Bytes
  import opened FrameSets
  import opened Translation
  import opened AddressSpace
  import opened Machine
  import opened Paging

  /** A source address the kernel can read at its own address, in a frame that is not being written. */
  ghost predicate Readable(v: View, d: nat, fixed: set<nat>, a: nat) {
    a < TWO32 && a / 4096 in fixed && Sees(v, d, a / 4096)
  }

  lemma ReadableKept(v: View, v': View, d: nat, fixed: set<nat>, a: nat)
    requires Directory(v, d, fixed) && (forall g :: g in fixed ==> SameEntries(v, v', g)) && Readable(v, d, fixed, a)
    ensures Readable(v', d, fixed, a)
  {
    SeesKept(v, v', d, fixed, a / 4096);
  }

  /** Frame `c` holds page `i` of `data`, filled up with zeros. */
  ghost predicate PageHolds(m: Memory, c: nat, data: seq<Byte>, i: nat) {
    c < MAX_FRAMES && forall o :: 0 <= o < 4096 ==> FrameByte(m, c, o) == ByteOf(data, i * 4096 + o)
  }

  function FrameByte(m: Memory, c: nat, o: nat): Byte
    requires c < MAX_FRAMES && o < 4096
  {
    m[c * 4096 + o]
  }

  function ByteOf(data: seq<Byte>, k: nat): Byte {
    if k < |data| then data[k] else 0
  }

  lemma PageHoldsKept(m: Memory, m': Memory, c: nat, data: seq<Byte>, i: nat)
    requires PageHolds(m, c, data, i) && SameFrame(m, m', c)
    ensures PageHolds(m', c, data, i)
  {
    forall o | 0 <= o < 4096 ensures FrameByte(m', c, o) == FrameByte(m, c, o) { }
  }

  /** Copies `len` bytes from `src` into frame `c` and clears the rest of it; with `len` zero it clears it all. */
  method CopyPage(mc: Machine, c: nat, src: nat, len: nat, ghost fixed: set<nat>)
    requires mc.Working(fixed) && c < MAX_FRAMES && c !in fixed && len <= 4096 && src + len <= TWO32
    requires forall a :: src <= a < src + len ==> Readable(mc.view, mc.cr3, fixed, a)
    modifies mc`mem, mc`view
    ensures mc.Working(fixed) && Elsewhere(old(mc.mem), old(mc.view), mc.mem, mc.view, c)
    ensures forall k :: 0 <= k < 4096 ==> FrameByte(mc.mem, c, k) == if k < len then old(mc.mem)[src + k] else 0
  {
    for k := 0 to 4096
      invariant mc.Working(fixed) && Elsewhere(old(mc.mem), old(mc.view), mc.mem, mc.view, c)
      invariant forall l :: 0 <= l < k ==> FrameByte(mc.mem, c, l) == if l < len then old(mc.mem)[src + l] else 0
    {
      var b := 0;
      if k < len {
        assert Readable(old(mc.view), mc.cr3, fixed, src + k);
        ReadableKept(old(mc.view), mc.view, mc.cr3, fixed, src + k);
        ByteKept(old(mc.mem), mc.mem, src + k);
        b := mc.LoadByte(src + k);
      }
      PutByte(mc, c, k, b, fixed, old(mc.mem), old(mc.view));
    }
  }

  method PutByte(mc: Machine, c: nat, k: nat, b: Byte, ghost fixed: set<nat>, ghost m0: Memory, ghost v0: View)
    requires mc.Working(fixed) && c < MAX_FRAMES && c !in fixed && k < 4096
    requires Elsewhere(m0, v0, mc.mem, mc.view, c)
    modifies mc`mem, mc`view
    ensures mc.Working(fixed) && Elsewhere(m0, v0, mc.mem, mc.view, c)
    ensures FrameByte(mc.mem, c, k) == b
    ensures forall l :: 0 <= l < 4096 && l != k ==> FrameByte(mc.mem, c, l) == FrameByte(old(mc.mem), c, l)
  {
    ghost var m1, v1 := mc.mem, mc.view;
    mc.StoreByte(c, k, b, fixed);
    ElsewhereTrans(m0, v0, m1, v1, mc.mem, mc.view, c);
  }

  lemma ElsewhereTrans(m: Memory, v: View, m1: Memory, v1: View, m2: Memory, v2: View, t: nat)
    requires Elsewhere(m, v, m1, v1, t) && Elsewhere(m1, v1, m2, v2, t)
    ensures Elsewhere(m, v, m2, v2, t)
  {
    forall g: nat | g != t ensures SameFrame(m, m2, g) && SameEntries(v, v2, g) {
      assert SameFrame(m, m1, g) && SameFrame(m1, m2, g) && SameEntries(v, v1, g) && SameEntries(v1, v2, g);
    }
  }

  /** Filling a fresh frame leaves a directory under construction as it was. */
  lemma FillKeeps(m: Memory, v: View, m': Memory, v': View, d: nat, used: set<nat>, fixed: set<nat>, c: nat)
    requires UnderConstruction(v, d, used, fixed) && Elsewhere(m, v, m', v', c) && c !in used
    ensures UnderConstruction(v', d, used + {c}, fixed) && SameEntries(v, v', d)
    ensures forall p: nat :: p < MAX_FRAMES ==> SamePage(v, v', d, p)
    ensures forall f :: Owns(v', d, f) <==> Owns(v, d, f)
  {
    assert SameEntries(v, v', d);
    forall f | f in used ensures SameEntries(v, v', f) { }
    PartUsed(v, d, used);
    Untouched(v, v', d, used);
    SamePages(v, v', d);
    SameOwners(v, v', d);
    DirectoryGrows(v', d, used, used + {c});
  }

  /** Frame `f` belongs to the process but is neither its directory nor one of its page tables. */
  ghost predicate Private(v: View, d: nat, used: set<nat>, fixed: set<nat>, f: nat) {
    f < MAX_FRAMES && f in used && f !in fixed && f != d && !Owns(v, d, f)
  }

  const USER_FLAGS: nat := 7

  function UserPage(c: nat): Mapping {
    Mapped(c * 4096, true, true)
  }

  lemma UserEntry(c: nat)
    requires c < MAX_FRAMES
    ensures Target(Decode(c * 4096 + USER_FLAGS), 0) == UserPage(c)
  {
    DecodeParts(c, USER_FLAGS);
  }

  lemma OwnedUsed(v: View, d: nat, used: set<nat>, f: nat)
    requires Directory(v, d, used) && Owns(v, d, f)
    ensures f in used && f != d
  {
    var i :| 0 <= i < 1024 && IsTable(v(d, i)) && v(d, i).frame == f;
    assert EntryOk(v, d, i, used);
  }

  /** Takes a fresh frame for the process of directory `d` and fills it. */
  method NewFrame(mc: Machine, d: nat, src: nat, len: nat, ghost fixed: set<nat>) returns (c: int)
    requires mc.Working(fixed) && UnderConstruction(mc.view, d, mc.frames.used, fixed)
    requires len <= 4096 && src + len <= TWO32
    requires forall a :: src <= a < src + len ==> Readable(mc.view, mc.cr3, fixed, a)
    modifies mc`mem, mc`view, mc.frames`usedCount, mc.frames`used, mc.frames.bitmap
    ensures mc.Working(fixed) && UnderConstruction(mc.view, d, mc.frames.used, fixed)
    ensures c < 0 <==> NoRun(old(mc.frames.used), 1)
    ensures c < 0 ==> mc.frames.used == old(mc.frames.used) && mc.mem == old(mc.mem) && mc.view == old(mc.view)
    ensures c >= 0 ==> c !in old(mc.frames.used) && mc.frames.used == old(mc.frames.used) + {c}
    ensures c >= 0 ==> Private(mc.view, d, mc.frames.used, fixed, c)
    ensures c >= 0 ==> forall k :: 0 <= k < 4096 ==>
                                     FrameByte(mc.mem, c, k) == if k < len then old(mc.mem)[src + k] else 0
    ensures c >= 0 ==> SameEntries(old(mc.view), mc.view, d)
    ensures forall p: nat :: p < MAX_FRAMES ==> SamePage(old(mc.view), mc.view, d, p)
    ensures forall f :: Owns(mc.view, d, f) <==> Owns(old(mc.view), d, f)
    ensures forall f :: f in old(mc.frames.used) ==> SameFrame(old(mc.mem), mc.mem, f)
  {
    c := AllocFrame(mc, fixed);
    if c < 0 { return; }
    CopyPage(mc, c, src, len, fixed);
    FillKeeps(old(mc.mem), old(mc.view), mc.mem, mc.view, d, old(mc.frames.used), fixed, c);
    if Owns(old(mc.view), d, c) { OwnedUsed(old(mc.view), d, old(mc.frames.used), c); }
  }

  /** Maps a filled private frame at page `p` for user mode. The mapping may silently fail; then no frame is left. */
  method MapUserPage(mc: Machine, d: nat, p: nat, c: nat, ghost fixed: set<nat>) returns (ghost mapped: bool)
    requires mc.Working(fixed) && UnderConstruction(mc.view, d, mc.frames.used, fixed) && p < MAX_FRAMES
    requires Private(mc.view, d, mc.frames.used, fixed, c)
    modifies mc`mem, mc`view, mc.frames`usedCount, mc.frames`used, mc.frames.bitmap
    ensures mc.Working(fixed) && UnderConstruction(mc.view, d, mc.frames.used, fixed)
    ensures mapped ==> PageRemapped(old(mc.view), mc.view, d, p, UserPage(c)) && IsTable(mc.view(d, p / 1024))
    ensures !mapped ==> !IsTable(old(mc.view)(d, p / 1024)) && NoRun(mc.frames.used, 1)
    ensures !mapped ==> mc.frames.used == old(mc.frames.used) && mc.mem == old(mc.mem) && mc.view == old(mc.view)
    ensures mapped ==> IsTable(old(mc.view)(d, p / 1024)) || !NoRun(old(mc.frames.used), 1)
    ensures |mc.frames.used| == |old(mc.frames.used)| + if mapped && !IsTable(old(mc.view)(d, p / 1024)) then 1 else 0
    ensures old(mc.frames.used) <= mc.frames.used && OtherEntries(old(mc.view), mc.view, d, p / 1024)
    ensures forall f :: Private(old(mc.view), d, old(mc.frames.used), fixed, f) ==>
                          Private(mc.view, d, mc.frames.used, fixed, f)
    ensures forall f :: Private(old(mc.view), d, old(mc.frames.used), fixed, f) ==> SameFrame(old(mc.mem), mc.mem, f)
    ensures forall f :: f in fixed ==> SameFrame(old(mc.mem), mc.mem, f)
  {
    UserEntry(c);
    var ok := MapPage(mc, d, p / 1024, p % 1024, c, USER_FLAGS, fixed);
    mapped := ok;
    if ok { RemappedByPage(old(mc.view), mc.view, d, p, Decode(c * 4096 + USER_FLAGS)); }
  }

  const STACK_PAGE: nat := 0xBFFFF

  /** The intended mapping of page `p`: the program from page zero on, the stack page if there is one, and the
      kernel's identity mapping everywhere else. */
  function Expected(code: seq<nat>, stack: int, p: nat): Mapping {
    if p < |code| then UserPage(code[p])
    else if p == STACK_PAGE && stack >= 0 then UserPage(stack)
    else Mapped(p * 4096, false, true)
  }

  ghost predicate PageIs(v: View, d: nat, code: seq<nat>, stack: int, p: nat) {
    PageAt(v, d, p) == Expected(code, stack, p)
  }

  /** The address space of directory `d`, page by page. */
  ghost predicate Space(v: View, d: nat, code: seq<nat>, stack: int) {
    forall p: nat :: p < MAX_FRAMES ==> PageIs(v, d, code, stack, p)
  }

  lemma SpaceKept(v: View, v': View, d: nat, code: seq<nat>, stack: int)
    requires Space(v, d, code, stack) && forall p: nat :: p < MAX_FRAMES ==> SamePage(v, v', d, p)
    ensures Space(v', d, code, stack)
  {
    forall p: nat | p < MAX_FRAMES ensures PageIs(v', d, code, stack, p) {
      assert PageIs(v, d, code, stack, p) && SamePage(v, v', d, p);
    }
  }

  lemma SpaceExtended(v: View, v': View, d: nat, code: seq<nat>, c: nat)
    requires Space(v, d, code, -1) && |code| < STACK_PAGE && PageRemapped(v, v', d, |code|, UserPage(c))
    ensures Space(v', d, code + [c], -1)
  {
    forall p: nat | p < MAX_FRAMES ensures PageIs(v', d, code + [c], -1, p) {
      assert PageIs(v, d, code, -1, p);
      if p != |code| { assert SamePage(v, v', d, p); }
    }
  }

  lemma StackAdded(v: View, v': View, d: nat, code: seq<nat>, u: nat)
    requires Space(v, d, code, -1) && |code| <= STACK_PAGE && PageRemapped(v, v', d, STACK_PAGE, UserPage(u))
    ensures Space(v', d, code, u)
  {
    forall p: nat | p < MAX_FRAMES ensures PageIs(v', d, code, u, p) {
      assert PageIs(v, d, code, -1, p);
      if p != STACK_PAGE { assert SamePage(v, v', d, p); }
    }
  }

  /** Page tables needed for the first `i` pages. */
  function TablesFor(i: nat): nat {
    (i + 1023) / 1024
  }

  lemma TablesStep(i: nat)
    ensures TablesFor(i + 1) == i / 1024 + 1
    ensures TablesFor(i) == if i % 1024 == 0 then i / 1024 else i / 1024 + 1
  {
  }

  /** Exactly the first `k` directory entries are split into tables. */
  ghost predicate TablesUpTo(v: View, d: nat, k: nat) {
    forall r :: 0 <= r < 1024 ==> (IsTable(v(d, r)) <==> r < k)
  }

  /** The loader after `i` pages, starting from `base` used frames: all pages so far are mapped and the frames
      add up, or a page table could not be had and no frame is left. */
  ghost predicate Progress(v: View, d: nat, used: set<nat>, code: seq<nat>, base: nat, complete: bool) {
    var i := |code|;
    if complete then Space(v, d, code, -1) && TablesUpTo(v, d, TablesFor(i)) && |used| == base + i + TablesFor(i)
    else NoRun(used, 1) && base + i + TablesFor(i) > MAX_FRAMES
  }

  lemma ProgressMapped(v: View, v1: View, v2: View, d: nat, used: set<nat>, used2: set<nat>, code: seq<nat>,
                       base: nat, c: nat)
    requires Progress(v, d, used, code, base, true) && |code| < STACK_PAGE
    requires SameEntries(v, v1, d) && forall p: nat :: p < MAX_FRAMES ==> SamePage(v, v1, d, p)
    requires PageRemapped(v1, v2, d, |code|, UserPage(c)) && IsTable(v2(d, |code| / 1024))
    requires OtherEntries(v1, v2, d, |code| / 1024)
    requires |used2| == |used| + 1 + if IsTable(v1(d, |code| / 1024)) then 0 else 1
    ensures Progress(v2, d, used2, code + [c], base, true)
  {
    var i := |code|;
    TablesStep(i);
    SpaceKept(v, v1, d, code, -1);
    SpaceExtended(v1, v2, d, code, c);
    forall r | 0 <= r < 1024 ensures IsTable(v2(d, r)) <==> r < TablesFor(i + 1) {
      assert IsTable(v(d, r)) <==> r < TablesFor(i);
    }
  }

  lemma ProgressStuck(v: View, v1: View, d: nat, used: set<nat>, used2: set<nat>, code: seq<nat>, base: nat, c: nat)
    requires Progress(v, d, used, code, base, true) && |code| < STACK_PAGE && SameEntries(v, v1, d)
    requires !IsTable(v1(d, |code| / 1024)) && NoRun(used2, 1) && |used2| == |used| + 1
    requires forall f :: f in used2 ==> f < MAX_FRAMES
    ensures Progress(v1, d, used2, code + [c], base, false)
  {
    TablesStep(|code|);
    FullWhenNoRun(used2);
    assert IsTable(v(d, |code| / 1024)) <==> |code| / 1024 < TablesFor(|code|);
  }

  ghost predicate CodePageOk(m: Memory, v: View, d: nat, used: set<nat>, fixed: set<nat>, data: seq<Byte>,
                             code: seq<nat>, k: nat)
    requires k < |code|
  {
    Private(v, d, used, fixed, code[k]) && PageHolds(m, code[k], data, k)
  }

  /** The frames `code` are distinct frames of the process and hold the pages of `data` in order. */
  ghost predicate CodeOk(m: Memory, v: View, d: nat, used: set<nat>, fixed: set<nat>, data: seq<Byte>, code: seq<nat>) {
    && (forall k :: 0 <= k < |code| ==> CodePageOk(m, v, d, used, fixed, data, code, k))
    && forall k, l :: 0 <= k < l < |code| ==> code[k] != code[l]
  }

  /** What belongs to the process stays private to it and keeps its contents. */
  ghost predicate PrivateKept(m: Memory, v: View, used: set<nat>, m': Memory, v': View, used': set<nat>, d: nat,
                              fixed: set<nat>) {
    forall f :: Private(v, d, used, fixed, f) ==> Private(v', d, used', fixed, f) && SameFrame(m, m', f)
  }

  lemma PrivateKeptTrans(m: Memory, v: View, used: set<nat>, m1: Memory, v1: View, used1: set<nat>,
                         m2: Memory, v2: View, used2: set<nat>, d: nat, fixed: set<nat>)
    requires PrivateKept(m, v, used, m1, v1, used1, d, fixed) && PrivateKept(m1, v1, used1, m2, v2, used2, d, fixed)
    ensures PrivateKept(m, v, used, m2, v2, used2, d, fixed)
  {
  }

  lemma CodeKept(m: Memory, v: View, used: set<nat>, m': Memory, v': View, used': set<nat>, d: nat, fixed: set<nat>,
                 data: seq<Byte>, code: seq<nat>)
    requires CodeOk(m, v, d, used, fixed, data, code) && PrivateKept(m, v, used, m', v', used', d, fixed)
    ensures CodeOk(m', v', d, used', fixed, data, code)
  {
    forall k | 0 <= k < |code| ensures CodePageOk(m', v', d, used', fixed, data, code, k) {
      assert CodePageOk(m, v, d, used, fixed, data, code, k);
      PageHoldsKept(m, m', code[k], data, k);
    }
  }

  lemma CodeAppended(m: Memory, v: View, d: nat, used: set<nat>, fixed: set<nat>, data: seq<Byte>,
                     code: seq<nat>, c: nat)
    requires CodeOk(m, v, d, used, fixed, data, code) && c !in code
    requires Private(v, d, used, fixed, c) && PageHolds(m, c, data, |code|)
    ensures CodeOk(m, v, d, used, fixed, data, code + [c])
  {
    forall k | 0 <= k < |code| + 1 ensures CodePageOk(m, v, d, used, fixed, data, code + [c], k) {
      if k < |code| { assert CodePageOk(m, v, d, used, fixed, data, code, k); }
    }
  }

  lemma PageLoaded(m: Memory, v: View, used: set<nat>, m1: Memory, v1: View, used1: set<nat>,
                   m2: Memory, v2: View, used2: set<nat>, d: nat, fixed: set<nat>, data: seq<Byte>,
                   code: seq<nat>, c: nat)
    requires CodeOk(m, v, d, used, fixed, data, code) && c !in used
    requires PrivateKept(m, v, used, m1, v1, used1, d, fixed) && PrivateKept(m1, v1, used1, m2, v2, used2, d, fixed)
    requires Private(v1, d, used1, fixed, c) && PageHolds(m1, c, data, |code|)
    ensures CodeOk(m2, v2, d, used2, fixed, data, code + [c]) && PrivateKept(m, v, used, m2, v2, used2, d, fixed)
  {
    forall k | 0 <= k < |code| ensures code[k] != c { assert CodePageOk(m, v, d, used, fixed, data, code, k); }
    PrivateKeptTrans(m, v, used, m1, v1, used1, m2, v2, used2, d, fixed);
    CodeKept(m, v, used, m2, v2, used2, d, fixed, data, code);
    PageHoldsKept(m1, m2, c, data, |code|);
    CodeAppended(m2, v2, d, used2, fixed, data, code, c);
  }

  /** The program's bytes, readable by the kernel at `prog`. */
  ghost predicate SourceOk(m: Memory, v: View, cr3: nat, fixed: set<nat>, prog: nat, data: seq<Byte>) {
    && prog + |data| <= TWO32
    && (forall a :: prog <= a < prog + |data| ==> Readable(v, cr3, fixed, a))
    && forall k :: 0 <= k < |data| ==> m[prog + k] == data[k]
  }

  ghost predicate FixedKept(m: Memory, m': Memory, fixed: set<nat>) {
    forall f :: f in fixed ==> SameFrame(m, m', f)
  }

  lemma SourceKept(m: Memory, v: View, m': Memory, v': View, cr3: nat, fixed: set<nat>, prog: nat, data: seq<Byte>)
    requires SourceOk(m, v, cr3, fixed, prog, data) && Directory(v, cr3, fixed) && FixedKept(m, m', fixed)
    requires Reflects(m, v) && Reflects(m', v') && forall f :: f in fixed ==> f < MAX_FRAMES
    ensures SourceOk(m', v', cr3, fixed, prog, data)
  {
    forall f | f in fixed ensures SameEntries(v, v', f) { SameFrameEntries(m, v, m', v', f); }
    forall a | prog <= a < prog + |data| ensures Readable(v', cr3, fixed, a) {
      assert Readable(v, cr3, fixed, a);
      ReadableKept(v, v', cr3, fixed, a);
    }
    forall k | 0 <= k < |data| ensures m'[prog + k] == data[k] {
      assert Readable(v, cr3, fixed, prog + k);
      ByteKept(m, m', prog + k);
    }
  }

  lemma PageCopied(m: Memory, m': Memory, c: nat, prog: nat, data: seq<Byte>, i: nat, len: nat)
    requires c < MAX_FRAMES && prog + |data| <= TWO32 && (forall k :: 0 <= k < |data| ==> m[prog + k] == data[k])
    requires i * 4096 < |data| && len == (if |data| - i * 4096 > 4096 then 4096 else |data| - i * 4096)
    requires forall k :: 0 <= k < 4096 ==> FrameByte(m', c, k) == if k < len then m[prog + i * 4096 + k] else 0
    ensures PageHolds(m', c, data, i)
  {
  }

  /** While a frame is left the loader is complete and far below the stack page; when none is, the frames the pages
      need add up to all there are. */
  lemma RoomLeft(v: View, d: nat, used: set<nat>, code: seq<nat>, base: nat, complete: bool)
    requires Progress(v, d, used, code, base, complete) && |code| < base && forall f :: f in used ==> f < MAX_FRAMES
    ensures if NoRun(used, 1) then base + |code| + TablesFor(|code|) >= MAX_FRAMES else complete && |code| < STACK_PAGE
  {
    FullWhenNoRun(used);
  }

  /** Loads the next page of the program. */
  method LoadPage(mc: Machine, d: nat, i: nat, prog: nat, size: nat, ghost fixed: set<nat>, ghost data: seq<Byte>,
                  ghost code: seq<nat>, ghost base: nat, ghost before: bool)
    returns (c: int, ghost complete: bool)
    requires mc.Working(fixed) && UnderConstruction(mc.view, d, mc.frames.used, fixed)
    requires SourceOk(mc.mem, mc.view, mc.cr3, fixed, prog, data) && size == |data| && i == |code| && i * 4096 < size
    requires CodeOk(mc.mem, mc.view, d, mc.frames.used, fixed, data, code) && i < base
    requires Progress(mc.view, d, mc.frames.used, code, base, before)
    modifies mc`mem, mc`view, mc.frames`usedCount, mc.frames`used, mc.frames.bitmap
    ensures mc.Working(fixed) && UnderConstruction(mc.view, d, mc.frames.used, fixed)
    ensures c < 0 ==> base + i + TablesFor(i) >= MAX_FRAMES
    ensures old(mc.frames.used) <= mc.frames.used && (c >= 0 ==> c !in old(mc.frames.used))
    ensures c >= 0 ==> CodeOk(mc.mem, mc.view, d, mc.frames.used, fixed, data, code + [c])
    ensures c >= 0 ==> Progress(mc.view, d, mc.frames.used, code + [c], base, complete)
    ensures PrivateKept(old(mc.mem), old(mc.view), old(mc.frames.used), mc.mem, mc.view, mc.frames.used, d, fixed)
    ensures FixedKept(old(mc.mem), mc.mem, fixed)
  {
    complete := false;
    var len := size - i * 4096;
    if len > 4096 { len := 4096; }
    ghost var m0, v0, used0 := mc.mem, mc.view, mc.frames.used;
    RoomLeft(v0, d, used0, code, base, before);
    c := NewFrame(mc, d, prog + i * 4096, len, fixed);
    if c < 0 { return; }
    PageCopied(m0, mc.mem, c, prog, data, i, len);
    ghost var m1, v1, used1 := mc.mem, mc.view, mc.frames.used;
    complete := MapUserPage(mc, d, i, c, fixed);
    PageLoaded(m0, v0, used0, m1, v1, used1, mc.mem, mc.view, mc.frames.used, d, fixed, data, code, c);
    if complete {
      ProgressMapped(v0, v1, mc.view, d, used0, mc.frames.used, code, base, c);
    } else {
      ProgressStuck(v0, v1, d, used0, mc.frames.used, code, base, c);
    }
  }

  lemma TablesMonotone(i: nat, n: nat)
    requires i <= n
    ensures TablesFor(i) <= TablesFor(n)
  {
  }

  /** Loads the whole program, page by page. */
  method LoadCode(mc: Machine, d: nat, prog: nat, size: nat, ghost fixed: set<nat>, ghost data: seq<Byte>)
    returns (ok: bool, ghost code: seq<nat>, ghost complete: bool)
    requires mc.Working(fixed) && UnderConstruction(mc.view, d, mc.frames.used, fixed)
    requires SourceOk(mc.mem, mc.view, mc.cr3, fixed, prog, data) && size == |data| <= 0xFFFF_F000
    requires Progress(mc.view, d, mc.frames.used, [], |mc.frames.used|, true) && PagesOf(size) <= |mc.frames.used|
    modifies mc`mem, mc`view, mc.frames`usedCount, mc.frames`used, mc.frames.bitmap
    ensures mc.Working(fixed) && UnderConstruction(mc.view, d, mc.frames.used, fixed)
    ensures !ok ==> |old(mc.frames.used)| + PagesOf(size) + TablesFor(PagesOf(size)) >= MAX_FRAMES
    ensures ok ==> |code| == PagesOf(size) && CodeOk(mc.mem, mc.view, d, mc.frames.used, fixed, data, code)
    ensures ok ==> old(mc.frames.used) <= mc.frames.used && AllFresh(code, old(mc.frames.used))
    ensures ok ==> Progress(mc.view, d, mc.frames.used, code, |old(mc.frames.used)|, complete)
    ensures PrivateKept(old(mc.mem), old(mc.view), old(mc.frames.used), mc.mem, mc.view, mc.frames.used, d, fixed)
    ensures FixedKept(old(mc.mem), mc.mem, fixed)
  {
    var pages := Wrap(size + 4095) / 4096;
    code, complete, ok := [], true, false;
    ghost var m0, v0, used0 := mc.mem, mc.view, mc.frames.used;
    var i := 0;
    while i < pages
      invariant mc.Working(fixed) && UnderConstruction(mc.view, d, mc.frames.used, fixed)
      invariant SourceOk(mc.mem, mc.view, mc.cr3, fixed, prog, data)
      invariant i == |code| <= pages && CodeOk(mc.mem, mc.view, d, mc.frames.used, fixed, data, code)
      invariant Progress(mc.view, d, mc.frames.used, code, |used0|, complete)
      invariant used0 <= mc.frames.used && AllFresh(code, used0)
      invariant PrivateKept(m0, v0, used0, mc.mem, mc.view, mc.frames.used, d, fixed) && FixedKept(m0, mc.mem, fixed)
    {
      ghost var m1, v1, used1 := mc.mem, mc.view, mc.frames.used;
      var c;
      c, complete := LoadPage(mc, d, i, prog, size, fixed, data, code, |used0|, complete);
      PrivateKeptTrans(m0, v0, used0, m1, v1, used1, mc.mem, mc.view, mc.frames.used, d, fixed);
      FixedKeptTrans(m0, m1, mc.mem, fixed);
      if c < 0 {
        TablesMonotone(i, pages);
        return;
      }
      SourceKept(m1, v1, mc.mem, mc.view, mc.cr3, fixed, prog, data);
      code := code + [c];
      i := i + 1;
    }
    ok := true;
  }

  lemma FixedKeptTrans(m: Memory, m1: Memory, m2: Memory, fixed: set<nat>)
    requires FixedKept(m, m1, fixed) && FixedKept(m1, m2, fixed)
    ensures FixedKept(m, m2, fixed)
  {
  }

  ghost predicate AllFresh(code: seq<nat>, used: set<nat>) {
    forall k :: 0 <= k < |code| ==> code[k] !in used
  }

  /** Pages of a program of `size` bytes. */
  function PagesOf(size: nat): nat {
    (size + 4095) / 4096
  }

  /** Word `k` of frame `f`. */
  function FrameWord(m: Memory, f: nat, k: nat): Word
    requires f < MAX_FRAMES && k < 1024
  {
    WordAt(m, f * 4096 + k * 4)
  }

  /** The frame holds `words` pushed from its top downwards. */
  ghost predicate Pushed(m: Memory, f: nat, words: seq<Word>) {
    f < MAX_FRAMES && |words| <= 1024 && forall j :: 0 <= j < |words| ==> FrameWord(m, f, 1023 - j) == words[j]
  }

  method StoreWordOf(mc: Machine, f: nat, k: nat, w: Word, ghost fixed: set<nat>, ghost m0: Memory, ghost v0: View)
    requires mc.Working(fixed) && f < MAX_FRAMES && f !in fixed && k < 1024 && Elsewhere(m0, v0, mc.mem, mc.view, f)
    modifies mc`mem, mc`view
    ensures mc.Working(fixed) && Elsewhere(m0, v0, mc.mem, mc.view, f)
    ensures FrameWord(mc.mem, f, k) == w
    ensures forall l :: 0 <= l < 1024 && l != k ==> FrameWord(mc.mem, f, l) == FrameWord(old(mc.mem), f, l)
  {
    ghost var m1, v1 := mc.mem, mc.view;
    mc.Store(f, k, w, fixed);
    ElsewhereStep(m0, v0, m1, v1, mc.mem, f, k, Decode(w));
    SetWordReads(m1, f * 4096 + k * 4, w);
    forall l | 0 <= l < 1024 && l != k ensures FrameWord(mc.mem, f, l) == FrameWord(m1, f, l) {
      SetWordKeeps(m1, f * 4096 + k * 4, w, f * 4096 + l * 4);
    }
  }

  /** Pushes words onto the empty stack that fills frame `f`; returns the slot of the last one. */
  method PushAll(mc: Machine, f: nat, words: seq<Word>, ghost fixed: set<nat>) returns (sp: nat)
    requires mc.Working(fixed) && f < MAX_FRAMES && f !in fixed && |words| <= 1024
    modifies mc`mem, mc`view
    ensures mc.Working(fixed) && Elsewhere(old(mc.mem), old(mc.view), mc.mem, mc.view, f)
    ensures sp == 1024 - |words| && Pushed(mc.mem, f, words)
  {
    sp := 1024;
    for i := 0 to |words|
      invariant mc.Working(fixed) && Elsewhere(old(mc.mem), old(mc.view), mc.mem, mc.view, f) && sp == 1024 - i
      invariant forall j :: 0 <= j < i ==> FrameWord(mc.mem, f, 1023 - j) == words[j]
    {
      sp := sp - 1;
      StoreWordOf(mc, f, sp, words[i], fixed, old(mc.mem), old(mc.view));
    }
  }

  /** Writing a private frame changes no page of the process and no other private frame. */
  lemma PrivateWrite(m: Memory, v: View, m': Memory, v': View, d: nat, used: set<nat>, fixed: set<nat>, c: nat)
    requires UnderConstruction(v, d, used, fixed) && Elsewhere(m, v, m', v', c) && c != d && !Owns(v, d, c)
    ensures UnderConstruction(v', d, used, fixed) && SameEntries(v, v', d)
    ensures forall p: nat :: p < MAX_FRAMES ==> SamePage(v, v', d, p)
    ensures forall f :: Private(v, d, used, fixed, f) <==> Private(v', d, used, fixed, f)
  {
    Untouched(v, v', d, used);
    SamePages(v, v', d);
    assert SameEntries(v, v', d);
    SameOwners(v, v', d);
  }

  lemma FreshSpace(v: View, d: nat, used: set<nat>)
    requires d < MAX_FRAMES && d in used && forall k :: 0 <= k < 1024 ==> IsKernelPage(v(d, k), k)
    ensures Progress(v, d, used, [], |used|, true)
  {
  }

  /** The kernel stack and the directory of a new process; negative when a frame is missing. */
  method Begin(mc: Machine, ghost fixed: set<nat>) returns (k: int, d: int)
    requires mc.Working(fixed) && fixed == mc.frames.used
    modifies mc`mem, mc`view, mc.frames`usedCount, mc.frames`used, mc.frames.bitmap
    ensures mc.Working(fixed) && FixedKept(old(mc.mem), mc.mem, fixed)
    ensures k < 0 || d < 0 ==> |fixed| + 2 > MAX_FRAMES
    ensures k >= 0 && d >= 0 ==> |mc.frames.used| == |fixed| + 2
    ensures k >= 0 && d >= 0 ==> UnderConstruction(mc.view, d, mc.frames.used, fixed)
    ensures k >= 0 && d >= 0 ==> Private(mc.view, d, mc.frames.used, fixed, k) && LowestFree(fixed, k)
    ensures k >= 0 && d >= 0 ==> Progress(mc.view, d, mc.frames.used, [], |mc.frames.used|, true)
  {
    FullWhenNoRun(fixed);
    d := -1;
    k := AllocFrame(mc, fixed);
    if k < 0 { return; }
    CopyPage(mc, k, 0, 0, fixed);
    ghost var m1 := mc.mem;
    FullWhenNoRun(mc.frames.used);
    d := CreateKernelDir(mc, fixed);
    if d < 0 { return; }
    FixedKeptTrans(old(mc.mem), m1, mc.mem, fixed);
    IdentityDirectory(mc.view, d, mc.frames.used);
    FreshSpace(mc.view, d, mc.frames.used);
  }

  lemma ZeroPage(m: Memory, c: nat, data: seq<Byte>, i: nat)
    requires c < MAX_FRAMES && |data| <= i * 4096 && forall k :: 0 <= k < 4096 ==> FrameByte(m, c, k) == 0
    ensures PageHolds(m, c, data, i)
  {
  }

  /** The user stack: a zeroed frame mapped at the stack page. The mapping silently fails when no frame is left for
      its page table. */
  method AddStack(mc: Machine, d: nat, ghost fixed: set<nat>, ghost data: seq<Byte>, ghost code: seq<nat>,
                  ghost base: nat, ghost complete: bool)
    returns (u: int, ghost mapped: bool)
    requires mc.Working(fixed) && UnderConstruction(mc.view, d, mc.frames.used, fixed) && |code| < base
    requires CodeOk(mc.mem, mc.view, d, mc.frames.used, fixed, data, code) && |data| <= |code| * 4096
    requires Progress(mc.view, d, mc.frames.used, code, base, complete)
    modifies mc`mem, mc`view, mc.frames`usedCount, mc.frames`used, mc.frames.bitmap
    ensures mc.Working(fixed) && FixedKept(old(mc.mem), mc.mem, fixed)
    ensures u < 0 <==> base + |code| + TablesFor(|code|) + 1 > MAX_FRAMES
    ensures u >= 0 ==> UnderConstruction(mc.view, d, mc.frames.used, fixed) && u !in old(mc.frames.used)
    ensures u >= 0 ==> (mapped <==> base + |code| + TablesFor(|code|) + 2 <= MAX_FRAMES)
    ensures u >= 0 ==> Space(mc.view, d, code, if mapped then u else -1)
    ensures u >= 0 ==> CodeOk(mc.mem, mc.view, d, mc.frames.used, fixed, data, code + [u])
    ensures u >= 0 ==>
              PrivateKept(old(mc.mem), old(mc.view), old(mc.frames.used), mc.mem, mc.view, mc.frames.used, d, fixed)
  {
    mapped := false;
    ghost var m0, v0, used0 := mc.mem, mc.view, mc.frames.used;
    FullWhenNoRun(used0);
    RoomLeft(v0, d, used0, code, base, complete);
    u := NewFrame(mc, d, 0, 0, fixed);
    if u < 0 { return; }
    ghost var m1, v1, used1 := mc.mem, mc.view, mc.frames.used;
    FullWhenNoRun(used1);
    ZeroPage(m1, u, data, |code|);
    mapped := MapUserPage(mc, d, STACK_PAGE, u, fixed);
    PageLoaded(m0, v0, used0, m1, v1, used1, mc.mem, mc.view, mc.frames.used, d, fixed, data, code, u);
    SpaceKept(v0, v1, d, code, -1);
    if mapped { StackAdded(v1, mc.view, d, code, u); }
    FixedKeptTrans(m0, m1, mc.mem, fixed);
  }

  /** The program itself occupies as many used frames as it has pages. */
  lemma SourceFrames(m: Memory, v: View, cr3: nat, fixed: set<nat>, prog: nat, data: seq<Byte>)
    requires SourceOk(m, v, cr3, fixed, prog, data)
    ensures PagesOf(|data|) <= |fixed|
  {
    var n, first := PagesOf(|data|), prog / 4096;
    if n > 0 {
      forall f | f in Range(first, first + n) ensures f in fixed {
        assert Within(f, first, first + n);
        var a := if prog > f * 4096 then prog else f * 4096;
        assert prog <= a < prog + |data| && a / 4096 == f;
        assert Readable(v, cr3, fixed, a);
      }
      RangeSize(first, first + n);
      SubsetSize(Range(first, first + n), fixed);
    }
  }

  lemma SubsetSize(a: set<nat>, b: set<nat>)
    requires a <= b
    ensures |a| <= |b|
  {
    assert b == a + (b - a);
  }

  lemma CodeKeptApart(m: Memory, v: View, m': Memory, v': View, d: nat, used: set<nat>, fixed: set<nat>,
                      data: seq<Byte>, code: seq<nat>, k: nat)
    requires CodeOk(m, v, d, used, fixed, data, code) && Elsewhere(m, v, m', v', k) && k !in code
    requires forall f :: Private(v, d, used, fixed, f) ==> Private(v', d, used, fixed, f)
    ensures CodeOk(m', v', d, used, fixed, data, code)
  {
    forall i | 0 <= i < |code| ensures CodePageOk(m', v', d, used, fixed, data, code, i) {
      assert CodePageOk(m, v, d, used, fixed, data, code, i) && SameFrame(m, m', code[i]);
      PageHoldsKept(m, m', code[i], data, i);
    }
  }

  /** The frames of a process: kernel stack, directory, program pages and user stack. */
  datatype Process = Process(kstack: nat, dir: nat, code: seq<nat>, stack: nat)

  /** The words of the first context, in the order they are pushed: the interrupt return frame, the trampoline as
      return address, four zero registers and the flags. */
  function FirstFrame(trampoline: Word): seq<Word> {
    [0x23, 0xC000_0000, 0x0202, 0x1B, 0, trampoline, 0, 0, 0, 0, 0x0002]
  }

  /** The process as built: distinct private frames holding the program, a zeroed stack and the first context, and an
      address space that maps them as intended. */
  ghost predicate Built(m: Memory, v: View, used: set<nat>, fixed: set<nat>, data: seq<Byte>, p: Process,
                        mapped: bool, trampoline: Word) {
    && UnderConstruction(v, p.dir, used, fixed)
    && |p.code| == PagesOf(|data|) <= STACK_PAGE && CodeOk(m, v, p.dir, used, fixed, data, p.code + [p.stack])
    && Space(v, p.dir, p.code, if mapped then p.stack else -1)
    && Private(v, p.dir, used, fixed, p.kstack) && p.kstack !in p.code + [p.stack]
    && Pushed(m, p.kstack, FirstFrame(trampoline))
  }

  /** Writes the first context onto the kernel stack of a process that is otherwise built. */
  method Finish(mc: Machine, kstack: nat, d: nat, trampoline: Word, ghost fixed: set<nat>, ghost data: seq<Byte>,
                ghost code: seq<nat>, ghost u: nat, ghost mapped: bool)
    returns (sp: nat)
    requires mc.Working(fixed) && UnderConstruction(mc.view, d, mc.frames.used, fixed)
    requires |code| == PagesOf(|data|) <= STACK_PAGE
    requires CodeOk(mc.mem, mc.view, d, mc.frames.used, fixed, data, code + [u])
    requires Space(mc.view, d, code, if mapped then u else -1)
    requires Private(mc.view, d, mc.frames.used, fixed, kstack) && kstack !in code + [u]
    modifies mc`mem, mc`view
    ensures mc.Working(fixed) && FixedKept(old(mc.mem), mc.mem, fixed) && sp == 1024 - 11
    ensures Built(mc.mem, mc.view, mc.frames.used, fixed, data, Process(kstack, d, code, u), mapped, trampoline)
  {
    ghost var m0, v0 := mc.mem, mc.view;
    sp := PushAll(mc, kstack, FirstFrame(trampoline), fixed);
    PrivateWrite(m0, v0, mc.mem, mc.view, d, mc.frames.used, fixed, kstack);
    CodeKeptApart(m0, v0, mc.mem, mc.view, d, mc.frames.used, fixed, data, code + [u], kstack);
    SpaceKept(v0, mc.view, d, code, if mapped then u else -1);
  }

  /** A program that lies in memory and leaves two frames free is small enough for its page count not to wrap. */
  lemma SizeFits(size: nat, used: nat)
    requires PagesOf(size) <= used && used + 2 <= MAX_FRAMES
    ensures size <= 0xFFFF_F000
  {
  }

  /** The pages of a program that lies in memory and was loaded end below the stack page. */
  lemma BelowStack(size: nat, used: nat)
    requires PagesOf(size) <= used && used + PagesOf(size) <= MAX_FRAMES
    ensures PagesOf(size) <= STACK_PAGE
  {
  }

  datatype LoadResult = NoMemory | Loaded(kstack: nat, dir: nat, sp: nat)

  /** Builds a process from the `size` bytes at `prog`. With `n` pages it needs `n` frames, one per page table, and
      three more; it fails exactly when fewer are free. With exactly that many it succeeds although the stack page
      could not be mapped for want of one more page table. */
  method LoadProcess(mc: Machine, prog: nat, size: nat, trampoline: Word, ghost data: seq<Byte>)
    returns (r: LoadResult, ghost p: Process, ghost mapped: bool)
    requires mc.Working(mc.frames.used)
    requires SourceOk(mc.mem, mc.view, mc.cr3, mc.frames.used, prog, data) && size == |data|
    modifies mc`mem, mc`view, mc.frames`usedCount, mc.frames`used, mc.frames.bitmap
    ensures mc.Working(old(mc.frames.used)) && FixedKept(old(mc.mem), mc.mem, old(mc.frames.used))
    ensures r.NoMemory? <==> |old(mc.frames.used)| + 3 + PagesOf(size) + TablesFor(PagesOf(size)) > MAX_FRAMES
    ensures r.Loaded? ==>
              (mapped <==> |old(mc.frames.used)| + 4 + PagesOf(size) + TablesFor(PagesOf(size)) <= MAX_FRAMES)
    ensures r.Loaded? ==> r == Loaded(p.kstack, p.dir, 1024 - 11) && LowestFree(old(mc.frames.used), p.kstack)
    ensures r.Loaded? ==> Built(mc.mem, mc.view, mc.frames.used, old(mc.frames.used), data, p, mapped, trampoline)
  {
    ghost var fixed, m0 := mc.frames.used, mc.mem;
    p, mapped := Process(0, 0, [], 0), false;
    SourceFrames(mc.mem, mc.view, mc.cr3, fixed, prog, data);
    ghost var v0 := mc.view;
    var kstack, d := Begin(mc, fixed);
    if kstack < 0 || d < 0 { return NoMemory, p, mapped; }
    FullWhenNoRun(mc.frames.used);
    SizeFits(size, |fixed|);
    SourceKept(m0, v0, mc.mem, mc.view, mc.cr3, fixed, prog, data);
    ghost var m1, v1, used1 := mc.mem, mc.view, mc.frames.used;
    var ok;
    ghost var code, complete;
    ok, code, complete := LoadCode(mc, d, prog, size, fixed, data);
    FixedKeptTrans(m0, m1, mc.mem, fixed);
    if !ok { return NoMemory, p, mapped; }
    ghost var m2, v2, used2 := mc.mem, mc.view, mc.frames.used;
    var u;
    u, mapped := AddStack(mc, d, fixed, data, code, |used1|, complete);
    FixedKeptTrans(m0, m2, mc.mem, fixed);
    if u < 0 { return NoMemory, p, mapped; }
    BelowStack(size, |fixed|);
    ghost var m3 := mc.mem;
    var sp := Finish(mc, kstack, d, trampoline, fixed, data, code, u, mapped);
    FixedKeptTrans(m0, m3, mc.mem, fixed);
    p := Process(kstack, d, code, u);
    r := Loaded(kstack, d, sp);
  }
}
