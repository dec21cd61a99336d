/** The kernel heap: `kmalloc` and `kfree` over a circular, address-ordered free list. */
module KernelHeap {
  import opened Bytes
  import opened FrameSets
  import FrameAllocator
  import opened FreeList
  import opened HeapMemory
  import opened HeapTiling

  /** The size of a request in units: its payload rounded up, plus a header. The byte sum wraps at 32 bits. */
  function UnitsFor(bytes: Word): nat {
    Wrap(bytes + 7) / 8 + 1
  }

  /** The pages asked for to hold a block of `units`; both products and sums wrap at 32 bits. */
  function PagesFor(units: nat): Word {
    Wrap(Wrap(units * 8) + 4095) / PAGE_SIZE
  }

  /** The payload of an allocation holds the request exactly for requests up to 2^32 - 8 bytes, and wastes less than a
      unit. */
  lemma PayloadHoldsRequest(bytes: Word)
    ensures (UnitsFor(bytes) - 1) * 8 >= bytes <==> bytes <= 0xFFFF_FFF8
    ensures (UnitsFor(bytes) - 1) * 8 < bytes + 8
  {
  }

  /** The largest request is rounded down to nothing: it gets a header and no payload. */
  lemma LargestRequestGetsNothing()
    ensures UnitsFor(0xFFFF_FFFF) == 1
  {
  }

  /** The byte address of the payload behind header `a`. */
  function PointerTo(a: nat): Word {
    Wrap(8 * (a + 1))
  }

  /** The payload pointer of a block that holds its request is aligned, not null, and leads back to the header. */
  lemma PointerFaithful(bytes: Word, a: nat)
    requires a + UnitsFor(bytes) <= ADDRESS_UNITS
    ensures 0 < bytes <= 0xFFFF_FFF8 ==> PointerTo(a) > 0 && PointerTo(a) % 8 == 0 && PointerTo(a) / 8 - 1 == a
  {
  }

  /** Pages that are granted hold the block they were asked for, and one page less would not. A size too large for
      32 bits asks for no page. */
  lemma PagesHoldUnits(bytes: Word)
    ensures UnitsFor(bytes) <= ADDRESS_UNITS
    ensures var n, units := PagesFor(UnitsFor(bytes)), UnitsFor(bytes);
            n > 0 ==> (n - 1) * PAGE_UNITS < units <= n * PAGE_UNITS
    ensures PagesFor(UnitsFor(bytes)) < MAX_FRAMES
  {
  }

  ghost predicate HasFit(s: seq<Block>, units: nat) {
    exists i :: 0 <= i < |s| && s[i].units >= units
  }

  /** Block `i` is the first one after the block at `start`, around the list, that is large enough. */
  ghost predicate NextFit(s: seq<Block>, start: nat, units: nat, i: nat) {
    && i < |s| && s[i].units >= units
    && exists f :: && 0 <= f < |s| && s[f].addr == start
                   && forall j :: 0 <= j < |s| && Passed(f, i, j) ==> s[j].units < units
  }

  /** Header `a` is the end of the first block after the one at `start` that holds `units`, and the next search starts
      at the block before that one. */
  ghost predicate TakenFrom(s: seq<Block>, start: nat, units: nat, a: int, start': nat) {
    exists i: nat :: && NextFit(s, start, units, i) && a == s[i].addr + s[i].units - units
                     && start' == s[Pred(i, |s|)].addr
  }

  /** The next search starts at the block before the place of `b` in the list. */
  ghost predicate FreedBehind(s: seq<Block>, b: Block, base: nat, start: nat) {
    exists k: nat :: Fits(s, k, b, base) && |s| > 0 && start == s[Pred(k, |s|)].addr
  }

  /** When and how a request grows the heap: not at all while some free block is large enough; otherwise by one
      first-fit grant of pages, and the request fails exactly when that grant does. */
  ghost predicate GrowthRule(s: seq<Block>, units: nat, used: set<nat>, pages: set<nat>,
                             ok: bool, grant: nat, used': set<nat>, pages': set<nat>) {
    if HasFit(s, units) then ok && used' == used && pages' == pages
    else && FirstFit(used, PagesFor(units), grant, used') && (ok <==> grant != 0)
         && pages' == if ok then pages + Range(grant / PAGE_SIZE, grant / PAGE_SIZE + PagesFor(units)) else pages
  }

  /** Headers of allocated blocks still hold their sizes. */
  ghost predicate HeadersKept(mem: Headers, live: Live) {
    forall a :: a in live ==> a in mem && mem[a].units == live[a]
  }

  /** The static header sits outside the heap's pages, and so does the unit before it; frame zero is no heap
      page. */
  ghost predicate Outside(base: nat, pages: set<nat>) {
    && 0 < base < ADDRESS_UNITS && base / PAGE_UNITS !in pages && (base - 1) / PAGE_UNITS !in pages
    && 0 !in pages && forall f :: f in pages ==> f < MAX_FRAMES
  }

  lemma ReadyToRelease(mem: Headers, s: seq<Block>, live: Live, pages: set<nat>, base: nat, a: nat)
    requires Outside(base, pages) && Tiled(s, live, pages) && HeadersKept(mem, live) && a in live
    ensures a in mem && mem[a].units > 0 && a > 0 && a + mem[a].units <= ADDRESS_UNITS
    ensures !(a <= base <= a + mem[a].units) && Disjoint(s, Block(a, mem[a].units))
  {
    LiveClearOfBase(s, live, pages, base, a);
    LiveDisjoint(s, live, pages, a);
    LiveInAddressSpace(s, live, pages, a);
  }

  /** Releasing a live block changes no other live header and keeps the tiling. */
  lemma LiveReleased(mem: Headers, mem': Headers, s: seq<Block>, k: nat, live: Live, pages: set<nat>, base: nat, a: nat)
    requires Outside(base, pages) && Tiled(s, live, pages) && HeadersKept(mem, live) && a in live
    requires Sized(s, base) && k <= |s|
    requires forall x :: x in mem && x != a && !HasAddr(s, x) ==> Kept(mem, mem', x)
    ensures Tiled(Joined(s, k, Block(a, live[a])), live - {a}, pages) && HeadersKept(mem', live - {a})
  {
    JoinedUnits(s, k, Block(a, live[a]));
    ReleaseTiles(s, Joined(s, k, Block(a, live[a])), live, pages, a);
    forall x | x in live && x != a ensures x in mem' && mem'[x].units == live[x] {
      LiveClearOfBase(s, live, pages, base, x);
      LiveNotListed(s, live, pages, base, x);
      assert Kept(mem, mem', x);
    }
  }

  lemma NewPagesClearOfBase(used: set<nat>, base: nat, first: nat, n: nat)
    requires base > 0 && base / PAGE_UNITS in used && (base - 1) / PAGE_UNITS in used
    requires FreeRun(used, first, n) && n > 0
    ensures !(PagesBlock(first, n).addr <= base <= PagesBlock(first, n).End())
  {
  }

  /** A run of free frames is fit to become heap: it overlaps no block and keeps clear of the static header. */
  lemma ReadyToGrow(s: seq<Block>, live: Live, pages: set<nat>, used: set<nat>, base: nat, first: nat, n: nat)
    requires Outside(base, pages) && Tiled(s, live, pages) && pages <= used && 0 in used
    requires base / PAGE_UNITS in used && (base - 1) / PAGE_UNITS in used
    requires FreeRun(used, first, n) && n > 0
    ensures first > 0 && PagesBlock(first, n).End() <= ADDRESS_UNITS && Disjoint(s, PagesBlock(first, n))
    ensures !(PagesBlock(first, n).addr <= base <= PagesBlock(first, n).End())
    ensures PagesBlock(first, n).addr !in live
  {
    NewPagesClearOfBase(used, base, first, n);
    NewPagesDisjoint(s, live, pages, first, n);
    forall a | a in live ensures a != PagesBlock(first, n).addr {
      assert In(Block(a, live[a]), a);
      assert Owned(live, a);
    }
  }

  /** Adding fresh pages changes no live header and keeps the tiling. */
  lemma PagesReleased(mem: Headers, mem': Headers, s: seq<Block>, k: nat, live: Live, pages: set<nat>, base: nat,
                      used: set<nat>, first: nat, n: nat)
    requires Outside(base, pages) && Tiled(s, live, pages) && HeadersKept(mem, live)
    requires Sized(s, base) && k <= |s| && PagesBlock(first, n).addr !in live
    requires pages <= used && FreeRun(used, first, n)
    requires forall x :: x in mem && x != first * PAGE_UNITS && !HasAddr(s, x) ==> Kept(mem, mem', x)
    ensures Tiled(Joined(s, k, PagesBlock(first, n)), live, pages + Range(first, first + n))
    ensures HeadersKept(mem', live) && HasFit(Joined(s, k, PagesBlock(first, n)), n * PAGE_UNITS)
  {
    JoinedHasFit(s, k, PagesBlock(first, n));
    JoinedUnits(s, k, PagesBlock(first, n));
    var more := pages + Range(first, first + n);
    assert forall f :: f in more <==> f in pages || first <= f < first + n;
    GrowTiles(s, Joined(s, k, PagesBlock(first, n)), live, pages, first, n, more);
    forall x | x in live ensures x in mem' && mem'[x].units == live[x] {
      LiveClearOfBase(s, live, pages, base, x);
      LiveNotListed(s, live, pages, base, x);
      assert Kept(mem, mem', x);
    }
  }

  lemma JoinedHasFit(s: seq<Block>, k: nat, b: Block)
    requires k <= |s|
    ensures HasFit(Joined(s, k, b), b.units)
  {
    assert Joined(s, k, b)[First(s, k, b)] == Merged(s, k, b);
  }

  /** A fitting block is never the static header, so the list has another block. */
  lemma FitIsNotBase(s: seq<Block>, base: nat, i: nat)
    requires WellFormed(s, base) && i < |s| && s[i].units > 0
    ensures |s| > 1 && Pred(i, |s|) != i && s[i].addr != base
  {
  }

  lemma NoFit(s: seq<Block>, f: nat, units: nat)
    requires f < |s| && s[f].units < units
    requires forall j :: 0 <= j < |s| && Passed(f, f, j) ==> s[j].units < units
    ensures !HasFit(s, units)
  {
  }

  /** Writing headers that belong to the list, or to the new block, keeps the live headers. */
  lemma LiveKeptOnTake(mem: Headers, mem': Headers, s: seq<Block>, live: Live, pages: set<nat>, base: nat, b: Block)
    requires Outside(base, pages) && Tiled(s, live, pages) && Sized(s, base) && HeadersKept(mem, live)
    requires b.addr !in live && b.addr in mem' && mem'[b.addr].units == b.units
    requires forall x :: x in mem && x != b.addr && !HasAddr(s, x) ==> Kept(mem, mem', x)
    ensures HeadersKept(mem', live[b.addr := b.units])
  {
    forall x | x in live ensures x in mem' && mem'[x].units == live[x] {
      LiveClearOfBase(s, live, pages, base, x);
      LiveNotListed(s, live, pages, base, x);
      assert Kept(mem, mem', x);
    }
  }

  /** A block that fits exactly is unlinked whole. */
  lemma WholeTaken(mem: Headers, mem': Headers, s: seq<Block>, i: nat, base: nat)
    requires WellFormed(s, base) && Linked(mem, s) && i < |s| && s[i].units > 0
    requires s[i].addr in mem && s[Pred(i, |s|)].addr in mem
    requires mem' == mem[s[Pred(i, |s|)].addr := Header(mem[s[i].addr].next, mem[s[Pred(i, |s|)].addr].units)]
    ensures Circular(mem', Without(s, i), base, s[Pred(i, |s|)].addr) && Taken(s, s[i], Without(s, i))
    ensures s[i].addr in mem' && mem'[s[i].addr].units == s[i].units
  {
    var p := Pred(i, |s|);
    FitIsNotBase(s, base, i);
    AddrsDistinct(s, i, p);
    assert LinkedAt(mem, s, p) && LinkedAt(mem, s, i);
    RemovedLinked(mem, s, i, mem');
    RemoveTakes(s, i, base);
    assert Without(s, i)[if p < i then p else p - 1].addr == s[p].addr;
  }

  /** A longer block keeps its head and gives up its tail. */
  lemma TailTaken(mem: Headers, mem': Headers, s: seq<Block>, i: nat, base: nat, rest: nat)
    requires WellFormed(s, base) && Linked(mem, s) && i < |s| && 0 < rest < s[i].units
    requires s[i].addr + rest in mem'
    requires mem' == mem[s[i].addr := Header(s[Succ(i, |s|)].addr, rest)][s[i].addr + rest := mem'[s[i].addr + rest]]
    ensures Circular(mem', s[i := Block(s[i].addr, rest)], base, s[Pred(i, |s|)].addr)
    ensures Taken(s, Block(s[i].addr + rest, s[i].units - rest), s[i := Block(s[i].addr, rest)])
  {
    ShrunkLinked(mem, s, i, rest, s[i].addr + rest, mem');
    ShrinkTakes(s, i, rest, base);
    assert s[i := Block(s[i].addr, rest)][Pred(i, |s|)].addr == s[Pred(i, |s|)].addr;
  }

  class KernelHeap {
    const base: nat
    const frames: FrameAllocator.FrameAllocator
    var mem: Headers
    var freep: nat
    ghost var ring: seq<Block>
    ghost var live: Live
    ghost var pages: set<nat>

    /** The static header sits in a frame the heap never owns, and so does the unit before it. */
    ghost predicate BaseOutside()
      requires base > 0
      reads this, frames
    {
      base / PAGE_UNITS in frames.used && (base - 1) / PAGE_UNITS in frames.used && Outside(base, pages)
    }

    /** One circle in address order, tiling the heap's pages together with the live blocks. */
    ghost predicate Sound()
      reads this
    {
      Circular(mem, ring, base, freep) && Tiled(ring, live, pages) && HeadersKept(mem, live)
    }

    ghost predicate Valid()
      reads this, frames, frames.bitmap
    {
      && frames.Valid() && 0 in frames.used && pages <= frames.used && base > 0 && BaseOutside()
      && if freep == 0 then ring == [] && live == map[] && pages == {} else Sound()
    }

    constructor (base: nat, frames: FrameAllocator.FrameAllocator)
      requires frames.Valid() && 0 in frames.used && 0 < base < ADDRESS_UNITS
      requires base / PAGE_UNITS in frames.used && (base - 1) / PAGE_UNITS in frames.used
      ensures Valid() && freep == 0 && this.base == base && this.frames == frames
    {
      this.base, this.frames := base, frames;
      mem, freep, ring, live, pages := map[], 0, [], map[], {};
    }

    method Init()
      requires Valid() && freep == 0
      modifies this`mem, this`freep, this`ring
      ensures Valid() && freep != 0 && ring == [Block(base, 0)]
    {
      mem := mem[base := Header(base, 0)];
      freep := base;
      ring := [Block(base, 0)];
      assert ring[0].addr == base;
    }

    method FindPlace(a: nat) returns (curr: nat, ghost k: nat)
      requires Circular(mem, ring, base, freep) && !HasAddr(ring, a)
      ensures |ring| > 0 && Separates(ring, k, a) && curr == ring[Pred(k, |ring|)].addr
      ensures curr in mem && StopsHere(curr, mem[curr].next, a)
    {
      k := FindSeparation(ring, a);
      ghost var i :| 0 <= i < |ring| && ring[i].addr == freep;
      ghost var p := Pred(k, |ring|);
      curr := freep;
      assert LinkedAt(mem, ring, i);
      while !(a > curr && a < mem[curr].next)
        invariant 0 <= i < |ring| && curr == ring[i].addr && LinkedAt(mem, ring, i)
        decreases Distance(i, p, |ring|)
      {
        StopsAtPredecessor(ring, k, a, i);
        if curr >= mem[curr].next && (a > curr || a < mem[curr].next) { break; }
        StepCloser(i, p, |ring|);
        curr := mem[curr].next;
        i := Succ(i, |ring|);
      }
      StopsAtPredecessor(ring, k, a, i);
    }

    /** Links block `a` into the list, merging it with the neighbours it meets. */
    method Release(a: nat) returns (ghost k: nat)
      requires Circular(mem, ring, base, freep) && a in mem
      requires mem[a].units > 0 && a > 0 && a + mem[a].units <= ADDRESS_UNITS
      requires !(a <= base <= a + mem[a].units) && Disjoint(ring, Block(a, mem[a].units))
      modifies this`mem, this`freep, this`ring
      ensures Circular(mem, ring, base, freep)
      ensures Fits(old(ring), k, Block(a, old(mem)[a].units), base)
      ensures ring == Joined(old(ring), k, Block(a, old(mem)[a].units))
      ensures freep == old(ring)[Pred(k, |old(ring)|)].addr
      ensures forall x :: x in old(mem) && x != a && !HasAddr(old(ring), x) ==> Kept(old(mem), mem, x)
    {
      ghost var b := Block(a, mem[a].units);
      ghost var s := ring;
      DisjointFromAddrs(ring, b, base);
      var curr;
      curr, k := FindPlace(a);
      DisjointFits(ring, k, b, base);
      NextLinked(mem, ring, k, b, base);
      FreedLinked(mem, ring, k, b, base, LinkNext(mem, curr, a));
      forall x | x in mem && x != a && !HasAddr(ring, x)
        ensures Kept(mem, LinkPrev(LinkNext(mem, curr, a), curr, a), x)
      {
        ReleaseKeeps(mem, ring, Pred(k, |ring|), a, x);
      }
      JoinedWellFormed(ring, k, b, base);
      PredecessorStays(ring, k, b, base);
      mem := LinkNext(mem, curr, a);
      mem := LinkPrev(mem, curr, a);
      freep := curr;
      ring := Joined(ring, k, b);
    }

    /** Frees the live block whose payload starts at byte address `ptr`; the null pointer is ignored. */
    method Kfree(ptr: Word)
      requires Valid()
      requires ptr != 0 ==> ptr % 8 == 0 && ptr / 8 - 1 in live
      modifies this`mem, this`freep, this`ring, this`live
      ensures Valid() && (freep == 0 <==> old(freep) == 0)
      ensures live == if ptr == 0 then old(live) else old(live) - {ptr / 8 - 1}
      ensures ptr != 0 ==> FreedBehind(old(ring), Block(ptr / 8 - 1, old(live)[ptr / 8 - 1]), base, freep)
    {
      if ptr == 0 { return; }
      var a := ptr / 8 - 1;
      ghost var mem0, ring0 := mem, ring;
      ReadyToRelease(mem, ring, live, pages, base, a);
      ghost var k := Release(a);
      LiveReleased(mem0, mem, ring0, k, live, pages, base, a);
      live := live - {a};
    }

    /** One turn around the list, starting after `freep`, for a block of at least `units`. */
    method Search(units: nat) returns (found: bool, prev: nat, curr: nat, ghost i: nat)
      requires Walkable(mem, ring, freep)
      ensures found <==> HasFit(ring, units)
      ensures found ==> NextFit(ring, freep, units, i) && curr == ring[i].addr && prev == ring[Pred(i, |ring|)].addr
    {
      ghost var n := |ring|;
      ghost var f :| 0 <= f < n && ring[f].addr == freep;
      assert LinkedAt(mem, ring, f);
      prev := freep;
      curr := mem[prev].next;
      ghost var p := f;
      i := Succ(f, n);
      PredOfSucc(f, n);
      assert LinkedAt(mem, ring, i);
      while mem[curr].units < units
        invariant 0 <= i < n && curr == ring[i].addr && LinkedAt(mem, ring, i)
        invariant 0 <= p < n && prev == ring[p].addr && p == Pred(i, n)
        invariant forall j :: 0 <= j < n && Passed(f, i, j) ==> ring[j].units < units
        decreases Distance(i, f, n)
      {
        if curr == freep {
          assert SameAddr(ring, i, f);
          NoFit(ring, f, units);
          return false, prev, curr, i;
        }
        PassedGrows(f, i, n);
        StepCloser(i, f, n);
        PredOfSucc(i, n);
        prev, p := curr, i;
        curr, i := mem[curr].next, Succ(i, n);
        assert LinkedAt(mem, ring, i);
      }
      found := true;
    }

    /** Writes the header of the pages `first..first + n`. */
    method WriteHeader(first: nat, n: nat, ghost used: set<nat>)
      requires Outside(base, pages) && Sound() && n > 0
      requires pages <= used && 0 in used && base / PAGE_UNITS in used && (base - 1) / PAGE_UNITS in used
      requires FreeRun(used, first, n)
      modifies this`mem
      ensures Sound() && PagesBlock(first, n).addr !in live && first > 0
      ensures first * PAGE_UNITS in mem && mem[first * PAGE_UNITS].units == n * PAGE_UNITS
      ensures PagesBlock(first, n).End() <= ADDRESS_UNITS && Disjoint(ring, PagesBlock(first, n))
      ensures !(PagesBlock(first, n).addr <= base <= PagesBlock(first, n).End())
    {
      var a := first * PAGE_UNITS;
      ReadyToGrow(ring, live, pages, used, base, first, n);
      DisjointFromAddrs(ring, PagesBlock(first, n), base);
      LinkedElsewhere(mem, ring, a, Header(if a in mem then mem[a].next else 0, n * PAGE_UNITS));
      mem := mem[a := Header(if a in mem then mem[a].next else 0, n * PAGE_UNITS)];
    }

    /** Links the freshly granted pages `first..first + n` into the list. */
    method AddPages(first: nat, n: nat, ghost used: set<nat>)
      requires Outside(base, pages) && Sound() && n > 0
      requires pages <= used && 0 in used && base / PAGE_UNITS in used && (base - 1) / PAGE_UNITS in used
      requires FreeRun(used, first, n)
      modifies this`mem, this`freep, this`ring, this`pages
      ensures Sound() && HasFit(ring, n * PAGE_UNITS)
      ensures pages == old(pages) + Range(first, first + n)
    {
      WriteHeader(first, n, used);
      ghost var mem0, ring0 := mem, ring;
      ghost var k := Release(first * PAGE_UNITS);
      PagesReleased(mem0, mem, ring0, k, live, pages, base, used, first, n);
      pages := pages + Range(first, first + n);
    }

    /** Asks the frame allocator for pages and links them into the list. */
    method Morecore(units: nat) returns (ok: bool, ghost grant: nat)
      requires Valid() && freep != 0
      modifies this`mem, this`freep, this`ring, this`pages, frames`usedCount, frames`used, frames.bitmap
      ensures Valid() && freep != 0
      ensures FirstFit(old(frames.used), PagesFor(units), grant, frames.used) && (ok <==> grant != 0)
      ensures !ok ==> ring == old(ring) && pages == old(pages)
      ensures ok ==> HasFit(ring, PagesFor(units) * PAGE_UNITS)
      ensures ok ==> pages == old(pages) + Range(grant / PAGE_SIZE, grant / PAGE_SIZE + PagesFor(units))
    {
      var n := PagesFor(units);
      ghost var used := frames.used;
      var addr := frames.AllocContiguous(n);
      grant := addr;
      if addr == 0 { return false, grant; }
      AddPages(addr / PAGE_SIZE, n, used);
      ok := true;
    }

    /** Unlinks block `i`, which fits exactly. */
    method TakeWhole(prev: nat, curr: nat, ghost i: nat)
      requires Outside(base, pages) && Sound() && i < |ring| && ring[i].units > 0
      requires curr == ring[i].addr && prev == ring[Pred(i, |ring|)].addr
      modifies this`mem, this`freep, this`ring, this`live
      ensures Sound() && freep == prev && ring == Without(old(ring), i)
      ensures curr !in old(live) && live == old(live)[curr := old(ring)[i].units]
    {
      assert LinkedAt(mem, ring, i) && LinkedAt(mem, ring, Pred(i, |ring|));
      ghost var mem0, ring0, b := mem, ring, ring[i];
      mem := mem[prev := Header(mem[curr].next, mem[prev].units)];
      freep := prev;
      ring := Without(ring, i);
      WholeTaken(mem0, mem, ring0, i, base);
      TakeTiles(ring0, ring, live, pages, b);
      LiveKeptOnTake(mem0, mem, ring0, live, pages, base, b);
      live := live[curr := b.units];
    }

    /** Cuts `units` off the tail of block `i`. */
    method TakeTail(prev: nat, curr: nat, units: nat, ghost i: nat) returns (a: nat)
      requires Outside(base, pages) && Sound() && i < |ring| && 0 < units < ring[i].units
      requires curr == ring[i].addr && prev == ring[Pred(i, |ring|)].addr
      modifies this`mem, this`freep, this`ring, this`live
      ensures Sound() && freep == prev
      ensures a == curr + old(ring)[i].units - units && ring == old(ring)[i := Block(curr, old(ring)[i].units - units)]
      ensures a !in old(live) && live == old(live)[a := units]
    {
      assert LinkedAt(mem, ring, i);
      ghost var mem0, ring0 := mem, ring;
      var rest := mem[curr].units - units;
      mem := mem[curr := Header(mem[curr].next, rest)];
      a := Advance(curr, rest);
      mem := mem[a := Header(if a in mem then mem[a].next else 0, units)];
      freep := prev;
      ring := ring[i := Block(curr, rest)];
      TailTaken(mem0, mem, ring0, i, base, rest);
      TakeTiles(ring0, ring, live, pages, Block(a, units));
      LiveKeptOnTake(mem0, mem, ring0, live, pages, base, Block(a, units));
      live := live[a := units];
    }

    /** Hands out `units` of block `i`, whole or from its tail. */
    method Take(prev: nat, curr: nat, units: nat, ghost i: nat) returns (a: nat)
      requires Outside(base, pages) && Sound() && i < |ring| && 0 < units <= ring[i].units
      requires curr == ring[i].addr && prev == ring[Pred(i, |ring|)].addr
      modifies this`mem, this`freep, this`ring, this`live
      ensures Sound() && freep != 0 && a + units <= ADDRESS_UNITS
      ensures freep == prev && a == curr + old(ring)[i].units - units
      ensures a !in old(live) && live == old(live)[a := units]
    {
      assert LinkedAt(mem, ring, i);
      if mem[curr].units == units {
        TakeWhole(prev, curr, i);
        a := curr;
      } else {
        a := TakeTail(prev, curr, units, i);
      }
      LiveInAddressSpace(ring, live, pages, a);
    }

    /** Turns around the list until a block fits, asking for more pages after a fruitless turn. One request grows
        the heap at most once: after growing, the next turn finds a fit. */
    method SearchOrGrow(bytes: Word) returns (found: bool, prev: nat, curr: nat, ghost i: nat, ghost grant: nat)
      requires Valid() && freep != 0
      modifies this`mem, this`freep, this`ring, this`pages, frames`usedCount, frames`used, frames.bitmap
      ensures Valid() && freep != 0
      ensures found ==> NextFit(ring, freep, UnitsFor(bytes), i)
      ensures HasFit(old(ring), UnitsFor(bytes)) ==> ring == old(ring) && freep == old(freep)
      ensures found ==> curr == ring[i].addr && prev == ring[Pred(i, |ring|)].addr
      ensures GrowthRule(old(ring), UnitsFor(bytes), old(frames.used), old(pages), found, grant, frames.used, pages)
    {
      var units := UnitsFor(bytes);
      grant := 0;
      CircularWalkable(mem, ring, base, freep);
      found, prev, curr, i := Search(units);
      while !found
        invariant Valid() && freep != 0
        invariant found ==> NextFit(ring, freep, units, i)
        invariant HasFit(old(ring), units) ==> found && ring == old(ring) && freep == old(freep)
        invariant found ==> curr == ring[i].addr && prev == ring[Pred(i, |ring|)].addr
        invariant if found
                  then GrowthRule(old(ring), units, old(frames.used), old(pages), found, grant, frames.used, pages)
                  else !HasFit(old(ring), units) && frames.used == old(frames.used) && pages == old(pages)
        decreases !found
      {
        var ok;
        ok, grant := Morecore(units);
        if !ok { return; }
        PagesHoldUnits(bytes);
        CircularWalkable(mem, ring, base, freep);
        found, prev, curr, i := Search(units);
      }
    }

    /** Allocates a block for `bytes` bytes and returns its payload's byte address, or zero.
        `block` is the header address handed out, negative when there is none. */
    method Kmalloc(bytes: Word) returns (ptr: Word, ghost block: int, ghost grant: nat)
      requires Valid()
      modifies this, frames`usedCount, frames`used, frames.bitmap
      ensures Valid() && (freep == 0 ==> old(freep) == 0)
      ensures bytes == 0 ==> block < 0 && frames.used == old(frames.used)
      ensures block < 0 ==> ptr == 0 && live == old(live) && pages == old(pages)
      ensures block >= 0 ==> block !in old(live) && live == old(live)[block := UnitsFor(bytes)]
      ensures block >= 0 ==> ptr == PointerTo(block)
      ensures block >= 0 && bytes <= 0xFFFF_FFF8 ==> ptr != 0 && ptr % 8 == 0 && ptr / 8 - 1 == block
      ensures bytes > 0 ==> GrowthRule(old(ring), UnitsFor(bytes), old(frames.used), old(pages),
                                       block >= 0, grant, frames.used, pages)
      ensures bytes > 0 && old(freep) != 0 && HasFit(old(ring), UnitsFor(bytes)) ==>
                TakenFrom(old(ring), old(freep), UnitsFor(bytes), block, freep)
    {
      block, grant := -1, 0;
      if bytes == 0 { return 0, block, grant; }
      var units := UnitsFor(bytes);
      if freep == 0 { Init(); }
      var found, prev, curr;
      ghost var i;
      found, prev, curr, i, grant := SearchOrGrow(bytes);
      if !found { return 0, block, grant; }
      ghost var ring0, freep0 := ring, freep;
      var a := Take(prev, curr, units, i);
      assert TakenFrom(ring0, freep0, units, a, freep);
      block := a;
      ptr := PointerTo(a);
      PointerFaithful(bytes, a);
    }
  }

  lemma AddedAndRemoved(live: Live, a: nat, units: nat)
    requires a !in live
    ensures live[a := units] - {a} == live
  {
  }

  /** An allocation that some free block can hold succeeds without taking a frame. */
  method AllocateFitting(h: KernelHeap, bytes: Word) returns (ptr: Word)
    requires h.Valid() && h.freep != 0 && 0 < bytes <= 0xFFFF_FFF8 && HasFit(h.ring, UnitsFor(bytes))
    modifies h, h.frames`usedCount, h.frames`used, h.frames.bitmap
    ensures h.Valid() && h.freep != 0 && h.pages == old(h.pages) && h.frames.used == old(h.frames.used)
    ensures ptr != 0 && ptr % 8 == 0 && ptr / 8 - 1 !in old(h.live)
    ensures h.live == old(h.live)[ptr / 8 - 1 := UnitsFor(bytes)]
  {
    ghost var block, grant;
    ptr, block, grant := h.Kmalloc(bytes);
  }

  /** An allocation that does not grow the heap is exactly undone by freeing it. */
  method AllocateAndFree(h: KernelHeap, bytes: Word)
    requires h.Valid() && h.freep != 0 && 0 < bytes <= 0xFFFF_FFF8 && HasFit(h.ring, UnitsFor(bytes))
    modifies h, h.frames`usedCount, h.frames`used, h.frames.bitmap
    ensures h.Valid() && h.ring == old(h.ring) && h.live == old(h.live) && h.frames.used == old(h.frames.used)
  {
    ghost var ring := h.ring;
    ghost var live := h.live;
    var ptr := AllocateFitting(h, bytes);
    h.Kfree(ptr);
    AddedAndRemoved(live, ptr / 8 - 1, UnitsFor(bytes));
    ListDetermined(ring, h.ring, live, h.pages, h.base);
  }
}
