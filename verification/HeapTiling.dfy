/** Free and allocated blocks together tile the pages the heap has obtained. */
module HeapTiling {
  import opened FreeList

  const PAGE_UNITS: nat := 512

  /** Allocated blocks: header address to size in units. */
  type Live = map<nat, nat>

  ghost predicate Owned(live: Live, u: int) {
    exists a :: a in live && In(Block(a, live[a]), u)
  }

  ghost predicate InPages(pages: set<nat>, u: int) {
    0 <= u && u / PAGE_UNITS in pages
  }

  ghost predicate Apart(live: Live) {
    forall a, b :: a in live && b in live && a < b ==> a + live[a] <= b
  }

  /** Every unit of the heap's pages is in exactly one block, free or allocated, and no other unit is in any. */
  ghost predicate Tiled(s: seq<Block>, live: Live, pages: set<nat>) {
    && Apart(live) && (forall a :: a in live ==> live[a] > 0)
    && (forall u :: InPages(pages, u) <==> Covers(s, u) || Owned(live, u))
    && forall u :: Covers(s, u) ==> !Owned(live, u)
  }

  lemma OwnedWithout(live: Live, a: nat, u: int)
    requires a in live && Apart(live) && forall c :: c in live ==> live[c] > 0
    ensures Owned(live - {a}, u) <==> Owned(live, u) && !In(Block(a, live[a]), u)
  {
    var rest := live - {a};
    if Owned(live, u) && !In(Block(a, live[a]), u) {
      var c :| c in live && In(Block(c, live[c]), u);
      assert c in rest && rest[c] == live[c];
    }
    if Owned(rest, u) {
      var c :| c in rest && In(Block(c, rest[c]), u);
      assert In(Block(c, live[c]), u);
    }
  }

  /** Giving an allocated block back keeps the tiling. */
  lemma ReleaseTiles(s: seq<Block>, t: seq<Block>, live: Live, pages: set<nat>, a: nat)
    requires Tiled(s, live, pages) && a in live && Released(s, Block(a, live[a]), t)
    ensures Tiled(t, live - {a}, pages)
  {
    forall u ensures Owned(live - {a}, u) <==> Owned(live, u) && !In(Block(a, live[a]), u) {
      OwnedWithout(live, a, u);
    }
    forall u | In(Block(a, live[a]), u) ensures Owned(live, u) { }
  }

  lemma OwnedWith(live: Live, b: Block, u: int)
    requires b.addr !in live
    ensures Owned(live[b.addr := b.units], u) <==> Owned(live, u) || In(b, u)
  {
    var more := live[b.addr := b.units];
    if Owned(live, u) {
      var c :| c in live && In(Block(c, live[c]), u);
      assert In(Block(c, more[c]), u);
    }
    if In(b, u) { assert In(Block(b.addr, more[b.addr]), u); }
  }

  /** A block cut out of the free list overlaps no allocated block. */
  lemma TakenApart(s: seq<Block>, t: seq<Block>, live: Live, pages: set<nat>, b: Block)
    requires Tiled(s, live, pages) && Taken(s, b, t) && b.units > 0
    ensures b.addr !in live && Apart(live[b.addr := b.units])
  {
    if b.addr in live {
      assert In(b, b.addr) && In(Block(b.addr, live[b.addr]), b.addr);
    }
    forall c | c in live ensures c + live[c] <= b.addr || b.End() <= c {
      if c < b.End() && b.addr < c + live[c] {
        var u := if c < b.addr then b.addr else c;
        assert In(b, u) && In(Block(c, live[c]), u);
        assert Owned(live, u);
      }
    }
  }

  /** Handing out a block cut from the free list keeps the tiling. */
  lemma TakeTiles(s: seq<Block>, t: seq<Block>, live: Live, pages: set<nat>, b: Block)
    requires Tiled(s, live, pages) && Taken(s, b, t) && b.units > 0
    ensures b.addr !in live && Tiled(t, live[b.addr := b.units], pages)
  {
    TakenApart(s, t, live, pages, b);
    forall u ensures Owned(live[b.addr := b.units], u) <==> Owned(live, u) || In(b, u) {
      OwnedWith(live, b, u);
    }
  }

  /** The block made of pages `first..first + n`. */
  function PagesBlock(first: nat, n: nat): Block {
    Block(first * PAGE_UNITS, n * PAGE_UNITS)
  }

  lemma NewPagesDisjoint(s: seq<Block>, live: Live, pages: set<nat>, first: nat, n: nat)
    requires Tiled(s, live, pages) && forall f :: first <= f < first + n ==> f !in pages
    ensures Disjoint(s, PagesBlock(first, n))
    ensures forall u :: In(PagesBlock(first, n), u) ==> !Owned(live, u)
  {
  }

  /** Adding fresh pages to the free list keeps the tiling. */
  lemma GrowTiles(s: seq<Block>, t: seq<Block>, live: Live, pages: set<nat>, first: nat, n: nat, more: set<nat>)
    requires Tiled(s, live, pages) && Released(s, PagesBlock(first, n), t)
    requires forall f :: first <= f < first + n ==> f !in pages
    requires forall f :: f in more <==> f in pages || first <= f < first + n
    ensures Tiled(t, live, more)
  {
  }

  /** No unit belongs to two live allocations, nor to a live allocation and the free list, and each lies in a page
      of the heap. */
  lemma LiveExclusive(s: seq<Block>, live: Live, pages: set<nat>, a: nat, b: nat, u: int)
    requires Tiled(s, live, pages) && a in live && b in live && a != b && In(Block(a, live[a]), u)
    ensures !In(Block(b, live[b]), u) && !Covers(s, u) && InPages(pages, u)
  {
  }

  /** The free list is determined by the live allocations and the pages: histories that agree on both have the
      same list. In particular an allocation that did not grow the heap is exactly undone by freeing it. */
  lemma ListDetermined(s: seq<Block>, t: seq<Block>, live: Live, pages: set<nat>, base: nat)
    requires Tiled(s, live, pages) && Tiled(t, live, pages) && WellFormed(s, base) && WellFormed(t, base)
    ensures s == t
  {
    forall u ensures Covers(s, u) <==> Covers(t, u) {
      assert InPages(pages, u) <==> Covers(s, u) || Owned(live, u);
      assert InPages(pages, u) <==> Covers(t, u) || Owned(live, u);
    }
    Canonical(s, t, base);
  }

  lemma LiveNotListed(s: seq<Block>, live: Live, pages: set<nat>, base: nat, a: nat)
    requires Tiled(s, live, pages) && Sized(s, base) && a in live && a != base
    ensures !HasAddr(s, a)
  {
    assert In(Block(a, live[a]), a);
    assert !Covers(s, a);
    forall i | 0 <= i < |s| ensures s[i].addr != a { assert !In(s[i], a); }
  }

  /** A live block neither contains nor ends at the static header, which lies outside the heap's pages. */
  lemma LiveClearOfBase(s: seq<Block>, live: Live, pages: set<nat>, base: nat, a: nat)
    requires Tiled(s, live, pages) && a in live && base > 0
    requires base / PAGE_UNITS !in pages && (base - 1) / PAGE_UNITS !in pages
    ensures !(a <= base <= a + live[a])
  {
    assert !InPages(pages, base) && !InPages(pages, base - 1);
    assert !Owned(live, base) && !Owned(live, base - 1);
    assert !In(Block(a, live[a]), base) && !In(Block(a, live[a]), base - 1);
  }

  lemma LiveDisjoint(s: seq<Block>, live: Live, pages: set<nat>, a: nat)
    requires Tiled(s, live, pages) && a in live
    ensures Disjoint(s, Block(a, live[a]))
  {
  }

  /** Heap pages lie in the address space and never include frame zero, so neither do the blocks in them. */
  lemma LiveInAddressSpace(s: seq<Block>, live: Live, pages: set<nat>, a: nat)
    requires Tiled(s, live, pages) && a in live && 0 !in pages
    requires forall f :: f in pages ==> f < ADDRESS_UNITS / PAGE_UNITS
    ensures 0 < a && a + live[a] <= ADDRESS_UNITS
  {
    assert In(Block(a, live[a]), a) && In(Block(a, live[a]), a + live[a] - 1);
    assert InPages(pages, a) && InPages(pages, a + live[a] - 1);
  }
}
