/** The kernel heap's free list as a value: the blocks of the circular list in address order.

    Addresses count header-sized units of eight bytes. The static header `base` is the one block of zero units.
    The list is determined by the set of units it covers (`Canonical`), so an operation is specified by what it
    does to that set. */
module FreeList {

  const ADDRESS_UNITS: nat := 0x2000_0000

  datatype Block = Block(addr: nat, units: nat) {
    function End(): nat {
      addr + units
    }
  }

  /** In address order, with a gap after every block: neighbours neither overlap nor touch. */
  ghost predicate Ordered(s: seq<Block>) {
    forall i, j :: 0 <= i < j < |s| ==> s[i].End() < s[j].addr
  }

  ghost predicate HasAddr(s: seq<Block>, a: nat) {
    exists i :: 0 <= i < |s| && s[i].addr == a
  }

  /** Only `base` is empty, no block starts at address zero and none leaves the address space. */
  ghost predicate Sized(s: seq<Block>, base: nat) {
    forall i :: 0 <= i < |s| ==>
      && 0 < s[i].addr && s[i].End() <= ADDRESS_UNITS
      && (s[i].units == 0 <==> s[i].addr == base)
  }

  ghost predicate WellFormed(s: seq<Block>, base: nat) {
    Ordered(s) && Sized(s, base) && HasAddr(s, base)
  }

  ghost predicate In(b: Block, u: int) {
    b.addr <= u < b.End()
  }

  ghost predicate Covers(s: seq<Block>, u: int) {
    exists i :: 0 <= i < |s| && In(s[i], u)
  }

  ghost predicate SameUnits(s: seq<Block>, t: seq<Block>) {
    forall u :: Covers(s, u) <==> Covers(t, u)
  }

  /** `t` is `s` with block `b` given back. */
  ghost predicate Released(s: seq<Block>, b: Block, t: seq<Block>) {
    forall u :: Covers(t, u) <==> Covers(s, u) || In(b, u)
  }

  /** `t` is `s` with block `b` cut out. */
  ghost predicate Taken(s: seq<Block>, b: Block, t: seq<Block>) {
    && (forall u :: In(b, u) ==> Covers(s, u))
    && forall u :: Covers(t, u) <==> Covers(s, u) && !In(b, u)
  }

  ghost predicate Disjoint(s: seq<Block>, b: Block) {
    forall u :: In(b, u) ==> !Covers(s, u)
  }

  // ----- The list is a canonical form of the set of its units -----

  lemma FirstBlocksEqual(s: seq<Block>, t: seq<Block>, base: nat)
    requires s != [] && Ordered(s) && Sized(s, base) && Ordered(t) && Sized(t, base)
    requires HasAddr(s, base) <==> HasAddr(t, base)
    requires SameUnits(s, t)
    ensures t != [] && t[0].addr <= s[0].addr
  {
    if s[0].units == 0 {
      assert HasAddr(t, base);
      var i :| 0 <= i < |t| && t[i].addr == base;
    } else {
      assert In(s[0], s[0].addr);
      assert Covers(t, s[0].addr);
      var i :| 0 <= i < |t| && In(t[i], s[0].addr);
    }
  }

  lemma FirstBlockLongEnough(s: seq<Block>, t: seq<Block>, base: nat)
    requires s != [] && t != [] && Ordered(s) && Sized(s, base) && Ordered(t) && Sized(t, base)
    requires SameUnits(s, t) && s[0].addr == t[0].addr
    ensures s[0].units <= t[0].units
  {
    var u := t[0].End();
    assert !Covers(t, u);
    var longer := In(s[0], u);
    assert longer ==> Covers(s, u);
  }

  lemma TailUnits(s: seq<Block>, u: int)
    requires s != [] && Ordered(s)
    ensures Covers(s[1..], u) <==> Covers(s, u) && !In(s[0], u)
  {
  }

  lemma TailHasAddr(s: seq<Block>, a: nat)
    requires s != [] && Ordered(s)
    ensures HasAddr(s[1..], a) <==> HasAddr(s, a) && s[0].addr != a
  {
  }

  lemma {:induction false} CanonicalFrom(s: seq<Block>, t: seq<Block>, base: nat)
    requires Ordered(s) && Sized(s, base) && Ordered(t) && Sized(t, base)
    requires HasAddr(s, base) <==> HasAddr(t, base)
    requires SameUnits(s, t)
    ensures s == t
  {
    if s == [] {
      if t != [] { FirstBlocksEqual(t, s, base); }
    } else {
      FirstBlocksEqual(s, t, base);
      FirstBlocksEqual(t, s, base);
      FirstBlockLongEnough(s, t, base);
      FirstBlockLongEnough(t, s, base);
      forall u ensures Covers(s[1..], u) <==> Covers(t[1..], u) {
        TailUnits(s, u);
        TailUnits(t, u);
      }
      TailHasAddr(s, base);
      TailHasAddr(t, base);
      CanonicalFrom(s[1..], t[1..], base);
      assert s == [s[0]] + s[1..] && t == [t[0]] + t[1..];
    }
  }

  /** Two well-formed free lists that cover the same units are the same list. */
  lemma Canonical(s: seq<Block>, t: seq<Block>, base: nat)
    requires WellFormed(s, base) && WellFormed(t, base) && SameUnits(s, t)
    ensures s == t
  {
    CanonicalFrom(s, t, base);
  }

  /** Taking a block and giving it back restores the list exactly. */
  lemma TakeReleaseIdentity(s: seq<Block>, b: Block, t: seq<Block>, r: seq<Block>, base: nat)
    requires WellFormed(s, base) && WellFormed(r, base)
    requires Taken(s, b, t) && Released(t, b, r)
    ensures r == s
  {
    Canonical(s, r, base);
  }

  /** The units of a collection of blocks. */
  ghost predicate AnyIn(bs: multiset<Block>, u: int) {
    exists b :: b in bs && In(b, u)
  }

  /** `states` are the lists reached by giving back `bs` one after the other. */
  ghost predicate ReleaseRun(states: seq<seq<Block>>, bs: seq<Block>, base: nat) {
    && |states| == |bs| + 1
    && (forall i :: 0 <= i < |states| ==> WellFormed(states[i], base))
    && forall i :: 0 <= i < |bs| ==> Released(states[i], bs[i], states[i + 1])
  }

  lemma {:induction false} RunUnits(states: seq<seq<Block>>, bs: seq<Block>, base: nat, u: int)
    requires ReleaseRun(states, bs, base)
    ensures Covers(states[|bs|], u) <==> Covers(states[0], u) || AnyIn(multiset(bs), u)
    decreases |bs|
  {
    if bs != [] {
      var n := |bs| - 1;
      RunUnits(states[..n + 1], bs[..n], base, u);
      assert bs == bs[..n] + [bs[n]];
      assert Released(states[n], bs[n], states[n + 1]);
    }
  }

  /** Giving back the same blocks in any order ends in the same list. */
  lemma ReleaseOrderIrrelevant(ss: seq<seq<Block>>, bs: seq<Block>, ts: seq<seq<Block>>, cs: seq<Block>, base: nat)
    requires ReleaseRun(ss, bs, base) && ReleaseRun(ts, cs, base)
    requires ss[0] == ts[0] && multiset(bs) == multiset(cs)
    ensures ss[|bs|] == ts[|cs|]
  {
    forall u ensures Covers(ss[|bs|], u) <==> Covers(ts[|cs|], u) {
      RunUnits(ss, bs, base, u);
      RunUnits(ts, cs, base, u);
    }
    Canonical(ss[|bs|], ts[|cs|], base);
  }

  // ----- Giving a block back -----

  /** Block `b` belongs between the first `k` blocks and the rest, and does not touch the static header. */
  ghost predicate Fits(s: seq<Block>, k: nat, b: Block, base: nat) {
    && k <= |s| && b.units > 0 && b.addr > 0 && b.End() <= ADDRESS_UNITS && !(b.addr <= base <= b.End())
    && (forall i :: 0 <= i < k ==> s[i].End() <= b.addr)
    && forall i :: k <= i < |s| ==> b.End() <= s[i].addr
  }

  predicate MeetsNext(s: seq<Block>, k: nat, b: Block) {
    k < |s| && b.End() == s[k].addr
  }

  predicate MeetsPrev(s: seq<Block>, k: nat, b: Block) {
    0 < k <= |s| && s[k - 1].End() == b.addr
  }

  /** The list with blocks `x..y` replaced by the single block `c`. */
  function Splice(s: seq<Block>, x: nat, y: nat, c: Block): seq<Block>
    requires x <= y <= |s|
  {
    s[..x] + [c] + s[y..]
  }

  function First(s: seq<Block>, k: nat, b: Block): nat {
    if MeetsPrev(s, k, b) then k - 1 else k
  }

  function Last(s: seq<Block>, k: nat, b: Block): nat {
    if MeetsNext(s, k, b) then k + 1 else k
  }

  /** `b` together with the neighbours it meets. */
  function Merged(s: seq<Block>, k: nat, b: Block): Block {
    var left := if MeetsPrev(s, k, b) then s[k - 1].units else 0;
    var right := if MeetsNext(s, k, b) then s[k].units else 0;
    Block(if MeetsPrev(s, k, b) then s[k - 1].addr else b.addr, left + b.units + right)
  }

  /** The list with `b` put in at position `k`, merged on both sides where it meets a neighbour. */
  function Joined(s: seq<Block>, k: nat, b: Block): seq<Block>
    requires k <= |s|
  {
    Splice(s, First(s, k, b), Last(s, k, b), Merged(s, k, b))
  }

  lemma SpliceOrdered(s: seq<Block>, x: nat, y: nat, c: Block, base: nat)
    requires x <= y <= |s| && Ordered(s) && Sized(s, base)
    requires c.units > 0 && c.addr > 0 && c.addr != base && c.End() <= ADDRESS_UNITS
    requires forall i :: 0 <= i < x ==> s[i].End() < c.addr
    requires forall i :: y <= i < |s| ==> c.End() < s[i].addr
    ensures Ordered(Splice(s, x, y, c)) && Sized(Splice(s, x, y, c), base)
  {
  }

  lemma SpliceHasAddr(s: seq<Block>, x: nat, y: nat, c: Block, i: nat)
    requires x <= y <= |s| && i < |s| && !(x <= i < y)
    ensures HasAddr(Splice(s, x, y, c), s[i].addr)
  {
    var t := Splice(s, x, y, c);
    if i < x { assert t[i].addr == s[i].addr; } else { assert t[i - y + x + 1].addr == s[i].addr; }
  }

  lemma SpliceUnits(s: seq<Block>, x: nat, y: nat, c: Block, u: int)
    requires x <= y <= |s|
    ensures Covers(Splice(s, x, y, c), u) <==> Covers(s[..x], u) || In(c, u) || Covers(s[y..], u)
  {
    var t := Splice(s, x, y, c);
    if Covers(t, u) {
      var i :| 0 <= i < |t| && In(t[i], u);
      if i < x { assert In(s[..x][i], u); } else if i > x { assert In(s[y..][i - x - 1], u); }
    }
    if Covers(s[..x], u) {
      var i :| 0 <= i < x && In(s[..x][i], u);
      assert In(t[i], u);
    }
    if In(c, u) { assert In(t[x], u); }
    if Covers(s[y..], u) {
      var i :| 0 <= i < |s| - y && In(s[y..][i], u);
      assert In(t[i + x + 1], u);
    }
  }

  lemma JoinedWellFormed(s: seq<Block>, k: nat, b: Block, base: nat)
    requires WellFormed(s, base) && Fits(s, k, b, base)
    ensures WellFormed(Joined(s, k, b), base)
  {
    SpliceOrdered(s, First(s, k, b), Last(s, k, b), Merged(s, k, b), base);
    var i :| 0 <= i < |s| && s[i].addr == base;
    SpliceHasAddr(s, First(s, k, b), Last(s, k, b), Merged(s, k, b), i);
  }

  lemma UnitsSplit(s: seq<Block>, x: nat, u: int)
    requires x <= |s|
    ensures Covers(s, u) <==> Covers(s[..x], u) || Covers(s[x..], u)
  {
    if Covers(s, u) {
      var i :| 0 <= i < |s| && In(s[i], u);
      if i < x { assert In(s[..x][i], u); } else { assert In(s[x..][i - x], u); }
    }
    if Covers(s[..x], u) {
      var i :| 0 <= i < x && In(s[..x][i], u);
      assert In(s[i], u);
    }
    if Covers(s[x..], u) {
      var i :| 0 <= i < |s| - x && In(s[x..][i], u);
      assert In(s[x + i], u);
    }
  }

  lemma CutUnits(s: seq<Block>, x: nat, y: nat, u: int)
    requires x <= y <= |s|
    ensures Covers(s, u) <==> Covers(s[..x], u) || Covers(s[x..y], u) || Covers(s[y..], u)
  {
    UnitsSplit(s, y, u);
    UnitsSplit(s[..y], x, u);
    assert s[..y][..x] == s[..x] && s[..y][x..] == s[x..y];
  }

  lemma SwallowedUnits(s: seq<Block>, k: nat, b: Block, u: int)
    requires k <= |s|
    ensures In(Merged(s, k, b), u) <==> In(b, u) || Covers(s[First(s, k, b)..Last(s, k, b)], u)
  {
  }

  /** Putting `b` in adds exactly its units. */
  lemma JoinedUnits(s: seq<Block>, k: nat, b: Block)
    requires k <= |s|
    ensures Released(s, b, Joined(s, k, b))
  {
    forall u ensures Covers(Joined(s, k, b), u) <==> Covers(s, u) || In(b, u) {
      SpliceUnits(s, First(s, k, b), Last(s, k, b), Merged(s, k, b), u);
      SwallowedUnits(s, k, b, u);
      CutUnits(s, First(s, k, b), Last(s, k, b), u);
    }
  }

  /** Address `a` separates the first `k` blocks from the rest. */
  ghost predicate Separates(s: seq<Block>, k: nat, a: nat) {
    && k <= |s|
    && (forall i :: 0 <= i < k ==> s[i].addr < a)
    && forall i :: k <= i < |s| ==> a < s[i].addr
  }

  lemma FindSeparation(s: seq<Block>, a: nat) returns (k: nat)
    requires Ordered(s) && !HasAddr(s, a)
    ensures Separates(s, k, a)
  {
    k := 0;
    while k < |s| && s[k].addr < a
      invariant k <= |s| && forall i :: 0 <= i < k ==> s[i].addr < a
    {
      k := k + 1;
    }
  }

  /** A block that shares no unit with the list and keeps clear of the static header fits where its address
      belongs. */
  lemma DisjointFits(s: seq<Block>, k: nat, b: Block, base: nat)
    requires WellFormed(s, base) && Separates(s, k, b.addr) && Disjoint(s, b)
    requires b.units > 0 && b.addr > 0 && b.End() <= ADDRESS_UNITS && !(b.addr <= base <= b.End())
    ensures Fits(s, k, b, base)
  {
    forall i | 0 <= i < k ensures s[i].End() <= b.addr {
      if s[i].End() > b.addr { assert In(s[i], b.addr) && In(b, b.addr); }
    }
    forall i | k <= i < |s| ensures b.End() <= s[i].addr {
      if b.End() > s[i].addr && s[i].units > 0 { assert In(s[i], s[i].addr) && In(b, s[i].addr); }
    }
  }

  lemma DisjointFromAddrs(s: seq<Block>, b: Block, base: nat)
    requires WellFormed(s, base) && Disjoint(s, b) && b.units > 0 && b.addr != base
    ensures !HasAddr(s, b.addr)
  {
    if HasAddr(s, b.addr) {
      var i :| 0 <= i < |s| && s[i].addr == b.addr;
      assert s[i].units > 0;
      assert In(s[i], b.addr) && In(b, b.addr);
    }
  }

  // ----- Taking a block -----

  function Without(s: seq<Block>, i: nat): seq<Block>
    requires i < |s|
  {
    s[..i] + s[i + 1..]
  }

  lemma OtherBlocksDisjoint(s: seq<Block>, i: nat, u: int)
    requires Ordered(s) && i < |s| && In(s[i], u)
    ensures !Covers(Without(s, i), u)
  {
  }

  lemma WithoutUnits(s: seq<Block>, i: nat, u: int)
    requires i < |s|
    ensures Covers(s, u) <==> Covers(Without(s, i), u) || In(s[i], u)
  {
    var t := Without(s, i);
    if Covers(s, u) && !In(s[i], u) {
      var j :| 0 <= j < |s| && In(s[j], u);
      var k := if j < i then j else j - 1;
      assert t[k] == s[j];
    }
    if Covers(t, u) {
      var j :| 0 <= j < |t| && In(t[j], u);
      var k := if j < i then j else j + 1;
      assert t[j] == s[k];
    }
  }

  /** Unlinking a block takes exactly its units. */
  lemma RemoveTakes(s: seq<Block>, i: nat, base: nat)
    requires WellFormed(s, base) && i < |s| && s[i].units > 0
    ensures WellFormed(Without(s, i), base) && Taken(s, s[i], Without(s, i))
  {
    var t := Without(s, i);
    forall u ensures (In(s[i], u) ==> Covers(s, u)) && (Covers(t, u) <==> Covers(s, u) && !In(s[i], u)) {
      WithoutUnits(s, i, u);
      if In(s[i], u) { OtherBlocksDisjoint(s, i, u); }
    }
    var j :| 0 <= j < |s| && s[j].addr == base;
    assert t[if j < i then j else j - 1].addr == base;
  }

  lemma ReplacedUnits(s: seq<Block>, i: nat, c: Block, u: int)
    requires i < |s|
    ensures Covers(s[i := c], u) <==> Covers(Without(s, i), u) || In(c, u)
  {
    var t, w := s[i := c], Without(s, i);
    if Covers(t, u) && !In(c, u) {
      var j :| 0 <= j < |t| && In(t[j], u);
      var k := if j < i then j else j - 1;
      assert w[k] == t[j];
    }
    if Covers(w, u) {
      var j :| 0 <= j < |w| && In(w[j], u);
      var k := if j < i then j else j + 1;
      assert t[k] == w[j];
    }
    if In(c, u) { assert In(t[i], u); }
  }

  /** Cutting the tail off a block takes exactly the tail's units. */
  lemma ShrinkTakes(s: seq<Block>, i: nat, rest: nat, base: nat)
    requires WellFormed(s, base) && i < |s| && 0 < rest < s[i].units
    ensures WellFormed(s[i := Block(s[i].addr, rest)], base)
    ensures Taken(s, Block(s[i].addr + rest, s[i].units - rest), s[i := Block(s[i].addr, rest)])
  {
    var head, tail := Block(s[i].addr, rest), Block(s[i].addr + rest, s[i].units - rest);
    var t := s[i := head];
    forall u ensures (In(tail, u) ==> Covers(s, u)) && (Covers(t, u) <==> Covers(s, u) && !In(tail, u)) {
      WithoutUnits(s, i, u);
      ReplacedUnits(s, i, head, u);
      if In(s[i], u) { OtherBlocksDisjoint(s, i, u); }
    }
    var j :| 0 <= j < |s| && s[j].addr == base;
    assert t[j].addr == base;
  }
}
