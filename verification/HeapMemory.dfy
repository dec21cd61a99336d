/** The free list in memory: headers that point to each other in a circle. */
module HeapMemory {
  import opened FreeList

  /** The header in front of every block: the next free block and this block's size. */
  datatype Header = Header(next: nat, units: nat)

  type Headers = map<nat, Header>

  function Succ(i: nat, n: nat): nat {
    if i + 1 == n then 0 else i + 1
  }

  function Pred(k: nat, n: nat): nat
    requires n > 0
  {
    if k == 0 then n - 1 else k - 1
  }

  /** Pointer arithmetic on headers; the sum wraps at the end of the address space. */
  function Advance(a: nat, units: nat): nat {
    if a + units < ADDRESS_UNITS then a + units else a + units - ADDRESS_UNITS
  }

  ghost predicate LinkedAt(mem: Headers, s: seq<Block>, i: nat)
    requires i < |s|
  {
    s[i].addr in mem && mem[s[i].addr] == Header(s[Succ(i, |s|)].addr, s[i].units)
  }

  /** The headers link the blocks of `s` into one circle, in address order with one wrap. */
  ghost predicate Linked(mem: Headers, s: seq<Block>) {
    forall i :: 0 <= i < |s| ==> LinkedAt(mem, s, i)
  }

  /** The first half of a release: the block takes over, or points to, its successor. */
  function LinkNext(mem: Headers, curr: nat, a: nat): Headers
    requires curr in mem && a in mem && mem[curr].next in mem
  {
    var next := mem[curr].next;
    if Advance(a, mem[a].units) == next
    then mem[a := Header(mem[next].next, mem[a].units + mem[next].units)]
    else mem[a := Header(next, mem[a].units)]
  }

  /** The second half: its predecessor takes the block over, or points to it. */
  function LinkPrev(mem: Headers, curr: nat, a: nat): Headers
    requires curr in mem && a in mem
  {
    if Advance(curr, mem[curr].units) == a
    then mem[curr := Header(mem[a].next, mem[curr].units + mem[a].units)]
    else mem[curr := Header(a, mem[curr].units)]
  }

  lemma OtherAddr(s: seq<Block>, k: nat, b: Block, base: nat)
    requires WellFormed(s, base) && Fits(s, k, b, base)
    ensures forall i :: 0 <= i < |s| ==> s[i].addr != b.addr
  {
  }

  /** The pointer comparisons of the release decide exactly whether the neighbours meet. */
  lemma MeetTests(s: seq<Block>, k: nat, b: Block, base: nat)
    requires WellFormed(s, base) && Fits(s, k, b, base)
    ensures Advance(b.addr, b.units) == s[Succ(Pred(k, |s|), |s|)].addr <==> MeetsNext(s, k, b)
    ensures Advance(s[Pred(k, |s|)].addr, s[Pred(k, |s|)].units) == b.addr <==> MeetsPrev(s, k, b)
  {
  }

  ghost predicate Kept(mem: Headers, mem': Headers, a: nat) {
    a in mem ==> a in mem' && mem'[a] == mem[a]
  }

  /** Blocks `x..y` give way to `c`: `c` points to the block after them, the block before them points to `c`, and
      no other header changes. */
  ghost predicate Relinked(mem: Headers, mem': Headers, s: seq<Block>, x: nat, y: nat, c: Block) {
    && x <= y <= |s| && (x > 0 || y < |s|)
    && c.addr in mem' && mem'[c.addr] == Header(s[if y < |s| then y else 0].addr, c.units)
    && s[Pred(x, |s|)].addr in mem' && mem'[s[Pred(x, |s|)].addr] == Header(c.addr, s[Pred(x, |s|)].units)
    && forall i :: 0 <= i < |s| && !(x <= i < y) && i != Pred(x, |s|) ==>
         Kept(mem, mem', s[i].addr)
  }

  lemma SpliceBefore(mem: Headers, mem': Headers, s: seq<Block>, x: nat, y: nat, c: Block, i: nat)
    requires Linked(mem, s) && Relinked(mem, mem', s, x, y, c) && i < x
    ensures LinkedAt(mem', Splice(s, x, y, c), i)
  {
    var t := Splice(s, x, y, c);
    assert LinkedAt(mem, s, i) && t[i] == s[i];
    if i + 1 < x { assert t[i + 1] == s[i + 1]; } else { assert t[i + 1] == c; }
  }

  lemma SpliceAt(mem: Headers, mem': Headers, s: seq<Block>, x: nat, y: nat, c: Block)
    requires Linked(mem, s) && Relinked(mem, mem', s, x, y, c)
    ensures LinkedAt(mem', Splice(s, x, y, c), x)
  {
  }

  lemma SpliceAfter(mem: Headers, mem': Headers, s: seq<Block>, x: nat, y: nat, c: Block, i: nat)
    requires Linked(mem, s) && Relinked(mem, mem', s, x, y, c) && y <= i < |s|
    ensures LinkedAt(mem', Splice(s, x, y, c), i - y + x + 1)
  {
    var t := Splice(s, x, y, c);
    assert LinkedAt(mem, s, i) && t[i - y + x + 1] == s[i];
    if i + 1 < |s| { assert t[i - y + x + 2] == s[i + 1]; }
    else if x > 0 { assert t[0] == s[0]; }
    else { assert t[0] == c; }
  }

  lemma LinkedSplice(mem: Headers, mem': Headers, s: seq<Block>, x: nat, y: nat, c: Block)
    requires Linked(mem, s) && Relinked(mem, mem', s, x, y, c)
    ensures Linked(mem', Splice(s, x, y, c))
  {
    var t := Splice(s, x, y, c);
    forall i | 0 <= i < |t| ensures LinkedAt(mem', t, i) {
      if i < x { SpliceBefore(mem, mem', s, x, y, c, i); }
      else if i == x { SpliceAt(mem, mem', s, x, y, c); }
      else { SpliceAfter(mem, mem', s, x, y, c, i - x - 1 + y); }
    }
  }

  /** The static header is never swallowed by a merge. */
  lemma BaseSurvives(s: seq<Block>, k: nat, b: Block, base: nat)
    requires WellFormed(s, base) && Fits(s, k, b, base)
    ensures First(s, k, b) > 0 || Last(s, k, b) < |s|
  {
  }

  lemma AddrsDistinct(s: seq<Block>, i: nat, j: nat)
    requires Ordered(s) && i < |s| && j < |s| && i != j
    ensures s[i].addr != s[j].addr
  {
  }

  /** What a release writes, when the block stays apart from its predecessor. */
  lemma FreedApart(mem: Headers, s: seq<Block>, k: nat, b: Block, base: nat, mem1: Headers, mem2: Headers)
    requires WellFormed(s, base) && Fits(s, k, b, base) && Linked(mem, s) && !MeetsPrev(s, k, b)
    requires mem1 == mem[b.addr :=
                         Header(s[if Last(s, k, b) < |s| then Last(s, k, b) else 0].addr, Merged(s, k, b).units)]
    requires mem2 == mem1[s[Pred(k, |s|)].addr := Header(b.addr, s[Pred(k, |s|)].units)]
    ensures Relinked(mem, mem2, s, First(s, k, b), Last(s, k, b), Merged(s, k, b))
  {
    BaseSurvives(s, k, b, base);
    OtherAddr(s, k, b, base);
    forall i | 0 <= i < |s| && i != Pred(k, |s|) ensures Kept(mem, mem2, s[i].addr) {
      AddrsDistinct(s, i, Pred(k, |s|));
    }
  }

  /** What a release writes, when the predecessor swallows the block. */
  lemma FreedMerged(mem: Headers, s: seq<Block>, k: nat, b: Block, base: nat, mem1: Headers, mem2: Headers)
    requires WellFormed(s, base) && Fits(s, k, b, base) && Linked(mem, s) && MeetsPrev(s, k, b)
    requires mem1.Keys == mem.Keys + {b.addr} && forall a :: a in mem && a != b.addr ==> Kept(mem, mem1, a)
    requires mem2 == mem1[s[k - 1].addr :=
                          Header(s[if Last(s, k, b) < |s| then Last(s, k, b) else 0].addr, Merged(s, k, b).units)]
    ensures Relinked(mem, mem2, s, First(s, k, b), Last(s, k, b), Merged(s, k, b))
  {
    BaseSurvives(s, k, b, base);
    OtherAddr(s, k, b, base);
    var q := Pred(k - 1, |s|);
    assert LinkedAt(mem, s, q);
    forall i | 0 <= i < |s| && i != k - 1 ensures Kept(mem, mem2, s[i].addr) {
      AddrsDistinct(s, i, k - 1);
    }
    assert Succ(q, |s|) == k - 1;
    assert s[q].addr in mem2;
  }

  lemma SuccOfPred(k: nat, n: nat)
    requires 0 < n && k <= n
    ensures Succ(Pred(k, n), n) == if k < n then k else 0
  {
  }

  /** After the first half of a release the block holds its own and the next block's units, and points past them. */
  lemma NextLinked(mem: Headers, s: seq<Block>, k: nat, b: Block, base: nat)
    requires WellFormed(s, base) && Fits(s, k, b, base) && Linked(mem, s)
    requires b.addr in mem && mem[b.addr].units == b.units
    ensures var p := Pred(k, |s|); s[p].addr in mem && mem[s[p].addr].next in mem
    ensures var y := Last(s, k, b);
            LinkNext(mem, s[Pred(k, |s|)].addr, b.addr) ==
            mem[b.addr := Header(s[if y < |s| then y else 0].addr,
                                 b.units + if MeetsNext(s, k, b) then s[k].units else 0)]
  {
    var p := Pred(k, |s|);
    SuccOfPred(k, |s|);
    MeetTests(s, k, b, base);
    assert LinkedAt(mem, s, p);
    assert LinkedAt(mem, s, Succ(p, |s|));
  }

  /** A release leaves the headers linking exactly the list with the block joined in. */
  lemma FreedLinked(mem: Headers, s: seq<Block>, k: nat, b: Block, base: nat, mem1: Headers)
    requires WellFormed(s, base) && Fits(s, k, b, base) && Linked(mem, s)
    requires b.addr in mem && mem[b.addr].units == b.units
    requires var p := Pred(k, |s|); s[p].addr in mem && mem[s[p].addr].next in mem
    requires mem1 == LinkNext(mem, s[Pred(k, |s|)].addr, b.addr)
    ensures Linked(LinkPrev(mem1, s[Pred(k, |s|)].addr, b.addr), Joined(s, k, b))
  {
    var p := Pred(k, |s|);
    var mem2 := LinkPrev(mem1, s[p].addr, b.addr);
    NextLinked(mem, s, k, b, base);
    MeetTests(s, k, b, base);
    OtherAddr(s, k, b, base);
    assert LinkedAt(mem, s, p);
    if MeetsPrev(s, k, b) {
      FreedMerged(mem, s, k, b, base, mem1, mem2);
    } else {
      FreedApart(mem, s, k, b, base, mem1, mem2);
    }
    LinkedSplice(mem, mem2, s, First(s, k, b), Last(s, k, b), Merged(s, k, b));
  }

  // ----- Taking a block -----

  /** After a block is taken out, its predecessor is followed by its successor and every other block as before. */
  lemma WithoutNext(s: seq<Block>, i: nat, j: nat, o: nat)
    requires i < |s| && |s| > 1 && j < |s| - 1 && o == if j < i then j else j + 1
    ensures var t := Without(s, i);
            t[j] == s[o] && t[Succ(j, |t|)] == s[Succ(if o == Pred(i, |s|) then i else o, |s|)]
  {
  }

  lemma RemovedLinkedAt(mem: Headers, s: seq<Block>, i: nat, mem': Headers, j: nat)
    requires Ordered(s) && Linked(mem, s) && i < |s| && |s| > 1 && s[i].addr in mem && j < |s| - 1
    requires mem' == mem[s[Pred(i, |s|)].addr := Header(mem[s[i].addr].next, s[Pred(i, |s|)].units)]
    ensures LinkedAt(mem', Without(s, i), j)
  {
    var o := if j < i then j else j + 1;
    WithoutNext(s, i, j, o);
    assert LinkedAt(mem, s, i) && LinkedAt(mem, s, o);
    if o != Pred(i, |s|) { AddrsDistinct(s, o, Pred(i, |s|)); }
  }

  lemma RemovedLinked(mem: Headers, s: seq<Block>, i: nat, mem': Headers)
    requires Ordered(s) && Linked(mem, s) && i < |s| && |s| > 1
    requires s[i].addr in mem
    requires mem' == mem[s[Pred(i, |s|)].addr := Header(mem[s[i].addr].next, s[Pred(i, |s|)].units)]
    ensures Linked(mem', Without(s, i))
  {
    forall j | 0 <= j < |s| - 1 ensures LinkedAt(mem', Without(s, i), j) { RemovedLinkedAt(mem, s, i, mem', j); }
  }

  lemma ShrunkLinked(mem: Headers, s: seq<Block>, i: nat, rest: nat, a: nat, mem': Headers)
    requires Ordered(s) && Linked(mem, s) && i < |s| && 0 < rest < s[i].units && a == s[i].addr + rest
    requires a in mem'
    requires mem' == mem[s[i].addr := Header(s[Succ(i, |s|)].addr, rest)][a := mem'[a]]
    ensures Linked(mem', s[i := Block(s[i].addr, rest)])
  {
    var t := s[i := Block(s[i].addr, rest)];
    forall j | 0 <= j < |t| ensures LinkedAt(mem', t, j) {
      assert LinkedAt(mem, s, j);
      if j != i { AddrsDistinct(s, j, i); }
      assert s[j].addr != a by {
        if j < i { assert s[j].End() < s[i].addr; } else if j > i { assert s[i].End() < s[j].addr; }
      }
    }
  }

  // ----- Walking around the circle -----

  ghost predicate Circular(mem: Headers, s: seq<Block>, base: nat, freep: nat) {
    WellFormed(s, base) && Linked(mem, s) && HasAddr(s, freep)
  }

  /** Steps from block `i` to block `p` around a circle of `n` blocks. */
  ghost function Distance(i: nat, p: nat, n: nat): nat
    requires i < n && p < n
  {
    if i <= p then p - i else p + n - i
  }

  lemma StepCloser(i: nat, p: nat, n: nat)
    requires i < n && p < n && i != p
    ensures Distance(Succ(i, n), p, n) == Distance(i, p, n) - 1
  {
  }

  /** The exit test of the release loop, between block `i` and its successor. */
  predicate StopsHere(curr: nat, next: nat, a: nat) {
    (a > curr && a < next) || (curr >= next && (a > curr || a < next))
  }

  /** The search stops at the predecessor of the place where the address belongs, and nowhere else. */
  lemma StopsAtPredecessor(s: seq<Block>, k: nat, a: nat, i: nat)
    requires Ordered(s) && Separates(s, k, a) && i < |s|
    ensures StopsHere(s[i].addr, s[Succ(i, |s|)].addr, a) <==> i == Pred(k, |s|)
  {
  }

  /** The predecessor's address is still in the list after a release, alone or as the merged block. */
  lemma PredecessorStays(s: seq<Block>, k: nat, b: Block, base: nat)
    requires WellFormed(s, base) && Fits(s, k, b, base)
    ensures HasAddr(Joined(s, k, b), s[Pred(k, |s|)].addr)
  {
    var p := Pred(k, |s|);
    var t := Joined(s, k, b);
    BaseSurvives(s, k, b, base);
    if MeetsPrev(s, k, b) {
      assert t[k - 1] == Merged(s, k, b);
    } else {
      SpliceHasAddr(s, First(s, k, b), Last(s, k, b), Merged(s, k, b), p);
    }
  }

  /** A release touches only the block's header and headers in the list. */
  lemma ReleaseKeeps(mem: Headers, s: seq<Block>, p: nat, a: nat, x: nat)
    requires p < |s| && s[p].addr in mem && a in mem && mem[s[p].addr].next in mem
    requires x in mem && x != a && !HasAddr(s, x)
    ensures Kept(mem, LinkPrev(LinkNext(mem, s[p].addr, a), s[p].addr, a), x)
  {
  }

  /** Blocks the allocation search has passed when it stands at `i`, having started after `f`. */
  ghost predicate Passed(f: nat, i: nat, j: nat) {
    if i > f then f < j < i else j > f || j < i
  }

  lemma PassedGrows(f: nat, i: nat, n: nat)
    requires f < n && i < n && i != f
    ensures forall j :: 0 <= j < n && Passed(f, Succ(i, n), j) ==> Passed(f, i, j) || j == i
  {
  }

  lemma LinkedElsewhere(mem: Headers, s: seq<Block>, a: nat, header: Header)
    requires Linked(mem, s) && !HasAddr(s, a)
    ensures Linked(mem[a := header], s)
  {
    var mem' := mem[a := header];
    forall i | 0 <= i < |s| ensures LinkedAt(mem', s, i) {
      assert LinkedAt(mem, s, i);
    }
  }

  ghost predicate SameAddr(s: seq<Block>, i: nat, j: nat)
    requires i < |s| && j < |s|
  {
    s[i].addr == s[j].addr
  }

  /** What a walk around the circle needs to know. */
  ghost predicate Walkable(mem: Headers, s: seq<Block>, freep: nat) {
    && Linked(mem, s) && HasAddr(s, freep)
    && forall i, j :: 0 <= i < |s| && 0 <= j < |s| && SameAddr(s, i, j) ==> i == j
  }

  lemma CircularWalkable(mem: Headers, s: seq<Block>, base: nat, freep: nat)
    requires Circular(mem, s, base, freep)
    ensures Walkable(mem, s, freep)
  {
  }

  lemma PredOfSucc(i: nat, n: nat)
    requires i < n
    ensures Succ(i, n) < n && Pred(Succ(i, n), n) == i
  {
  }
}
