/** Sets of physical frames, and the bitmap of 32-bit words that stands for one. */
module FrameSets {
  import opened Bits
  import opened Bytes

  const PAGE_SIZE: nat := 4096
  const MAX_FRAMES: nat := 0x10_0000
  const BITMAP_WORDS: nat := 0x8000

  predicate Within(f: nat, lo: nat, hi: nat) {
    lo <= f < hi
  }

  /** The frames `lo..hi`, as far as they exist. */
  ghost function Range(lo: nat, hi: nat): set<nat> {
    set f: nat | f < MAX_FRAMES && Within(f, lo, hi)
  }

  ghost function AllFrames(): set<nat> {
    Range(0, MAX_FRAMES)
  }

  ghost predicate IsFrame(f: nat) {
    f < MAX_FRAMES
  }

  /** The bitmap stands for the set `used`. */
  ghost predicate Represents(words: seq<Word>, used: set<nat>) {
    && |words| == BITMAP_WORDS
    && (forall f :: f in used ==> f < MAX_FRAMES)
    && forall f: nat {:trigger IsFrame(f)} :: IsFrame(f) ==> (f in used <==> Bit(words[f / 32], f % 32))
  }

  /** `n` free frames starting at `s`. */
  ghost predicate FreeRun(used: set<nat>, s: nat, n: nat) {
    s + n <= MAX_FRAMES && forall f :: s <= f < s + n ==> f !in used
  }

  /** The run of `n` free frames that starts lowest. */
  ghost predicate LowestRun(used: set<nat>, s: nat, n: nat) {
    FreeRun(used, s, n) && forall t: nat :: t < s ==> !FreeRun(used, t, n)
  }

  /** Frame `f` is the lowest free one. */
  ghost predicate LowestFree(used: set<nat>, f: nat) {
    f !in used && forall g: nat :: g < f ==> g in used
  }

  ghost predicate NoRun(used: set<nat>, n: nat) {
    forall t: nat :: !FreeRun(used, t, n)
  }

  /** First fit: the lowest run of `n` free frames is taken, and address zero reports that there is none. */
  ghost predicate FirstFit(before: set<nat>, n: nat, addr: nat, after: set<nat>) {
    if n == 0 || NoRun(before, n) then addr == 0 && after == before
    else && addr % PAGE_SIZE == 0
         && LowestRun(before, addr / PAGE_SIZE, n)
         && after == before + Range(addr / PAGE_SIZE, addr / PAGE_SIZE + n)
  }

  lemma OrMask(words: seq<Word>, used: set<nat>, f: nat, v: Word)
    requires Represents(words, used) && f < MAX_FRAMES
    requires v == Or(words[f / 32], Pow2(f % 32))
    ensures Represents(words[f / 32 := v], used + {f})
  {
    forall g: nat | IsFrame(g)
      ensures Bit(words[f / 32 := v][g / 32], g % 32) <==> g == f || Bit(words[g / 32], g % 32)
    {
      if g / 32 == f / 32 {
        OrBits(words[f / 32], Pow2(f % 32), g % 32);
        PowerHasOneBit(f % 32, g % 32);
      }
    }
  }

  lemma ClearMask(words: seq<Word>, used: set<nat>, f: nat, v: Word)
    requires Represents(words, used) && f < MAX_FRAMES
    requires v == AndNot(words[f / 32], Pow2(f % 32))
    ensures Represents(words[f / 32 := v], used - {f})
  {
    forall g: nat | IsFrame(g)
      ensures Bit(words[f / 32 := v][g / 32], g % 32) <==> g != f && Bit(words[g / 32], g % 32)
    {
      if g / 32 == f / 32 {
        AndNotBits(words[f / 32], Pow2(f % 32), g % 32);
        PowerHasOneBit(f % 32, g % 32);
      }
    }
  }

  lemma MaskFits(w: Word, i: nat)
    requires i < 32
    ensures Or(w, Pow2(i)) < TWO32 && AndNot(w, Pow2(i)) < TWO32
  {
    Pow2Values();
    PowMonotone(i, 32);
    WordSize(w, Pow2(i), 32);
  }

  lemma FullBitmap(words: seq<Word>)
    requires |words| == BITMAP_WORDS && forall i :: 0 <= i < BITMAP_WORDS ==> words[i] == 0xFFFF_FFFF
    ensures Represents(words, AllFrames())
  {
    Pow2Values();
    forall f: nat | IsFrame(f) ensures f in AllFrames() && Bit(words[f / 32], f % 32) {
      assert Within(f, 0, MAX_FRAMES);
      OnesHaveAllBits(32, f % 32);
    }
  }

  lemma RemoveMore(used: set<nat>, a: set<nat>, b: set<nat>)
    ensures used - (a + b) == used - a - b
  {
  }

  lemma RemoveNext(used: set<nat>, lo: nat, f: nat)
    requires lo <= f
    ensures used - Range(lo, f + 1) == if f < MAX_FRAMES then used - Range(lo, f) - {f} else used - Range(lo, f)
  {
  }

  lemma AddNext(used: set<nat>, lo: nat, f: nat)
    requires lo <= f
    ensures used + Range(lo, f + 1) == if f < MAX_FRAMES then used + Range(lo, f) + {f} else used + Range(lo, f)
  {
  }

  lemma FirstFitFound(used: set<nat>, s: nat, n: nat, after: set<nat>)
    requires n > 0 && LowestRun(used, s, n) && after == used + Range(s, s + n)
    ensures FirstFit(used, n, s * PAGE_SIZE, after)
  {
  }

  lemma LowestSingle(used: set<nat>, f: nat, after: set<nat>)
    requires f < MAX_FRAMES && f !in used && forall g: nat :: g < f ==> g in used
    requires after == used + {f}
    ensures FirstFit(used, 1, f * PAGE_SIZE, after)
  {
    forall t: nat | t < f ensures !FreeRun(used, t, 1) { assert t in used; }
    assert FreeRun(used, f, 1);
    assert Range(f, f + 1) == {f};
    FirstFitFound(used, f, 1, after);
  }

  lemma NoneFree(used: set<nat>, n: nat)
    requires n > 0 && forall g: nat :: g < MAX_FRAMES ==> g in used
    ensures NoRun(used, n)
  {
    forall t: nat ensures !FreeRun(used, t, n) { assert t >= MAX_FRAMES || t in used; }
  }

  /** The `run` frames below `f` are free and the one below them is not. */
  ghost predicate LongestRunEndingAt(used: set<nat>, f: nat, run: nat) {
    run <= f && (forall g :: f - run <= g < f ==> g !in used) && (run < f ==> f - run - 1 in used)
  }

  /** No run of `n` free frames ends at or below frame `f`. */
  ghost predicate NoRunBefore(used: set<nat>, f: nat, n: nat) {
    forall t: nat :: t + n <= f ==> !FreeRun(used, t, n)
  }

  lemma RunExtends(used: set<nat>, f: nat, run: nat, n: nat)
    requires f !in used && LongestRunEndingAt(used, f, run) && NoRunBefore(used, f, n) && run < n
    ensures LongestRunEndingAt(used, f + 1, run + 1)
    ensures run + 1 < n ==> NoRunBefore(used, f + 1, n)
  {
  }

  lemma RunBroken(used: set<nat>, f: nat, n: nat)
    requires f in used && NoRunBefore(used, f, n) && n > 0
    ensures NoRunBefore(used, f + 1, n) && LongestRunEndingAt(used, f + 1, 0)
  {
  }

  lemma RunFound(used: set<nat>, s: nat, n: nat, f: nat)
    requires n > 0 && s + n == f + 1 <= MAX_FRAMES
    requires LongestRunEndingAt(used, f + 1, n) && NoRunBefore(used, f, n)
    ensures LowestRun(used, s, n)
  {
  }

  /** The frames `(base + i) mod 2^32`, for `i` below `count`, that exist. */
  ghost function WrappedRange(base: nat, count: nat): set<nat> {
    set f: nat | f < MAX_FRAMES && Reached(f, base, count)
  }

  predicate Reached(f: nat, base: nat, count: nat) {
    (f - base) % TWO32 < count
  }

  lemma RemoveWrapped(used: set<nat>, base: nat, i: nat, f: nat)
    requires base < MAX_FRAMES && i + 1 < TWO32 && f == Wrap(base + i)
    ensures used - WrappedRange(base, i + 1) ==
            if f < MAX_FRAMES then used - WrappedRange(base, i) - {f} else used - WrappedRange(base, i)
  {
  }

  lemma FreeSize(used: set<nat>)
    requires forall f :: f in used ==> f < MAX_FRAMES
    ensures |AllFrames() - used| == MAX_FRAMES - |used|
  {
    AllFramesSize();
    assert used <= AllFrames() by {
      forall f | f in used ensures f in AllFrames() { assert Within(f, 0, MAX_FRAMES); }
    }
    assert AllFrames() == (AllFrames() - used) + used;
  }

  lemma {:induction false} RangeSize(lo: nat, hi: nat)
    requires lo <= hi <= MAX_FRAMES
    ensures |Range(lo, hi)| == hi - lo
    decreases hi
  {
    if lo < hi {
      RangeSize(lo, hi - 1);
      assert Range(lo, hi) == Range(lo, hi - 1) + {hi - 1};
    } else {
      assert Range(lo, hi) == {};
    }
  }

  lemma AllFramesSize()
    ensures |AllFrames()| == MAX_FRAMES
  {
    RangeSize(0, MAX_FRAMES);
  }

  /** Address zero reports failure unambiguously exactly when no run of that length starts at frame zero. */
  lemma ZeroMeansNone(before: set<nat>, n: nat, addr: nat, after: set<nat>)
    requires n > 0 && FirstFit(before, n, addr, after)
    ensures (addr == 0 <==> NoRun(before, n)) <==> !FreeRun(before, 0, n)
  {
  }

  /** With every frame free, the first allocation succeeds and still returns zero. */
  lemma ZeroCanBeSuccess()
    ensures FirstFit({}, 1, 0, {0}) && !NoRun({}, 1)
  {
    LowestSingle({}, 0, {0});
    assert FreeRun({}, 0, 1);
  }

  /** A contiguous allocation is exactly undone by releasing the same frames. */
  lemma ContiguousRoundTrip(before: set<nat>, n: nat, addr: nat, after: set<nat>)
    requires n > 0 && FirstFit(before, n, addr, after) && addr != 0
    ensures after - WrappedRange(addr / PAGE_SIZE, n) == before
  {
  }

  /** No single frame is free exactly when all of them are used. */
  lemma FullWhenNoRun(used: set<nat>)
    requires forall f :: f in used ==> f < MAX_FRAMES
    ensures NoRun(used, 1) <==> |used| == MAX_FRAMES
    ensures |used| <= MAX_FRAMES
  {
    FreeSize(used);
    if NoRun(used, 1) {
      forall f | f in AllFrames() ensures f in used {
        assert !FreeRun(used, f, 1);
      }
      assert AllFrames() - used == {};
    } else {
      var t: nat :| FreeRun(used, t, 1);
      assert Within(t, 0, MAX_FRAMES);
      assert t in AllFrames() - used;
    }
  }
}
