/** The physical frame allocator: a bitmap of 32-bit words and a counter, refining a set of used frames. */
module FrameAllocator {
  import opened Bits
  import opened Bytes
  import opened FrameSets
  import opened BootMap

  /** Rounds up to a page boundary by masking; the sum wraps at 32 bits. */
  method AlignUp(v: Word) returns (r: Word)
    ensures r == (v + 4095) % TWO32 / 4096 * 4096
  {
    RoundedDown((v + 4095) % TWO32);
    r := AndNot((v + 4095) % TWO32, 4095);
  }

  method AlignDown(v: Word) returns (r: Word)
    ensures r == v / 4096 * 4096
  {
    RoundedDown(v);
    r := AndNot(v, 4095);
  }

  class FrameAllocator {
    const bitmap: array<Word>
    var total: nat
    var usedCount: nat
    ghost var used: set<nat>  // the abstract state: the frames marked in the bitmap

    ghost predicate Valid()
      reads this, bitmap
    {
      Represents(bitmap[..], used) && usedCount == |used|
    }

    /** Static storage: an all-zero bitmap, before initialisation. */
    constructor ()
      ensures bitmap.Length == BITMAP_WORDS && fresh(bitmap)
    {
      bitmap := new Word[BITMAP_WORDS](_ => 0);
      total, usedCount, used := 0, 0, {};
    }

    method FillBitmap()
      requires bitmap.Length == BITMAP_WORDS
      modifies this, bitmap
      ensures Valid() && used == AllFrames() && total == MAX_FRAMES
    {
      total, usedCount := MAX_FRAMES, MAX_FRAMES;
      var i := 0;
      while i < BITMAP_WORDS
        invariant i <= BITMAP_WORDS && total == usedCount == MAX_FRAMES
        invariant forall k :: 0 <= k < i ==> bitmap[k] == 0xFFFF_FFFF
      {
        bitmap[i] := 0xFFFF_FFFF;
        i := i + 1;
      }
      used := AllFrames();
      FullBitmap(bitmap[..]);
      AllFramesSize();
    }

    method ReleaseEntry(entry: MapEntry)
      requires Valid()
      modifies this`usedCount, this`used, bitmap
      ensures Valid() && used == old(used) - EntryReleases(entry)
    {
      if entry.kind == 1 && entry.addr < TWO32 {
        MarkRegionFree(entry.addr, RegionEnd(entry));
      }
    }

    /** Releases the record at `mapCurr`, which is record `i`, and returns where the next one starts. */
    method ReleaseRecord(info: BootInfo, i: nat, mapCurr: Word, ghost before: set<nat>) returns (next: Word)
      requires Valid() && info.WellFormed() && i <= |info.entries|
      requires mapCurr == info.mmapAddr + TableSize(info.entries[..i]) < info.mmapAddr + info.mmapLength
      requires used == before - MapReleases(info.entries[..i])
      modifies this`usedCount, this`used, bitmap
      ensures Valid() && i < |info.entries| && next == info.mmapAddr + TableSize(info.entries[..i + 1])
      ensures used == before - MapReleases(info.entries[..i + 1])
    {
      NextEntry(info.entries, i);
      RemoveMore(before, MapReleases(info.entries[..i]), EntryReleases(info.entries[i]));
      ReleaseEntry(info.entries[i]);
      next := Wrap(mapCurr + info.entries[i].size + 4);
    }

    /** Walks the memory map table and releases every available region. */
    method ReleaseMap(info: BootInfo)
      requires Valid() && info.WellFormed()
      modifies this`usedCount, this`used, bitmap
      ensures Valid() && used == old(used) - MapReleases(info.entries)
    {
      var mapEnd := Wrap(info.mmapAddr + info.mmapLength);
      var mapCurr, i := info.mmapAddr, 0;
      while mapCurr < mapEnd
        invariant Valid() && i <= |info.entries|
        invariant mapCurr == info.mmapAddr + TableSize(info.entries[..i])
        invariant used == old(used) - MapReleases(info.entries[..i])
        decreases |info.entries| - i
      {
        mapCurr := ReleaseRecord(info, i, mapCurr, old(used));
        i := i + 1;
      }
      WholeTable(info.entries, i, info.mmapLength);
    }

    method ReleaseAvailable(info: BootInfo)
      requires Valid() && (info.HasMap() ==> info.WellFormed())
      modifies this`usedCount, this`used, bitmap
      ensures Valid() && used == old(used) - BootReleases(info)
    {
      if info.HasMap() {
        ReleaseMap(info);
      } else if info.HasMemory() {
        MarkRegionFree(0x10_0000, Wrap(0x10_0000 + Wrap(info.memUpper * 1024)));
      }
    }

    method ReserveMapTable(info: BootInfo)
      requires Valid()
      modifies this`usedCount, this`used, bitmap
      ensures Valid() && used == old(used) + MapTableReserves(info)
    {
      if info.HasMap() {
        MarkRegionUsed(info.mmapAddr, Wrap(info.mmapAddr + info.mmapLength));
      }
    }

    method ReserveKernel(kernelStart: Word, kernelEnd: Word)
      requires Valid()
      modifies this`usedCount, this`used, bitmap
      ensures Valid() && used == old(used) + Reserves(0, PAGE_SIZE) + Reserves(kernelStart, kernelEnd)
    {
      MarkRegionUsed(0, PAGE_SIZE);
      MarkRegionUsed(kernelStart, kernelEnd);
    }

    method ReserveInfo(info: BootInfo)
      requires Valid()
      modifies this`usedCount, this`used, bitmap
      ensures Valid() && used == old(used) + Reserves(info.addr, Wrap(info.addr + INFO_SIZE)) + MapTableReserves(info)
    {
      MarkRegionUsed(info.addr, Wrap(info.addr + INFO_SIZE));
      ReserveMapTable(info);
    }

    method ReserveBoot(info: BootInfo, kernelStart: Word, kernelEnd: Word)
      requires Valid()
      modifies this`usedCount, this`used, bitmap
      ensures Valid() && used == old(used) + BootReserves(info, kernelStart, kernelEnd)
    {
      ReserveKernel(kernelStart, kernelEnd);
      ReserveInfo(info);
      BootReserved(old(used), info, kernelStart, kernelEnd);
    }

    method Init(info: BootInfo, kernelStart: Word, kernelEnd: Word)
      requires bitmap.Length == BITMAP_WORDS && (info.HasMap() ==> info.WellFormed())
      modifies this, bitmap
      ensures Valid() && total == MAX_FRAMES
      ensures used == AllFrames() - BootReleases(info) + BootReserves(info, kernelStart, kernelEnd)
    {
      FillBitmap();
      ReleaseAvailable(info);
      ReserveBoot(info, kernelStart, kernelEnd);
    }

    method MarkUsed(f: nat)
      requires Valid() && f < MAX_FRAMES
      modifies this`usedCount, this`used, bitmap
      ensures Valid() && used == old(used) + {f}
    {
      var word, bit := f / 32, f % 32;
      var mask := Pow2(bit);
      assert IsFrame(f);
      MaskTestsBit(bitmap[word], bit);
      if And(bitmap[word], mask) == 0 {
        MaskFits(bitmap[word], bit);
        OrMask(bitmap[..], used, f, Or(bitmap[word], mask));
        bitmap[word] := Or(bitmap[word], mask);
        assert bitmap[..] == old(bitmap[..])[word := bitmap[word]];
        usedCount := usedCount + 1;
        used := used + {f};
      }
    }

    method MarkFree(f: nat)
      requires Valid() && f < MAX_FRAMES
      modifies this`usedCount, this`used, bitmap
      ensures Valid() && used == old(used) - {f}
    {
      var word, bit := f / 32, f % 32;
      var mask := Pow2(bit);
      assert IsFrame(f);
      MaskTestsBit(bitmap[word], bit);
      if And(bitmap[word], mask) != 0 {
        MaskFits(bitmap[word], bit);
        ClearMask(bitmap[..], used, f, AndNot(bitmap[word], mask));
        bitmap[word] := AndNot(bitmap[word], mask);
        assert bitmap[..] == old(bitmap[..])[word := bitmap[word]];
        usedCount := usedCount - 1;
        used := used - {f};
      }
    }

    function IsUsed(f: nat): (r: bool)
      requires Valid() && f < MAX_FRAMES
      reads this, bitmap
      ensures r <==> f in used
    {
      assert IsFrame(f);
      Shr(bitmap[f / 32], f % 32) % 2 == 1
    }

    method FreeFrames(first: nat, last: nat)
      requires Valid() && first <= last
      modifies this`usedCount, this`used, bitmap
      ensures Valid() && used == old(used) - Range(first, last)
    {
      var f := first;
      while f < last
        invariant Valid() && first <= f <= last
        invariant used == old(used) - Range(first, f)
      {
        RemoveNext(old(used), first, f);
        if f < MAX_FRAMES { MarkFree(f); }
        f := f + 1;
      }
    }

    method UseFrames(first: nat, last: nat)
      requires Valid() && first <= last
      modifies this`usedCount, this`used, bitmap
      ensures Valid() && used == old(used) + Range(first, last)
    {
      var f := first;
      while f < last
        invariant Valid() && first <= f <= last
        invariant used == old(used) + Range(first, f)
      {
        AddNext(old(used), first, f);
        if f < MAX_FRAMES { MarkUsed(f); }
        f := f + 1;
      }
    }

    method MarkRegionFree(startAddr: Word, endAddr: Word)
      requires Valid()
      modifies this`usedCount, this`used, bitmap
      ensures Valid() && used == old(used) - Releases(startAddr, endAddr)
    {
      var start := AlignUp(startAddr);
      var end := AlignDown(endAddr);
      ReleasedRange(startAddr, endAddr, start / PAGE_SIZE, end / PAGE_SIZE);
      if start < end { FreeFrames(start / PAGE_SIZE, end / PAGE_SIZE); }
    }

    method MarkRegionUsed(startAddr: Word, endAddr: Word)
      requires Valid()
      modifies this`usedCount, this`used, bitmap
      ensures Valid() && used == old(used) + Reserves(startAddr, endAddr)
    {
      var start := AlignDown(startAddr);
      var end := AlignUp(endAddr);
      ReservedRange(startAddr, endAddr, start / PAGE_SIZE, end / PAGE_SIZE);
      if start < end { UseFrames(start / PAGE_SIZE, end / PAGE_SIZE); }
    }

    /** First fit for one frame. */
    method Alloc() returns (addr: Word)
      requires Valid()
      modifies this`usedCount, this`used, bitmap
      ensures Valid() && FirstFit(old(used), 1, addr, used)
    {
      var f := 0;
      while f < MAX_FRAMES
        invariant f <= MAX_FRAMES
        invariant forall g: nat :: g < f ==> g in used
      {
        if !IsUsed(f) {
          LowestSingle(used, f, used + {f});
          MarkUsed(f);
          return f * PAGE_SIZE;
        }
        f := f + 1;
      }
      NoneFree(used, 1);
      return 0;
    }

    method Free(addr: Word)
      requires Valid()
      modifies this`usedCount, this`used, bitmap
      ensures Valid() && used == old(used) - {addr / PAGE_SIZE}
    {
      var f := addr / PAGE_SIZE;
      if f < MAX_FRAMES { MarkFree(f); }
    }

    /** Scans for the lowest run of `count` free frames; -1 when there is none. */
    method FindRun(count: Word) returns (start: int)
      requires Valid() && count > 0
      ensures start < 0 ==> NoRun(used, count)
      ensures start >= 0 ==> LowestRun(used, start, count)
    {
      var run, runStart, f := 0, 0, 0;
      while f < MAX_FRAMES
        invariant f <= MAX_FRAMES && run < count && (run > 0 ==> runStart + run == f)
        invariant LongestRunEndingAt(used, f, run) && NoRunBefore(used, f, count)
      {
        if !IsUsed(f) {
          if run == 0 { runStart := f; }
          RunExtends(used, f, run, count);
          run := run + 1;
          if run == count {
            RunFound(used, runStart, count, f);
            return runStart;
          }
        } else {
          RunBroken(used, f, count);
          run := 0;
        }
        f := f + 1;
      }
      return -1;
    }

    /** First fit for a run of frames. */
    method AllocContiguous(count: Word) returns (addr: Word)
      requires Valid()
      modifies this`usedCount, this`used, bitmap
      ensures Valid() && FirstFit(old(used), count, addr, used)
    {
      if count == 0 { return 0; }
      var start := FindRun(count);
      if start < 0 { return 0; }
      FirstFitFound(used, start, count, used + Range(start, start + count));
      UseFrames(start, start + count);
      return start * PAGE_SIZE;
    }

    /** Releases `count` frames from `addr` on; the frame number wraps at 32 bits. */
    method FreeContiguous(addr: Word, count: Word)
      requires Valid()
      modifies this`usedCount, this`used, bitmap
      ensures Valid() && used == old(used) - WrappedRange(addr / PAGE_SIZE, count)
    {
      var base, i := addr / PAGE_SIZE, 0;
      while i < count
        invariant Valid() && i <= count && used == old(used) - WrappedRange(base, i)
      {
        var f := Wrap(base + i);
        RemoveWrapped(old(used), base, i, f);
        if f < MAX_FRAMES { MarkFree(f); }
        i := i + 1;
      }
    }

    method Reserve(startAddr: Word, endAddr: Word)
      requires Valid()
      modifies this`usedCount, this`used, bitmap
      ensures Valid() && used == old(used) + Reserves(startAddr, endAddr)
    {
      MarkRegionUsed(startAddr, endAddr);
    }

    /** `total - used` is the number of frames outside the used set. */
    function FreeCount(): (n: int)
      requires Valid() && total == MAX_FRAMES
      reads this, bitmap
      ensures n == |AllFrames() - used|
    {
      FreeSize(used);
      total - usedCount
    }
  }
}
