/** The memory the boot loader reports, and the frames the allocator's initialisation makes of it. */
module BootMap {
  import opened Bits
  import opened Bytes
  import opened FrameSets

  const TWO64: nat := 0x1_0000_0000_0000_0000
  const INFO_SIZE: nat := 52

  /** One memory map entry; `size` counts the bytes after itself, `kind` 1 is available memory. */
  datatype MapEntry = MapEntry(size: Word, addr: nat, len: nat, kind: Word)

  /** The boot information the allocator reads. `entries` are the records laid out from `mmapAddr` on. */
  datatype BootInfo = BootInfo(addr: Word, flags: Word, memUpper: Word,
                               mmapAddr: Word, mmapLength: Word, entries: seq<MapEntry>)
  {
    predicate HasMap() {
      And(flags, 0x40) != 0
    }

    predicate HasMemory() {
      And(flags, 0x01) != 0
    }

    /** `entries` are the records that start inside the map table; the last may end behind it. None runs past the
        address space. */
    ghost predicate WellFormed() {
      && mmapLength <= TableSize(entries) && mmapAddr + TableSize(entries) < TWO32
      && (entries != [] ==> TableSize(entries[..|entries| - 1]) < mmapLength)
      && forall e :: e in entries ==> e.addr < TWO64 && e.len < TWO64
    }
  }

  ghost function TableSize(entries: seq<MapEntry>): nat {
    if entries == [] then 0 else TableSize(entries[..|entries| - 1]) + entries[|entries| - 1].size + 4
  }

  /** The frame lies wholly inside `start..end`. */
  predicate Inside(f: nat, start: nat, end: nat) {
    start <= f * 4096 && (f + 1) * 4096 <= end
  }

  /** The frame shares a byte with `start..end`. */
  predicate Touches(f: nat, start: nat, end: nat) {
    start < (f + 1) * 4096 && f * 4096 < end
  }

  function RoundedStart(start: Word): Word {
    if start > 0xFFFF_F000 then 0 else start
  }

  /** Frames released for a region. Rounding a start in the last page up wraps to address zero. */
  ghost function Releases(start: Word, end: Word): set<nat> {
    set f: nat | f < MAX_FRAMES && Inside(f, RoundedStart(start), end)
  }

  /** Frames reserved for a region. Rounding an end in the last page up wraps to address zero. */
  ghost function Reserves(start: Word, end: Word): set<nat> {
    set f: nat | f < MAX_FRAMES && end <= 0xFFFF_F000 && Touches(f, start, end)
  }

  lemma ReleasedRange(start: Word, end: Word, first: nat, last: nat)
    requires first * 4096 == (start + 4095) % TWO32 / 4096 * 4096 && last * 4096 == end / 4096 * 4096
    ensures Range(first, last) == Releases(start, end)
  {
  }

  lemma ReservedRange(start: Word, end: Word, first: nat, last: nat)
    requires first * 4096 == start / 4096 * 4096 && last * 4096 == (end + 4095) % TWO32 / 4096 * 4096
    ensures Range(first, last) == Reserves(start, end)
  {
  }

  /** A release frees exactly the frames inside its region, unless rounding the start up wraps and the region
      reaches into the second frame: then it frees frame zero, which the region does not contain. */
  lemma ReleaseExact(start: Word, end: Word)
    ensures (forall f: nat :: f < MAX_FRAMES ==> (f in Releases(start, end) <==> Inside(f, start, end)))
            <==> start <= 0xFFFF_F000 || end < 4096
  {
    if start > 0xFFFF_F000 && end >= 4096 {
      assert 0 in Releases(start, end) && !Inside(0, start, end);
    }
  }

  /** A reservation takes exactly the frames its region touches, unless rounding the end up wraps: then it
      takes none, although the region touches the last frame. */
  lemma ReserveExact(start: Word, end: Word)
    ensures (forall f: nat :: f < MAX_FRAMES ==> (f in Reserves(start, end) <==> Touches(f, start, end)))
            <==> end <= 0xFFFF_F000
  {
    if end > 0xFFFF_F000 {
      assert Touches(0xFFFFF, start, end) && 0xFFFFF !in Reserves(start, end);
    }
  }

  /** A region that starts in the last page frees frame zero; one that ends there reserves nothing. */
  lemma LastPageWraps()
    ensures 0 in Releases(0xFFFF_F001, 4096) && !Inside(0, 0xFFFF_F001, 4096)
    ensures Touches(0xF_FFFF, 0xFFFF_F000, 0xFFFF_F001) && 0xF_FFFF !in Reserves(0xFFFF_F000, 0xFFFF_F001)
  {
  }

  /** End of an entry as the allocator computes it: in 64 bits, capped, then cut to 32. */
  function RegionEnd(e: MapEntry): Word {
    var end64 := (e.addr + e.len) % TWO64;
    if end64 > TWO32 then 0xFFFF_FFFF else end64 % TWO32
  }

  ghost function EntryReleases(e: MapEntry): set<nat> {
    if e.kind == 1 && e.addr < TWO32 then Releases(e.addr, RegionEnd(e)) else {}
  }

  ghost function MapReleases(entries: seq<MapEntry>): set<nat> {
    if entries == [] then {}
    else MapReleases(entries[..|entries| - 1]) + EntryReleases(entries[|entries| - 1])
  }

  ghost function BootReleases(info: BootInfo): set<nat> {
    if info.HasMap() then MapReleases(info.entries)
    else if info.HasMemory() then Releases(0x10_0000, Wrap(0x10_0000 + Wrap(info.memUpper * 1024)))
    else {}
  }

  ghost function BootReserves(info: BootInfo, kernelStart: Word, kernelEnd: Word): set<nat> {
    Reserves(0, PAGE_SIZE) + Reserves(kernelStart, kernelEnd)
    + Reserves(info.addr, Wrap(info.addr + INFO_SIZE)) + MapTableReserves(info)
  }

  lemma BootReserved(used: set<nat>, info: BootInfo, kernelStart: Word, kernelEnd: Word)
    ensures used + Reserves(0, PAGE_SIZE) + Reserves(kernelStart, kernelEnd)
            + Reserves(info.addr, Wrap(info.addr + INFO_SIZE)) + MapTableReserves(info)
            == used + BootReserves(info, kernelStart, kernelEnd)
  {
  }

  ghost function MapTableReserves(info: BootInfo): set<nat> {
    if info.HasMap() then Reserves(info.mmapAddr, Wrap(info.mmapAddr + info.mmapLength)) else {}
  }

  lemma {:induction false} TablePrefix(entries: seq<MapEntry>, i: nat)
    requires i <= |entries|
    ensures TableSize(entries[..i]) + 4 * (|entries| - i) <= TableSize(entries)
    decreases |entries|
  {
    if i < |entries| {
      var shorter := entries[..|entries| - 1];
      TablePrefix(shorter, i);
      assert shorter[..i] == entries[..i];
    } else {
      assert entries[..i] == entries;
    }
  }

  /** The record at the current table offset is the next entry, and the table does not end inside it. */
  lemma NextEntry(entries: seq<MapEntry>, i: nat)
    requires i <= |entries| && TableSize(entries[..i]) < TableSize(entries)
    ensures i < |entries|
    ensures TableSize(entries[..i + 1]) == TableSize(entries[..i]) + entries[i].size + 4 <= TableSize(entries)
    ensures MapReleases(entries[..i + 1]) == MapReleases(entries[..i]) + EntryReleases(entries[i])
  {
    assert entries[..|entries|] == entries;
    assert entries[..i + 1][..i] == entries[..i];
    TablePrefix(entries, i + 1);
  }

  /** The walk has visited every record when it is past the start of the last one. */
  lemma WholeTable(entries: seq<MapEntry>, i: nat, length: nat)
    requires i <= |entries| && TableSize(entries[..i]) >= length
    requires entries != [] ==> TableSize(entries[..|entries| - 1]) < length
    ensures entries[..i] == entries
  {
    if i < |entries| {
      var shorter := entries[..|entries| - 1];
      assert shorter[..i] == entries[..i];
      TablePrefix(shorter, i);
    }
  }

  lemma {:induction false} MapReleasesMember(entries: seq<MapEntry>, f: nat)
    ensures f in MapReleases(entries) <==> exists e :: e in entries && f in EntryReleases(e)
  {
    if entries != [] {
      var last := |entries| - 1;
      MapReleasesMember(entries[..last], f);
      assert entries == entries[..last] + [entries[last]];
    }
  }

  /** A frame inside available memory as the map describes it, without any rounding. */
  ghost predicate Available(entries: seq<MapEntry>, f: nat) {
    exists e :: e in entries && e.kind == 1 && Inside(f, e.addr, e.addr + e.len)
  }

  /** At frame `f` the arithmetic describes the entry exactly. A start in the last page wraps to zero, and an end past
      4 GiB loses what lies between the end that was computed and the true one. */
  predicate ExactAt(e: MapEntry, f: nat) {
    || e.kind != 1 || e.addr >= TWO32
    || (if e.addr > 0xFFFF_F000 then RegionEnd(e) < (f + 1) * 4096
        else e.addr + e.len < TWO32 || f * 4096 < e.addr || (f + 1) * 4096 <= RegionEnd(e))
  }

  /** Frame by frame, an entry releases what it describes exactly where the arithmetic is exact. */
  lemma EntryExactAt(e: MapEntry, f: nat)
    requires f < MAX_FRAMES && e.addr < TWO64 && e.len < TWO64
    ensures (f in EntryReleases(e) <==> e.kind == 1 && Inside(f, e.addr, e.addr + e.len)) <==> ExactAt(e, f)
  {
  }

  /** An available region is released exactly if and only if it lies above 4 GiB, ends below 4 GiB and does not start in
      the last page, or runs from inside the last page exactly to 4 GiB. */
  lemma EntryExact(e: MapEntry)
    requires e.kind == 1 && e.addr + e.len < TWO64
    ensures (forall f: nat :: f < MAX_FRAMES ==> (f in EntryReleases(e) <==> Inside(f, e.addr, e.addr + e.len))) <==>
            || e.addr >= TWO32
            || (e.addr <= 0xFFFF_F000 && e.addr + e.len < TWO32)
            || (e.addr > 0xFFFF_F000 && e.addr + e.len == TWO32)
  {
    if e.addr < TWO32 {
      EntryExactAt(e, 0);
      EntryExactAt(e, 0xF_FFFF);
      forall f: nat | f < MAX_FRAMES
        ensures (f in EntryReleases(e) <==> Inside(f, e.addr, e.addr + e.len)) <==> ExactAt(e, f)
      {
        EntryExactAt(e, f);
      }
    }
  }

  /** A region that ends exactly at 4 GiB is skipped. */
  lemma EndingAtFourGiB()
    ensures var e := MapEntry(20, 0xC000_0000, 0x4000_0000, 1);
            EntryReleases(e) == {} && Inside(0xC_0000, e.addr, e.addr + e.len)
  {
  }

  /** A region that reaches past 4 GiB loses the last frame. */
  lemma ReachingPastFourGiB()
    ensures var e := MapEntry(20, 0xC000_0000, 0x8000_0000, 1);
            && 0xF_FFFE in EntryReleases(e) && 0xF_FFFF !in EntryReleases(e)
            && Inside(0xF_FFFF, e.addr, e.addr + e.len)
  {
  }

  predicate Described(e: MapEntry, f: nat) {
    e.kind == 1 && Inside(f, e.addr, e.addr + e.len)
  }

  /** Some entry releases the frame: one that describes it exactly, or one whose arithmetic goes astray onto it. */
  ghost predicate Released(entries: seq<MapEntry>, f: nat) {
    exists e :: e in entries && (ExactAt(e, f) <==> Described(e, f))
  }

  lemma MapReleasesReleased(entries: seq<MapEntry>, f: nat)
    requires f < MAX_FRAMES && forall e :: e in entries ==> e.addr < TWO64 && e.len < TWO64
    ensures f in MapReleases(entries) <==> Released(entries, f)
  {
    MapReleasesMember(entries, f);
    forall e | e in entries ensures f in EntryReleases(e) <==> (ExactAt(e, f) <==> Described(e, f)) {
      EntryExactAt(e, f);
    }
  }

  /** At frame `f` the map as a whole is exact: a described frame is released by some entry, and at any other frame
      every entry is exact. */
  ghost predicate MapExactAt(entries: seq<MapEntry>, f: nat) {
    if Available(entries, f) then Released(entries, f) else forall e :: e in entries ==> ExactAt(e, f)
  }

  /** The map frees exactly the frames wholly inside some available region, at exactly the frames where it is exact. */
  lemma MapReleasesExact(entries: seq<MapEntry>, f: nat)
    requires f < MAX_FRAMES && forall e :: e in entries ==> e.addr < TWO64 && e.len < TWO64
    ensures (f in MapReleases(entries) <==> Available(entries, f)) <==> MapExactAt(entries, f)
  {
    MapReleasesReleased(entries, f);
    if !Available(entries, f) {
      forall e | e in entries ensures !Described(e, f) { }
    }
  }

  /** The end of memory as the boot loader reports it without a map. */
  function UpperEnd(memUpper: Word): nat {
    0x10_0000 + memUpper * 1024
  }

  /** The size of the memory above 1 MiB does not lose frame `f` past 4 GiB. */
  predicate UpperExactAt(memUpper: Word, f: nat) {
    UpperEnd(memUpper) < TWO32 || f < 256 || (f + 1) * 4096 <= UpperEnd(memUpper) % TWO32
  }

  /** Without a map, the memory above 1 MiB is released exactly at exactly those frames. */
  lemma UpperMemoryExact(memUpper: Word, f: nat)
    requires f < MAX_FRAMES
    ensures (f in Releases(0x10_0000, Wrap(0x10_0000 + Wrap(memUpper * 1024))) <==>
             Inside(f, 0x10_0000, UpperEnd(memUpper))) <==> UpperExactAt(memUpper, f)
  {
    var x := memUpper * 1024;
    assert (0x10_0000 + x % TWO32) % TWO32 == (0x10_0000 + x) % TWO32;
  }

  /** The memory a frame must stay clear of: frame zero, the kernel, the boot structure and the map. */
  ghost predicate TouchesReserved(info: BootInfo, kernelStart: Word, kernelEnd: Word, f: nat) {
    || f == 0
    || Touches(f, kernelStart, kernelEnd)
    || Touches(f, info.addr, info.addr + INFO_SIZE)
    || (info.HasMap() && Touches(f, info.mmapAddr, info.mmapAddr + info.mmapLength))
  }

  /** A region that touches the frame is not lost to the wrap of its rounded end. */
  predicate KeptAt(f: nat, start: nat, end: nat) {
    Touches(f, start, end) && end <= 0xFFFF_F000
  }

  /** The frame is reserved only by regions that end in the last page. */
  ghost predicate OnlyLost(info: BootInfo, kernelStart: Word, kernelEnd: Word, f: nat) {
    && TouchesReserved(info, kernelStart, kernelEnd, f) && f != 0
    && !KeptAt(f, kernelStart, kernelEnd) && !KeptAt(f, info.addr, info.addr + INFO_SIZE)
    && !(info.HasMap() && KeptAt(f, info.mmapAddr, info.mmapAddr + info.mmapLength))
  }

  /** The boot reservations take a frame exactly when it touches something reserved, unless only regions that end in the
      last page reserve it. */
  lemma BootReservesExact(info: BootInfo, kernelStart: Word, kernelEnd: Word, f: nat)
    requires (info.HasMap() ==> info.WellFormed()) && f < MAX_FRAMES
    ensures (f in BootReserves(info, kernelStart, kernelEnd) <==> TouchesReserved(info, kernelStart, kernelEnd, f))
            <==> !OnlyLost(info, kernelStart, kernelEnd, f)
  {
  }

  /** At frame `f` releases and reservations together are exact. */
  ghost predicate BootExactAt(info: BootInfo, kernelStart: Word, kernelEnd: Word, f: nat) {
    if OnlyLost(info, kernelStart, kernelEnd, f) then !Released(info.entries, f)
    else TouchesReserved(info, kernelStart, kernelEnd, f) || MapExactAt(info.entries, f)
  }

  /** After initialisation a frame is free exactly when it lies wholly inside some available region and touches
      nothing reserved, whatever the order or overlap of the regions, at exactly the frames where both the releases and
      the reservations are exact. */
  lemma FreeAfterBoot(info: BootInfo, kernelStart: Word, kernelEnd: Word, f: nat)
    requires info.HasMap() && info.WellFormed() && f < MAX_FRAMES
    ensures (f !in AllFrames() - BootReleases(info) + BootReserves(info, kernelStart, kernelEnd) <==>
             Available(info.entries, f) && !TouchesReserved(info, kernelStart, kernelEnd, f))
            <==> BootExactAt(info, kernelStart, kernelEnd, f)
  {
    MapReleasesReleased(info.entries, f);
    MapReleasesExact(info.entries, f);
    BootReservesExact(info, kernelStart, kernelEnd, f);
    assert Within(f, 0, MAX_FRAMES);
  }

  /** The same for a boot without a memory map. */
  lemma FreeWithoutMap(info: BootInfo, kernelStart: Word, kernelEnd: Word, f: nat)
    requires !info.HasMap() && info.HasMemory() && f < MAX_FRAMES
    ensures var inside := Inside(f, 0x10_0000, UpperEnd(info.memUpper));
            (f !in AllFrames() - BootReleases(info) + BootReserves(info, kernelStart, kernelEnd) <==>
             inside && !TouchesReserved(info, kernelStart, kernelEnd, f))
            <==> if OnlyLost(info, kernelStart, kernelEnd, f) then UpperExactAt(info.memUpper, f) != inside
                 else TouchesReserved(info, kernelStart, kernelEnd, f) || UpperExactAt(info.memUpper, f)
  {
    UpperMemoryExact(info.memUpper, f);
    BootReservesExact(info, kernelStart, kernelEnd, f);
    assert Within(f, 0, MAX_FRAMES);
  }
}
