/** Page directories as the kernel keeps them, and what changing one entry does to the translations. */
module AddressSpace {
  import opened Bytes
  import opened FrameSets
  import opened Translation

  /** A supervisor 4 MiB page that maps its addresses to themselves. */
  predicate IsKernelPage(e: Entry, i: nat) {
    e == Entry(i * 1024, true, true, false, true)
  }

  predicate IsTable(e: Entry) {
    e.present && !e.large
  }

  /** No page of the table is open to user mode unless the directory entry is. */
  ghost predicate UserAgrees(v: View, e: Entry) {
    forall j :: 0 <= j < 1024 && v(e.frame, j).present && v(e.frame, j).user ==> e.user
  }

  /** Directory entry `i` is a kernel identity page, absent, or a writable table in a used frame. */
  ghost predicate EntryOk(v: View, d: nat, i: nat, used: set<nat>) {
    var e := v(d, i);
    || IsKernelPage(e, i)
    || (!e.present && !e.large)
    || (IsTable(e) && e.write && e.frame < MAX_FRAMES && e.frame in used && e.frame != d && UserAgrees(v, e))
  }

  ghost predicate TablesApart(v: View, d: nat, i: nat, k: nat) {
    i != k && IsTable(v(d, i)) && IsTable(v(d, k)) ==> v(d, i).frame != v(d, k).frame
  }

  /** The invariant of every directory the kernel builds. */
  ghost predicate Directory(v: View, d: nat, used: set<nat>) {
    && d < MAX_FRAMES && d in used
    && (forall i :: 0 <= i < 1024 ==> EntryOk(v, d, i, used))
    && forall i, k :: 0 <= i < 1024 && 0 <= k < 1024 ==> TablesApart(v, d, i, k)
  }

  ghost predicate SameTranslation(v: View, v': View, d: nat, i: nat, j: nat) {
    forall o :: 0 <= o < 4096 ==> Translate(v', d, i, j, o) == Translate(v, d, i, j, o)
  }

  ghost predicate SameTranslations(v: View, v': View, d: nat) {
    forall i :: 0 <= i < 1024 ==> SameRow(v, v', d, i)
  }

  ghost predicate SameRow(v: View, v': View, d: nat, i: nat) {
    forall j :: 0 <= j < 1024 ==> SameTranslation(v, v', d, i, j)
  }

  /** Directory entry `i` changed; the other entries and every other used frame did not. */
  ghost predicate EntryChanged(v: View, v': View, d: nat, i: nat, used: set<nat>) {
    && (forall k :: 0 <= k < 1024 && k != i ==> v'(d, k) == v(d, k))
    && forall f :: f in used && f != d ==> SameEntries(v, v', f)
  }

  lemma OtherEntryKept(v: View, v': View, d: nat, i: nat, k: nat, used: set<nat>, more: set<nat>)
    requires d < MAX_FRAMES && i < 1024 && k < 1024 && k != i && used <= more
    requires EntryOk(v, d, k, used) && EntryChanged(v, v', d, i, used)
    ensures EntryOk(v', d, k, more)
    ensures SameRow(v, v', d, k)
  {
  }

  /** What a page table entry makes of an address in its page. */
  function Target(e: Entry, o: nat): Mapping {
    if e.present then Mapped(e.frame * 4096 + o, e.user, e.write) else Fault
  }

  /** The table in frame `t` does for kernel mode what directory entry `i` did before. */
  ghost predicate Repeats(v: View, d: nat, i: nat, v1: View, t: nat) {
    forall j :: 0 <= j < 1024 ==> RepeatsAt(v, d, i, v1(t, j), j)
  }

  ghost predicate RepeatsAt(v: View, d: nat, i: nat, e: Entry, j: nat) {
    !e.user && forall o :: 0 <= o < 4096 ==> Translate(v, d, i, j, o) == Target(e, o)
  }

  /** A table of the 1024 pages of a 4 MiB kernel page repeats it. */
  lemma SplitRepeats(v: View, d: nat, i: nat, v1: View, t: nat)
    requires IsKernelPage(v(d, i), i)
    requires forall j :: 0 <= j < 1024 ==> v1(t, j) == Entry(i * 1024 + j, true, true, false, false)
    ensures Repeats(v, d, i, v1, t)
  {
  }

  /** A table linked behind entry `i` that repeats it changes no translation. */
  lemma LinkedSameRow(v: View, v': View, d: nat, i: nat, t: nat, user: bool)
    requires v'(d, i) == Entry(t, true, true, user, false) && Repeats(v, d, i, v', t)
    ensures SameRow(v, v', d, i)
  {
  }

  lemma NewTableApart(v: View, v': View, d: nat, i: nat, t: nat, used: set<nat>)
    requires Directory(v, d, used) && i < 1024 && EntryChanged(v, v', d, i, used)
    requires v'(d, i).frame == t && t !in used
    ensures forall a, b :: 0 <= a < 1024 && 0 <= b < 1024 ==> TablesApart(v', d, a, b)
  {
    forall a, b | 0 <= a < 1024 && 0 <= b < 1024 ensures TablesApart(v', d, a, b) {
      assert TablesApart(v, d, a, b) && EntryOk(v, d, a, used) && EntryOk(v, d, b, used);
    }
  }

  /** Putting a fresh table behind entry `i` keeps the directory and, if the table repeats what the entry did,
      every translation. */
  lemma NewTable(v: View, v': View, d: nat, i: nat, t: nat, user: bool, used: set<nat>)
    requires Directory(v, d, used) && i < 1024 && EntryChanged(v, v', d, i, used)
    requires t < MAX_FRAMES && t !in used && v'(d, i) == Entry(t, true, true, user, false)
    requires Repeats(v, d, i, v', t)
    ensures Directory(v', d, used + {t}) && SameTranslations(v, v', d)
  {
    NewTableApart(v, v', d, i, t, used);
    LinkedSameRow(v, v', d, i, t, user);
    assert UserAgrees(v', v'(d, i)) by {
      forall j | 0 <= j < 1024 ensures !v'(t, j).user { assert RepeatsAt(v, d, i, v'(t, j), j); }
    }
    forall k | 0 <= k < 1024
      ensures EntryOk(v', d, k, used + {t}) && SameRow(v, v', d, k)
    {
      if k != i {
        assert EntryOk(v, d, k, used);
        OtherEntryKept(v, v', d, i, k, used, used + {t});
      }
    }
  }

  /** Opening a directory entry to user mode changes no translation, because no page behind it is open yet. */
  lemma OpenedToUser(v: View, v': View, d: nat, i: nat, used: set<nat>)
    requires Directory(v, d, used) && i < 1024 && EntryChanged(v, v', d, i, used) && IsTable(v(d, i))
    requires !v(d, i).user && v'(d, i) == v(d, i).(user := true)
    ensures Directory(v', d, used) && SameTranslations(v, v', d)
  {
    var t := v(d, i).frame;
    assert EntryOk(v, d, i, used);
    forall j | 0 <= j < 1024 ensures v'(t, j) == v(t, j) && SameTranslation(v, v', d, i, j) {
      assert SameEntries(v, v', t);
    }
    forall k | 0 <= k < 1024
      ensures EntryOk(v', d, k, used) && SameRow(v, v', d, k)
    {
      if k != i {
        assert EntryOk(v, d, k, used);
        OtherEntryKept(v, v', d, i, k, used, used);
      }
    }
    forall a, b | 0 <= a < 1024 && 0 <= b < 1024 ensures TablesApart(v', d, a, b) {
      assert TablesApart(v, d, a, b);
    }
  }

  /** The page at `i`, `j` is mapped by `e`; every other page translates as before. */
  ghost predicate Remapped(v: View, v': View, d: nat, i: nat, j: nat, e: Entry) {
    && (forall o :: 0 <= o < 4096 ==> Translate(v', d, i, j, o) == Target(e, o))
    && (forall j' :: 0 <= j' < 1024 && j' != j ==> SameTranslation(v, v', d, i, j'))
    && forall i' :: 0 <= i' < 1024 && i' != i ==> SameRow(v, v', d, i')
  }

  /** Table entry `j` of the table in frame `t` became `e`; no other entry and no other frame changed. */
  ghost predicate PageChanged(v: View, v': View, t: nat, j: nat, e: Entry) {
    && v'(t, j) == e
    && (forall k :: 0 <= k < 1024 && k != j ==> v'(t, k) == v(t, k))
    && forall f: nat :: f != t ==> SameEntries(v, v', f)
  }

  lemma OtherTableKept(v: View, v': View, d: nat, i: nat, j: nat, e: Entry, used: set<nat>, k: nat)
    requires Directory(v, d, used) && i < 1024 && j < 1024 && k < 1024 && k != i && IsTable(v(d, i))
    requires PageChanged(v, v', v(d, i).frame, j, e)
    ensures EntryOk(v', d, k, used) && SameRow(v, v', d, k)
  {
    assert EntryOk(v, d, i, used) && EntryOk(v, d, k, used) && TablesApart(v, d, i, k);
    assert SameEntries(v, v', d);
    var other := v(d, k);
    if IsTable(other) {
      forall j' | 0 <= j' < 1024 ensures v'(other.frame, j') == v(other.frame, j') {
        assert SameEntries(v, v', other.frame);
      }
    }
  }

  /** Writing one page table entry remaps exactly its page. */
  lemma PageMapped(v: View, v': View, d: nat, i: nat, j: nat, e: Entry, used: set<nat>)
    requires Directory(v, d, used) && i < 1024 && j < 1024 && IsTable(v(d, i))
    requires PageChanged(v, v', v(d, i).frame, j, e) && (e.present && e.user ==> v(d, i).user)
    ensures Directory(v', d, used) && Remapped(v, v', d, i, j, e)
  {
    var pde := v(d, i);
    assert EntryOk(v, d, i, used);
    forall k | 0 <= k < 1024 ensures v'(d, k) == v(d, k) { assert SameEntries(v, v', d); }
    assert EntryOk(v', d, i, used);
    forall k | 0 <= k < 1024 && k != i
      ensures EntryOk(v', d, k, used) && SameRow(v, v', d, k)
    {
      OtherTableKept(v, v', d, i, j, e, used, k);
    }
    forall a, b | 0 <= a < 1024 && 0 <= b < 1024 ensures TablesApart(v', d, a, b) {
      assert TablesApart(v, d, a, b);
    }
  }

  /** Frame `f` holds a page table of directory `d`. */
  ghost predicate Owns(v: View, d: nat, f: nat) {
    exists i :: 0 <= i < 1024 && IsTable(v(d, i)) && v(d, i).frame == f
  }

  /** Frame `f` is the directory `d` or one of its page tables. */
  ghost predicate PartOf(v: View, d: nat, f: nat) {
    f == d || Owns(v, d, f)
  }

  /** A directory none of whose own frames changed translates as before. */
  lemma Untouched(v: View, v': View, d: nat, used: set<nat>)
    requires Directory(v, d, used) && forall f :: PartOf(v, d, f) ==> SameEntries(v, v', f)
    ensures Directory(v', d, used) && SameTranslations(v, v', d)
  {
    assert PartOf(v, d, d);
    forall i | 0 <= i < 1024 ensures EntryOk(v', d, i, used) && SameRow(v, v', d, i) {
      assert EntryOk(v, d, i, used);
      if IsTable(v(d, i)) { assert PartOf(v, d, v(d, i).frame); }
    }
    forall a, b | 0 <= a < 1024 && 0 <= b < 1024 ensures TablesApart(v', d, a, b) {
      assert TablesApart(v, d, a, b);
    }
  }

  /** The frames of a directory are used ones. */
  lemma PartUsed(v: View, d: nat, used: set<nat>)
    requires Directory(v, d, used)
    ensures forall f :: PartOf(v, d, f) ==> f in used
  {
    forall f | PartOf(v, d, f) ensures f in used {
      if f != d {
        var i :| 0 <= i < 1024 && IsTable(v(d, i)) && v(d, i).frame == f;
        assert EntryOk(v, d, i, used);
      }
    }
  }

  /** The mapping of page `p`, the page of addresses `p * 4096` to `p * 4096 + 4095`. */
  function PageAt(v: View, d: nat, p: nat): Mapping {
    Translate(v, d, p / 1024, p % 1024, 0)
  }

  function Shifted(t: Mapping, o: nat): Mapping {
    if t.Fault? then Fault else Mapped(t.phys + o, t.user, t.write)
  }

  /** An address translates as its page does, offset by its offset. */
  lemma OffsetPassesThrough(v: View, d: nat, i: nat, j: nat, o: nat)
    requires i < 1024 && j < 1024 && o < 4096
    ensures Translate(v, d, i, j, o) == Shifted(PageAt(v, d, i * 1024 + j), o)
  {
  }

  ghost predicate SamePage(v: View, v': View, d: nat, p: nat) {
    PageAt(v', d, p) == PageAt(v, d, p)
  }

  /** Page `p` became `t` and every other page is mapped as before. */
  ghost predicate PageRemapped(v: View, v': View, d: nat, p: nat, t: Mapping) {
    PageAt(v', d, p) == t && forall q: nat :: q < MAX_FRAMES && q != p ==> SamePage(v, v', d, q)
  }

  lemma RemappedByPage(v: View, v': View, d: nat, p: nat, e: Entry)
    requires p < MAX_FRAMES && Remapped(v, v', d, p / 1024, p % 1024, e)
    ensures PageRemapped(v, v', d, p, Target(e, 0))
  {
    forall q: nat | q < MAX_FRAMES && q != p ensures SamePage(v, v', d, q) {
      if q / 1024 == p / 1024 {
        assert SameTranslation(v, v', d, q / 1024, q % 1024);
      } else {
        assert SameRow(v, v', d, q / 1024);
        assert SameTranslation(v, v', d, q / 1024, q % 1024);
      }
    }
  }

  lemma DirectoryGrows(v: View, d: nat, used: set<nat>, more: set<nat>)
    requires Directory(v, d, used) && used <= more
    ensures Directory(v, d, more)
  {
    forall i | 0 <= i < 1024 ensures EntryOk(v, d, i, more) { assert EntryOk(v, d, i, used); }
  }

  lemma SamePages(v: View, v': View, d: nat)
    requires SameTranslations(v, v', d)
    ensures forall p: nat :: p < MAX_FRAMES ==> SamePage(v, v', d, p)
  {
    forall p: nat | p < MAX_FRAMES ensures SamePage(v, v', d, p) {
      assert SameRow(v, v', d, p / 1024);
      assert SameTranslation(v, v', d, p / 1024, p % 1024);
    }
  }
}
