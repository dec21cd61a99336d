/** Physical memory and the two-level address translation the processor performs on it (sections 4.3 and 4.6 of
    volume 3A of the Intel Software Developer's Manual: 4 KiB and 4 MiB pages, rights of both levels combined). */
module Translation {
  import opened Bytes
  import opened FrameSets

  type Memory = m: seq<Byte> | |m| == TWO32 ghost witness Zeros(TWO32)

  /** A page directory or page table entry: frame number and the flags the kernel uses. */
  datatype Entry = Entry(frame: nat, present: bool, write: bool, user: bool, large: bool)

  function Decode(w: Word): Entry {
    Entry(w / 4096, w % 2 == 1, w / 2 % 2 == 1, w / 4 % 2 == 1, w / 128 % 2 == 1)
  }

  datatype Mapping = Fault | Mapped(phys: nat, user: bool, write: bool)

  /** The entries the processor sees: entry `k` of the directory or table in frame `f`. */
  type View = (nat, nat) -> Entry

  /** The translation of the virtual address with directory index `i`, table index `j` and offset `o`, under the
      directory in frame `d`. */
  function Translate(v: View, d: nat, i: nat, j: nat, o: nat): Mapping {
    var pde := v(d, i);
    if !pde.present then Fault
    else if pde.large then Mapped(pde.frame / 1024 * 0x40_0000 + j * 4096 + o, pde.user, pde.write)
    else
      var pte := v(pde.frame, j);
      if !pte.present then Fault
      else Mapped(pte.frame * 4096 + o, pde.user && pte.user, pde.write && pte.write)
  }

  /** The address whose translation `Translate` describes. */
  function VirtualAddress(i: nat, j: nat, o: nat): nat {
    i * 0x40_0000 + j * 4096 + o
  }

  /** Entry `k` of the directory or table in frame `f`, as stored in memory. */
  function Slot(m: Memory, f: nat, k: nat): Entry
    requires f < MAX_FRAMES && k < 1024
  {
    Decode(WordAt(m, f * 4096 + k * 4))
  }

  predicate InTable(f: nat, k: nat) {
    f < MAX_FRAMES && k < 1024
  }

  /** The view is what memory holds. */
  ghost predicate Reflects(m: Memory, v: View) {
    forall f: nat, k: nat {:trigger InTable(f, k)} :: InTable(f, k) ==> v(f, k) == Slot(m, f, k)
  }

  /** Frame `f` has the same contents in both memories. */
  ghost predicate SameFrame(m: Memory, m': Memory, f: nat) {
    f < MAX_FRAMES ==> forall a :: f * 4096 <= a < f * 4096 + 4096 ==> m'[a] == m[a]
  }

  lemma SameSlot(m: Memory, m': Memory, f: nat, k: nat)
    requires SameFrame(m, m', f) && f < MAX_FRAMES && k < 1024
    ensures Slot(m', f, k) == Slot(m, f, k)
  {
  }

  lemma EvenPlus(x: nat, y: nat)
    ensures (2 * x + y) % 2 == y % 2
  {
  }

  lemma Quotients(f: nat, flags: nat)
    requires flags < 4096
    ensures (f * 4096 + flags) / 2 == 2 * (f * 1024) + flags / 2
    ensures (f * 4096 + flags) / 4 == 2 * (f * 512) + flags / 4
    ensures (f * 4096 + flags) / 128 == 2 * (f * 16) + flags / 128
    ensures (f * 4096 + flags) / 4096 == f
  {
  }

  /** A word built from a frame address and flags decodes to them. */
  lemma DecodeParts(f: nat, flags: nat)
    requires f < MAX_FRAMES && flags < 4096
    ensures Decode(f * 4096 + flags) ==
            Entry(f, flags % 2 == 1, flags / 2 % 2 == 1, flags / 4 % 2 == 1, flags / 128 % 2 == 1)
  {
    Quotients(f, flags);
    EvenPlus(f * 2048, flags);
    EvenPlus(f * 1024, flags / 2);
    EvenPlus(f * 512, flags / 4);
    EvenPlus(f * 16, flags / 128);
  }

  function SetWord(m: Memory, a: nat, w: Word): Memory
    requires a + 4 <= TWO32
  {
    var b := WordBytes(w);
    m[a := b[0]][a + 1 := b[1]][a + 2 := b[2]][a + 3 := b[3]]
  }

  lemma SetWordReads(m: Memory, a: nat, w: Word)
    requires a + 4 <= TWO32
    ensures WordAt(SetWord(m, a, w), a) == w
  {
    BytesOfWord(w);
  }

  lemma SetWordKeeps(m: Memory, a: nat, w: Word, b: nat)
    requires a + 4 <= TWO32 && b + 4 <= TWO32 && (b + 4 <= a || a + 4 <= b)
    ensures WordAt(SetWord(m, a, w), b) == WordAt(m, b)
  {
  }

  /** Storing entry `k` of the table in frame `f` changes that entry and nothing else. */
  lemma SetSlot(m: Memory, f: nat, k: nat, w: Word, m': Memory)
    requires f < MAX_FRAMES && k < 1024 && m' == SetWord(m, f * 4096 + k * 4, w)
    ensures Slot(m', f, k) == Decode(w)
    ensures forall k' :: 0 <= k' < 1024 && k' != k ==> Slot(m', f, k') == Slot(m, f, k')
    ensures forall g: nat :: g != f ==> SameFrame(m, m', g)
  {
    SetWordReads(m, f * 4096 + k * 4, w);
    forall k' | 0 <= k' < 1024 && k' != k ensures Slot(m', f, k') == Slot(m, f, k') {
      SetWordKeeps(m, f * 4096 + k * 4, w, f * 4096 + k' * 4);
    }
    forall g: nat | g != f && g < MAX_FRAMES ensures SameFrame(m, m', g) {
      assert g * 4096 + 4096 <= f * 4096 || f * 4096 + 4096 <= g * 4096;
    }
  }

  ghost function ViewOf(m: Memory): View {
    (f: nat, k: nat) => if InTable(f, k) then Slot(m, f, k) else Entry(0, false, false, false, false)
  }

  /** Frame `f` holds the same entries in both views. */
  ghost predicate SameEntries(v: View, v': View, f: nat) {
    forall k :: 0 <= k < 1024 ==> v'(f, k) == v(f, k)
  }

  lemma SameFrameEntries(m: Memory, v: View, m': Memory, v': View, f: nat)
    requires Reflects(m, v) && Reflects(m', v') && f < MAX_FRAMES && SameFrame(m, m', f)
    ensures SameEntries(v, v', f)
  {
    forall k | 0 <= k < 1024 ensures v'(f, k) == v(f, k) {
      assert InTable(f, k);
      SameSlot(m, m', f, k);
    }
  }
}
