/** The file system image: the layout the build tool writes and the kernel reads. */
module SofsImage {
  import opened Bytes

  const MAGIC: nat := 0x534F_4653
  const NAME_SIZE: nat := 64
  const ENTRY_SIZE: nat := 72
  const HEADER_SIZE: nat := 8

  datatype File = File(name: seq<Byte>, data: seq<Byte>)

  /** Rounds up to a multiple of four. */
  function Align4(n: nat): (r: nat)
    ensures n <= r < n + 4
  {
    (n + 3) / 4 * 4
  }

  function DataStart(files: seq<File>): nat {
    HEADER_SIZE + ENTRY_SIZE * |files|
  }

  /** Where the contents of file `k` start: after the padded contents of the files before it. */
  function Offset(files: seq<File>, k: nat): (r: nat)
    requires k <= |files|
    ensures r >= DataStart(files)
  {
    if k == 0 then DataStart(files) else Offset(files, k - 1) + Align4(|files[k - 1].data|)
  }

  /** The name as stored: cut to 63 bytes. */
  function Stored(name: seq<Byte>): (r: seq<Byte>)
    ensures |r| < NAME_SIZE
  {
    if |name| < NAME_SIZE then name else name[..NAME_SIZE - 1]
  }

  function NameField(name: seq<Byte>): (r: seq<Byte>)
    ensures |r| == NAME_SIZE
  {
    Stored(name) + Zeros(NAME_SIZE - |Stored(name)|)
  }

  predicate FieldsFit(files: seq<File>, k: nat)
    requires k < |files|
  {
    Offset(files, k) < TWO32 && |files[k].data| < TWO32
  }

  /** Every offset and size fits its 32-bit field. */
  ghost predicate Encodable(files: seq<File>) {
    |files| < TWO32 && forall k :: 0 <= k < |files| ==> FieldsFit(files, k)
  }

  function EntryAt(i: nat): nat {
    HEADER_SIZE + ENTRY_SIZE * i
  }

  /** Entry `i` holds the name, offset and size of file `i`. */
  ghost predicate EntryHolds(m: seq<Byte>, files: seq<File>, i: nat)
    requires i < |files|
  {
    && EntryAt(i) + ENTRY_SIZE <= |m|
    && Holds(m, EntryAt(i), NameField(files[i].name))
    && WordAt(m, EntryAt(i) + NAME_SIZE) == Offset(files, i)
    && WordAt(m, EntryAt(i) + NAME_SIZE + 4) == |files[i].data|
  }

  /** The contents of file `i` sit at its offset. */
  ghost predicate DataHolds(m: seq<Byte>, files: seq<File>, i: nat)
    requires i < |files|
  {
    Holds(m, Offset(files, i), files[i].data)
  }

  ghost predicate HeaderHolds(m: seq<Byte>, n: nat) {
    |m| >= HEADER_SIZE && WordAt(m, 0) == MAGIC && WordAt(m, 4) == n
  }

  /** `m` is an image of `files`. */
  ghost predicate Layout(m: seq<Byte>, files: seq<File>) {
    && |m| == Offset(files, |files|) && HeaderHolds(m, |files|)
    && (forall i :: 0 <= i < |files| ==> EntryHolds(m, files, i))
    && forall i :: 0 <= i < |files| ==> DataHolds(m, files, i)
  }

  lemma {:induction false} OffsetAligned(files: seq<File>, k: nat) returns (q: nat)
    requires k <= |files|
    ensures Offset(files, k) == 4 * q
  {
    if k == 0 {
      q := 2 + 18 * |files|;
    } else {
      q := OffsetAligned(files, k - 1);
      q := q + (|files[k - 1].data| + 3) / 4;
    }
  }

  /** Rounding up the running offset and padding each file separately give the same next offset. */
  lemma SamePadding(files: seq<File>, k: nat)
    requires k < |files|
    ensures Align4(Offset(files, k) + |files[k].data|) == Offset(files, k + 1)
  {
    var q := OffsetAligned(files, k);
    var n := |files[k].data|;
    assert (4 * q + n + 3) / 4 == q + (n + 3) / 4;
  }

  lemma {:induction false} OffsetsGrow(files: seq<File>, i: nat, j: nat)
    requires i < j <= |files|
    ensures Offset(files, i + 1) <= Offset(files, j)
  {
    if i < j - 1 { OffsetsGrow(files, i, j - 1); }
  }

  /** The contents of every file start at a multiple of four, behind the table. */
  lemma ExtentAligned(files: seq<File>, i: nat)
    requires i < |files|
    ensures Offset(files, i) % 4 == 0 && DataStart(files) <= Offset(files, i)
  {
  }

  /** The extents do not overlap, and the last ends inside the image. */
  lemma ExtentBefore(files: seq<File>, i: nat, j: nat)
    requires i < j <= |files|
    ensures Offset(files, i) + |files[i].data| <= Offset(files, j)
  {
    OffsetsGrow(files, i, j);
  }

  lemma WordKept(m: seq<Byte>, suffix: seq<Byte>, at: nat)
    requires at + 4 <= |m|
    ensures WordAt(m + suffix, at) == WordAt(m, at)
  {
  }

  /** Appending to the image leaves earlier entries and contents in place. */
  lemma EntryKept(m: seq<Byte>, suffix: seq<Byte>, files: seq<File>, i: nat)
    requires i < |files| && EntryHolds(m, files, i)
    ensures EntryHolds(m + suffix, files, i)
  {
  }

  lemma DataKept(m: seq<Byte>, suffix: seq<Byte>, files: seq<File>, i: nat)
    requires i < |files| && DataHolds(m, files, i)
    ensures DataHolds(m + suffix, files, i)
  {
  }

  lemma WordAppended(m: seq<Byte>, w: nat, suffix: seq<Byte>)
    requires w < TWO32
    ensures WordAt(m + WordBytes(w) + suffix, |m|) == w
  {
    var all := m + WordBytes(w) + suffix;
    assert all[|m|..|m| + 4] == WordBytes(w);
    WordRoundTrip(w, all, |m|);
  }

  /** Writing the name and the two words of entry `k` at the end of the table. */
  lemma EntryAppended(m: seq<Byte>, files: seq<File>, k: nat)
    requires k < |files| && FieldsFit(files, k) && |m| == EntryAt(k)
    ensures EntryHolds(m + NameField(files[k].name) + WordBytes(Offset(files, k)) + WordBytes(|files[k].data|),
                       files, k)
  {
    var name, w1, w2 := NameField(files[k].name), WordBytes(Offset(files, k)), WordBytes(|files[k].data|);
    WordAppended(m + name, Offset(files, k), w2);
    WordAppended(m + name + w1, |files[k].data|, []);
    assert m + name + w1 + w2 + [] == m + name + w1 + w2;
    assert Holds(m + name, |m|, name);
    BeforeSuffix(m + name, w1, |m|, name);
    BeforeSuffix(m + name + w1, w2, |m|, name);
  }
}
