/** The build tool that writes a file system image and the kernel driver that reads it. */
module SofsBuilder {
  import opened Bits
  import opened Bytes
  import opened SofsImage

  datatype Option<+T> = None | Some(value: T)

  /** Rounds up to a multiple of four by masking. */
  method AlignUp4(n: nat) returns (r: nat)
    ensures r == Align4(n)
  {
    RoundedDownToFour(n + 3);
    r := AndNot(n + 3, 3);
  }

  /** The offset recorded for each file, advanced by rounding up the running total. */
  method PlanOffsets(files: seq<File>) returns (offsets: seq<nat>)
    ensures |offsets| == |files|
    ensures forall k {:trigger offsets[k]} :: 0 <= k < |files| ==> offsets[k] == Offset(files, k)
  {
    offsets := [];
    var current := DataStart(files);
    for k := 0 to |files|
      invariant |offsets| == k && current == Offset(files, k)
      invariant forall i {:trigger offsets[i]} :: 0 <= i < k ==> offsets[i] == Offset(files, i)
    {
      SamePadding(files, k);
      offsets := offsets + [current];
      current := AlignUp4(current + |files[k].data|);
    }
  }

  method WriteTable(files: seq<File>, offsets: seq<nat>) returns (r: Option<seq<Byte>>)
    requires |offsets| == |files| < TWO32
    requires forall k {:trigger offsets[k]} :: 0 <= k < |files| ==> offsets[k] == Offset(files, k)
    ensures r.Some? <==> Encodable(files)
    ensures r.Some? ==> |r.value| == DataStart(files) && HeaderHolds(r.value, |files|)
    ensures r.Some? ==> forall i :: 0 <= i < |files| ==> EntryHolds(r.value, files, i)
  {
    var out := WordBytes(MAGIC) + WordBytes(|files|);
    HeaderWritten(|files|);
    for k := 0 to |files|
      invariant |out| == EntryAt(k) && HeaderHolds(out, |files|)
      invariant forall i :: 0 <= i < k ==> FieldsFit(files, i)
      invariant forall i :: 0 <= i < k ==> EntryHolds(out, files, i)
    {
      if offsets[k] >= TWO32 || |files[k].data| >= TWO32 {
        assert !FieldsFit(files, k);
        return None;
      }
      out := AppendEntry(files, k, offsets[k], out);
    }
    return Some(out);
  }

  lemma HeaderWritten(n: nat)
    requires n < TWO32
    ensures HeaderHolds(WordBytes(MAGIC) + WordBytes(n), n)
  {
    WordAppended([], MAGIC, WordBytes(n));
    assert [] + WordBytes(MAGIC) + WordBytes(n) == WordBytes(MAGIC) + WordBytes(n);
    WordAppended(WordBytes(MAGIC), n, []);
    assert WordBytes(MAGIC) + WordBytes(n) + [] == WordBytes(MAGIC) + WordBytes(n);
  }

  method AppendEntry(files: seq<File>, k: nat, offset: nat, out: seq<Byte>) returns (r: seq<Byte>)
    requires k < |files| && FieldsFit(files, k) && |out| == EntryAt(k) && HeaderHolds(out, |files|)
    requires offset == Offset(files, k)
    requires forall i :: 0 <= i < k ==> EntryHolds(out, files, i)
    ensures |r| == EntryAt(k + 1) && HeaderHolds(r, |files|)
    ensures forall i :: 0 <= i <= k ==> EntryHolds(r, files, i)
  {
    var suffix := NameField(files[k].name) + WordBytes(offset) + WordBytes(|files[k].data|);
    r := out + suffix;
    EntryAppended(out, files, k);
    assert r == out + NameField(files[k].name) + WordBytes(Offset(files, k)) + WordBytes(|files[k].data|);
    WordKept(out, suffix, 0);
    WordKept(out, suffix, 4);
    forall i | 0 <= i < k ensures EntryHolds(r, files, i) { EntryKept(out, suffix, files, i); }
  }

  /** Writes the contents of file `k` and pads them to a multiple of four. */
  method AppendData(files: seq<File>, k: nat, out: seq<Byte>) returns (r: seq<Byte>)
    requires k < |files| && |out| == Offset(files, k) && HeaderHolds(out, |files|)
    requires forall i :: 0 <= i < |files| ==> EntryHolds(out, files, i)
    requires forall i :: 0 <= i < k ==> DataHolds(out, files, i)
    ensures |r| == Offset(files, k + 1) && HeaderHolds(r, |files|)
    ensures forall i :: 0 <= i < |files| ==> EntryHolds(r, files, i)
    ensures forall i :: 0 <= i <= k ==> DataHolds(r, files, i)
  {
    var data := files[k].data;
    var padded := AlignUp4(|data|);
    var suffix := data + Zeros(padded - |data|);
    r := out + suffix;
    assert DataHolds(r, files, k);
    WordKept(out, suffix, 0);
    WordKept(out, suffix, 4);
    forall i | 0 <= i < |files| ensures EntryHolds(r, files, i) { EntryKept(out, suffix, files, i); }
    forall i | 0 <= i < k ensures DataHolds(r, files, i) { DataKept(out, suffix, files, i); }
  }

  /** Builds the image of a list of files. It fails exactly when there is no file or a field overflows. */
  method BuildFs(files: seq<File>) returns (r: Option<seq<Byte>>)
    ensures r.Some? <==> files != [] && Encodable(files)
    ensures r.Some? ==> Layout(r.value, files)
  {
    if files == [] || |files| >= TWO32 { return None; }
    var offsets := PlanOffsets(files);
    r := WriteTable(files, offsets);
    if r.None? { return; }
    var out := r.value;
    for k := 0 to |files|
      invariant |out| == Offset(files, k) && HeaderHolds(out, |files|)
      invariant forall i :: 0 <= i < |files| ==> EntryHolds(out, files, i)
      invariant forall i :: 0 <= i < k ==> DataHolds(out, files, i)
    {
      out := AppendData(files, k, out);
    }
    r := Some(out);
  }
}

module SofsDriver {
  import opened Bytes
  import opened SofsImage

  /** The character of a C string at position `i`: NUL behind its end. */
  function CharAt(s: seq<Byte>, i: nat): Byte {
    if i < |s| then s[i] else 0
  }

  /** Compares the C string at `a` with `name`; zero means equal. `stored` is the string found in memory. */
  method StrCmp(m: seq<Byte>, a: nat, name: seq<Byte>, ghost stored: seq<Byte>) returns (d: int)
    requires StringAt(m, a, stored) && NoNul(name)
    ensures d == 0 <==> stored == name
  {
    var i := 0;
    while m[a + i] != 0 && m[a + i] == CharAt(name, i)
      invariant i <= |stored| && i <= |name| && forall k :: 0 <= k < i ==> stored[k] == name[k]
      decreases |stored| - i
    {
      i := i + 1;
    }
    d := m[a + i] as int - CharAt(name, i) as int;
    assert m[a + i] == CharAt(stored, i);
    assert d == 0 ==> |stored| == i == |name|;
  }

  /** The result of a lookup: the first entry whose name is `name`, or a negative number. */
  ghost predicate FirstNamed(names: seq<seq<Byte>>, name: seq<Byte>, r: int) {
    if r < 0 then forall i :: 0 <= i < |names| ==> names[i] != name
    else r < |names| && names[r] == name && forall i :: 0 <= i < r ==> names[i] != name
  }

  /** Memory holds a directory with these names from `entries` on. */
  ghost predicate NamesAt(m: seq<Byte>, entries: nat, names: seq<seq<Byte>>) {
    forall i :: 0 <= i < |names| ==> StringAt(m, entries + ENTRY_SIZE * i, names[i])
  }

  class FsInstance {
    var base: nat
    var header: nat
    var entries: nat

    constructor ()
    {
      base, header, entries := 0, 0, 0;
    }

    /** Accepts the image at `baseAddr` if its magic number is right. */
    method Init(m: seq<Byte>, baseAddr: nat) returns (r: int)
      requires 0 < baseAddr && baseAddr + HEADER_SIZE <= |m|
      modifies this
      ensures r == 0 <==> WordAt(m, baseAddr) == MAGIC
      ensures r == 0 ==> base == header == baseAddr && entries == baseAddr + HEADER_SIZE
      ensures r != 0 ==> r == -1 && header == 0 && entries == 0
    {
      base, header := baseAddr, baseAddr;
      if WordAt(m, header) != MAGIC {
        header, entries := 0, 0;
        return -1;
      }
      entries := baseAddr + HEADER_SIZE;
      return 0;
    }

    /** Looks a name up by comparing it with each entry in turn. */
    method Find(m: seq<Byte>, name: seq<Byte>, ghost names: seq<seq<Byte>>) returns (r: int)
      requires NoNul(name)
      requires header != 0 ==> header + HEADER_SIZE <= |m| && WordAt(m, header + 4) == |names|
      requires header != 0 ==> NamesAt(m, entries, names)
      ensures header == 0 ==> r == -1
      ensures header != 0 ==> FirstNamed(names, name, r)
    {
      if header == 0 { return -1; }
      var i := 0;
      while i < WordAt(m, header + 4)
        invariant i <= |names| && forall k :: 0 <= k < i ==> names[k] != name
      {
        var d := StrCmp(m, entries + ENTRY_SIZE * i, name, names[i]);
        if d == 0 { return i; }
        i := i + 1;
      }
      return -1;
    }

    /** The address of a file's contents; the sum wraps at 32 bits. */
    function FileData(m: seq<Byte>, i: nat): nat
      requires entries + ENTRY_SIZE * (i + 1) <= |m|
      reads this
    {
      Wrap(base + WordAt(m, entries + ENTRY_SIZE * i + NAME_SIZE))
    }

    function FileSize(m: seq<Byte>, i: nat): nat
      requires entries + ENTRY_SIZE * (i + 1) <= |m|
      reads this
    {
      WordAt(m, entries + ENTRY_SIZE * i + NAME_SIZE + 4)
    }
  }

  function StoredNames(files: seq<File>): seq<seq<Byte>> {
    seq(|files|, i requires 0 <= i < |files| => Stored(files[i].name))
  }

  /** Every name is free of NUL bytes, so that its end can be found. */
  ghost predicate NamesPlain(files: seq<File>) {
    forall i :: 0 <= i < |files| ==> NoNul(files[i].name)
  }

  lemma HeldWord(m: seq<Byte>, base: nat, image: seq<Byte>, at: nat)
    requires Holds(m, base, image) && at + 4 <= |image|
    ensures WordAt(m, base + at) == WordAt(image, at)
  {
  }

  lemma HeldName(m: seq<Byte>, base: nat, image: seq<Byte>, files: seq<File>, i: nat)
    requires Holds(m, base, image) && i < |files| && EntryHolds(image, files, i) && NoNul(files[i].name)
    ensures StringAt(m, base + EntryAt(i), Stored(files[i].name))
  {
    var field, stored := NameField(files[i].name), Stored(files[i].name);
    assert NoNul(stored);
    forall k | 0 <= k < NAME_SIZE ensures m[base + EntryAt(i) + k] == field[k] {
      assert image[EntryAt(i) + k] == field[k];
      assert m[base + (EntryAt(i) + k)] == image[EntryAt(i) + k];
    }
    assert field[|stored|] == 0;
    forall k | 0 <= k < |stored| ensures m[base + EntryAt(i) + k] == stored[k] { assert field[k] == stored[k]; }
  }

  /** Memory that holds an image of `files` is a directory of their stored names. */
  lemma ImageIsDirectory(m: seq<Byte>, base: nat, image: seq<Byte>, files: seq<File>)
    requires Holds(m, base, image) && Layout(image, files) && NamesPlain(files)
    ensures WordAt(m, base) == MAGIC && WordAt(m, base + 4) == |files|
    ensures NamesAt(m, base + HEADER_SIZE, StoredNames(files))
  {
    HeldWord(m, base, image, 0);
    HeldWord(m, base, image, 4);
    var names := StoredNames(files);
    forall i | 0 <= i < |files| ensures StringAt(m, base + HEADER_SIZE + ENTRY_SIZE * i, names[i]) {
      assert EntryHolds(image, files, i) && names[i] == Stored(files[i].name);
      HeldName(m, base, image, files, i);
      assert base + EntryAt(i) == base + HEADER_SIZE + ENTRY_SIZE * i;
    }
  }

  lemma EntryReadBack(m: seq<Byte>, base: nat, image: seq<Byte>, files: seq<File>, k: nat)
    requires k < |files| && Holds(m, base, image) && EntryHolds(image, files, k)
    ensures base + EntryAt(k) + ENTRY_SIZE <= |m|
    ensures WordAt(m, base + EntryAt(k) + NAME_SIZE) == Offset(files, k)
    ensures WordAt(m, base + EntryAt(k) + NAME_SIZE + 4) == |files[k].data|
  {
  }

  /** Reading back what was written: the size and the contents of every file. */
  lemma ContentsReadBack(m: seq<Byte>, fs: FsInstance, image: seq<Byte>, files: seq<File>, k: nat)
    requires k < |files| && Holds(m, fs.base, image) && Layout(image, files)
    requires fs.entries == fs.base + HEADER_SIZE && fs.base + |image| < TWO32
    ensures fs.entries + ENTRY_SIZE * (k + 1) <= |m|
    ensures fs.FileSize(m, k) == |files[k].data|
    ensures Holds(m, fs.FileData(m, k), files[k].data)
  {
    assert EntryHolds(image, files, k) && DataHolds(image, files, k);
    EntryReadBack(m, fs.base, image, files, k);
    HoldsInside(m, fs.base, image, Offset(files, k), files[k].data);
    assert fs.base + Offset(files, k) < TWO32;
    assert fs.FileData(m, k) == fs.base + Offset(files, k);
  }

  /** A lookup finds file `k` under its own name exactly when the name was not cut and no earlier file is stored
      under the same name. */
  lemma LookupFindsFile(files: seq<File>, k: nat, r: int)
    requires k < |files| && FirstNamed(StoredNames(files), files[k].name, r)
    ensures r == k <==> |files[k].name| < NAME_SIZE && forall i :: 0 <= i < k ==> Stored(files[i].name) != files[k].name
  {
    var names := StoredNames(files);
    assert forall i :: 0 <= i < |files| ==> names[i] == Stored(files[i].name);
  }

  /** A file with a name of 64 bytes is not found under it. */
  lemma LongNameNotFound(name: seq<Byte>, data: seq<Byte>)
    requires |name| == NAME_SIZE
    ensures FirstNamed(StoredNames([File(name, data)]), name, -1)
  {
  }

  /** With distinct names of at most 63 bytes every file is found under its own name. */
  lemma DistinctNamesFound(files: seq<File>, k: nat, r: int)
    requires k < |files| && FirstNamed(StoredNames(files), files[k].name, r)
    requires forall i :: 0 <= i < |files| ==> |files[i].name| < NAME_SIZE
    requires forall i, j :: 0 <= i < j < |files| ==> files[i].name != files[j].name
    ensures r == k
  {
    LookupFindsFile(files, k, r);
  }
}
