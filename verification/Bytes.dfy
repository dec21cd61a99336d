/** Bytes, 32-bit words, and words stored as little-endian bytes. */
module Bytes {

  const TWO32: nat := 0x1_0000_0000

  type Byte = b: nat | b < 256

  type Word = w: nat | w < TWO32

  /** Truncation to 32 bits. */
  function Wrap(v: nat): Word {
    if v < TWO32 then v else v % TWO32
  }

  /** The four bytes of a word, least significant first. */
  function WordBytes(w: nat): (s: seq<Byte>)
    requires w < TWO32
    ensures |s| == 4
  {
    [w % 256, w / 0x100 % 256, w / 0x1_0000 % 256, w / 0x100_0000]
  }

  /** The word stored at index `a`. */
  function WordAt(m: seq<Byte>, a: nat): (w: nat)
    requires a + 4 <= |m|
    ensures w < TWO32
  {
    m[a] as nat + 0x100 * (m[a + 1] as nat) + 0x1_0000 * (m[a + 2] as nat) + 0x100_0000 * (m[a + 3] as nat)
  }

  lemma WordRoundTrip(w: nat, m: seq<Byte>, a: nat)
    requires w < TWO32 && a + 4 <= |m| && m[a..a + 4] == WordBytes(w)
    ensures WordAt(m, a) == w
  {
    var s := m[a..a + 4];
    assert m[a] == s[0] && m[a + 1] == s[1] && m[a + 2] == s[2] && m[a + 3] == s[3];
    BytesOfWord(w);
  }

  lemma BytesOfWord(w: nat)
    requires w < TWO32
    ensures w % 256 + 0x100 * (w / 0x100 % 256) + 0x1_0000 * (w / 0x1_0000 % 256) + 0x100_0000 * (w / 0x100_0000) == w
  {
    assert w / 0x1_0000 == w / 0x100 / 0x100;
    assert w / 0x100_0000 == w / 0x100 / 0x100 / 0x100;
  }

  function Zeros(n: nat): seq<Byte> {
    seq(n, _ => 0)
  }

  ghost predicate NoNul(s: seq<Byte>) {
    forall i :: 0 <= i < |s| ==> s[i] != 0
  }

  /** The C string at index `a` of `m` is `s`. */
  ghost predicate StringAt(m: seq<Byte>, a: nat, s: seq<Byte>) {
    NoNul(s) && a + |s| < |m| && m[a + |s|] == 0 && forall i :: 0 <= i < |s| ==> m[a + i] == s[i]
  }

  /** `data` is stored in `m` from index `at` on. */
  predicate Holds(m: seq<Byte>, at: nat, data: seq<Byte>) {
    at + |data| <= |m| && forall j :: 0 <= j < |data| ==> m[at + j] == data[j]
  }

  lemma BeforeSuffix(pre: seq<Byte>, suffix: seq<Byte>, at: nat, data: seq<Byte>)
    requires Holds(pre, at, data)
    ensures Holds(pre + suffix, at, data)
  {
  }

  lemma HoldsInside(m: seq<Byte>, base: nat, image: seq<Byte>, at: nat, data: seq<Byte>)
    requires Holds(m, base, image) && Holds(image, at, data)
    ensures Holds(m, base + at, data)
  {
  }
}
