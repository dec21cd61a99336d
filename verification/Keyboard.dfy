/** The keyboard driver: a line editor that echoes what it accepts to the console. */
module LineEditor {
  import opened Bytes
  import opened Tape

  const LINE_MAX: nat := 128

  /** Scan code set 1 to ASCII, sixteen codes to a row; zero where a key has no character. */
  const ROW0: seq<Byte> := [0, 27, 49, 50, 51, 52, 53, 54, 55, 56, 57, 48, 45, 61, 8, 9]
  const ROW1: seq<Byte> := [113, 119, 101, 114, 116, 121, 117, 105, 111, 112, 91, 93, 10, 0, 97, 115]
  const ROW2: seq<Byte> := [100, 102, 103, 104, 106, 107, 108, 59, 39, 96, 0, 92, 122, 120, 99, 118]
  const ROW3: seq<Byte> := [98, 110, 109, 44, 46, 47, 0, 42, 0, 32, 0, 0, 0, 0, 0, 0]
  const EMPTY: seq<Byte> := [0, 0, 0, 0, 0, 0, 0, 0, 0, 0, 0, 0, 0, 0, 0, 0]
  const scancodeToAscii: seq<Byte> := ROW0 + ROW1 + ROW2 + ROW3 + EMPTY + EMPTY + EMPTY + EMPTY

  /** The character of a key press; zero for key releases and keys without a character. */
  function Character(scan: Byte): Byte {
    if scan >= 128 then 0 else scancodeToAscii[scan]
  }

  /** The line being typed. */
  datatype Line = Line(text: seq<Byte>, complete: bool) {
    predicate Valid() {
      |text| < LINE_MAX
    }
  }

  /** The effect of a key on the line, and the characters echoed. */
  function Press(line: Line, scan: Byte): (r: (Line, seq<Byte>))
    requires line.Valid()
    ensures r.0.Valid()
  {
    var c := Character(scan);
    if c == 0 || line.complete then (line, [])
    else if c == NEWLINE then (Line(line.text, true), [NEWLINE])
    else if c == BACKSPACE then
      if |line.text| > 0 then (Line(line.text[..|line.text| - 1], false), [BACKSPACE]) else (line, [])
    else
      if |line.text| < LINE_MAX - 1 then (Line(line.text + [c], false), [c]) else (line, [])
  }

  /** What a reader with room for `max` characters receives: the longest prefix of the line that fits. */
  function Delivered(line: Line, max: nat): seq<Byte> {
    if |line.text| <= max then line.text else line.text[..max]
  }

  // ----- What the keys do -----

  /** The keys from scan code `from` on type the characters of `s`, one each. */
  ghost predicate Types(from: nat, s: string) {
    forall i :: 0 <= i < |s| ==> from + i < 128 && Character(from + i) == s[i] as int
  }

  /** A code's character is in its row. */
  lemma InRow(scan: nat)
    requires scan < 64
    ensures Character(scan) == (if scan < 16 then ROW0[scan] else if scan < 32 then ROW1[scan - 16]
                                else if scan < 48 then ROW2[scan - 32] else ROW3[scan - 48])
  {
  }

  lemma DigitKeys()
    ensures Types(2, "1234567890-=")
  {
    forall i | 0 <= i < 12 ensures Character(2 + i) == "1234567890-="[i] as int { InRow(2 + i); }
  }

  lemma UpperKeys()
    ensures Types(16, "qwertyuiop[]")
  {
    forall i | 0 <= i < 12 ensures Character(16 + i) == "qwertyuiop[]"[i] as int { InRow(16 + i); }
  }

  lemma HomeKeys()
    ensures Types(30, "asdfghjkl;'`")
  {
    forall i | 0 <= i < 12 ensures Character(30 + i) == "asdfghjkl;'`"[i] as int { InRow(30 + i); }
  }

  lemma LowerKeys()
    ensures Types(43, "\\zxcvbnm,./")
  {
    forall i | 0 <= i < 11 ensures Character(43 + i) == "\\zxcvbnm,./"[i] as int { InRow(43 + i); }
  }

  /** The rows of keys type what is printed on them; Enter, backspace and the space bar have their places, and releasing
      a key types nothing. */
  lemma KeyRows()
    ensures Types(2, "1234567890-=") && Types(16, "qwertyuiop[]")
    ensures Types(30, "asdfghjkl;'`") && Types(43, "\\zxcvbnm,./")
    ensures Character(14) == BACKSPACE && Character(28) == NEWLINE && Character(57) == SPACE
    ensures forall scan: Byte :: scan >= 128 ==> Character(scan) == 0
  {
    DigitKeys();
    UpperKeys();
    HomeKeys();
    LowerKeys();
    InRow(14);
    InRow(28);
    InRow(57);
  }

  predicate Ordinary(scan: Byte) {
    Character(scan) != 0 && Character(scan) != NEWLINE && Character(scan) != BACKSPACE
  }

  /** An ordinary key appends its character and echoes it; a full line takes no more. */
  lemma OrdinaryKey(line: Line, scan: Byte)
    requires line.Valid() && !line.complete && Ordinary(scan)
    ensures var (r, echo) := Press(line, scan);
            if |line.text| < 127 then r == Line(line.text + [Character(scan)], false) && echo == [Character(scan)]
            else r == line && echo == []
  {
  }

  /** A backspace undoes an ordinary key, and changes nothing on an empty line. */
  lemma BackspaceUndoes(line: Line, scan: Byte, back: Byte)
    requires line.Valid() && !line.complete && Character(back) == BACKSPACE
    ensures line.text == [] ==> Press(line, back) == (line, [])
    ensures Ordinary(scan) && |line.text| < 127 ==> Press(Press(line, scan).0, back) == (line, [BACKSPACE])
  {
    assert (line.text + [Character(scan)])[..|line.text|] == line.text;
  }

  /** Enter completes the line as it stands. */
  lemma EnterCompletes(line: Line, scan: Byte)
    requires line.Valid() && !line.complete && Character(scan) == NEWLINE
    ensures Press(line, scan) == (Line(line.text, true), [NEWLINE])
  {
  }

  /** A completed line, and a key without a character, change nothing. */
  lemma KeyIgnored(line: Line, scan: Byte)
    requires line.Valid() && (line.complete || Character(scan) == 0)
    ensures Press(line, scan) == (line, [])
  {
  }

  /** The line after all the keys. */
  function PressAll(line: Line, keys: seq<Byte>): (r: Line)
    requires line.Valid()
    ensures r.Valid()
  {
    if keys == [] then line else Press(PressAll(line, keys[..|keys| - 1]), keys[|keys| - 1]).0
  }

  /** The characters that are left when every backspace cancels the nearest character before it that is not cancelled
      yet, read from the end; `n` backspaces behind are still to cancel something. */
  function Kept(keys: seq<Byte>, n: nat): (r: seq<Byte>)
    decreases |keys|
  {
    if keys == [] then []
    else
      var c, before := Character(keys[|keys| - 1]), keys[..|keys| - 1];
      if c == 0 then Kept(before, n)
      else if c == BACKSPACE then Kept(before, n + 1)
      else if n > 0 then Kept(before, n - 1)
      else Kept(before, 0) + [c]
  }

  function Without(s: seq<Byte>, n: nat): seq<Byte> {
    if n <= |s| then s[..|s| - n] else []
  }

  /** Backspaces still to come take characters off the end. */
  lemma {:induction false} KeptCut(keys: seq<Byte>, n: nat)
    ensures Kept(keys, n) == Without(Kept(keys, 0), n)
    decreases |keys|
  {
    if keys != [] {
      var c, before := Character(keys[|keys| - 1]), keys[..|keys| - 1];
      var k := Kept(before, 0);
      KeptCut(before, n);
      KeptCut(before, n + 1);
      KeptCut(before, 1);
      if n > 0 { KeptCut(before, n - 1); }
      if c != 0 && c != BACKSPACE && n > 0 {
        assert Without(k + [c], n) == Without(k, n - 1);
      } else if c == BACKSPACE {
        assert Without(Without(k, 1), n) == Without(k, n + 1);
      }
    }
  }

  predicate NoEnter(keys: seq<Byte>) {
    forall i :: 0 <= i < |keys| ==> Character(keys[i]) != NEWLINE
  }

  /** No key was lost to a full line so far. */
  ghost predicate Fits(keys: seq<Byte>) {
    forall i :: 0 <= i <= |keys| ==> |Kept(keys[..i], 0)| < LINE_MAX
  }

  lemma {:induction false} TypedIsKept(keys: seq<Byte>)
    requires NoEnter(keys) && Fits(keys)
    ensures PressAll(Line([], false), keys) == Line(Kept(keys, 0), false)
    decreases |keys|
  {
    if keys != [] {
      var n := |keys| - 1;
      var before := keys[..n];
      forall i | 0 <= i <= n ensures |Kept(before[..i], 0)| < LINE_MAX { assert before[..i] == keys[..i]; }
      assert keys[..|keys|] == keys;
      TypedIsKept(before);
      KeptCut(before, 1);
    }
  }

  /** Before Enter, the line is always what cancelling backspaces leaves, if and only if that never gets too long. */
  lemma LineIsKept(keys: seq<Byte>)
    requires NoEnter(keys)
    ensures (forall i :: 0 <= i <= |keys| ==> PressAll(Line([], false), keys[..i]) == Line(Kept(keys[..i], 0), false))
            <==> Fits(keys)
  {
    if Fits(keys) {
      forall i | 0 <= i <= |keys| ensures PressAll(Line([], false), keys[..i]) == Line(Kept(keys[..i], 0), false) {
        forall j | 0 <= j <= i ensures |Kept(keys[..i][..j], 0)| < LINE_MAX { assert keys[..i][..j] == keys[..j]; }
        TypedIsKept(keys[..i]);
      }
    } else {
      var i :| 0 <= i <= |keys| && |Kept(keys[..i], 0)| >= LINE_MAX;
      assert PressAll(Line([], false), keys[..i]).Valid();
    }
  }
}

module Keyboard {
  import opened Bytes
  import opened Tape
  import opened LineEditor
  import FrameBuffer

  class Keyboard {
    const buf: array<Byte>
    const console: FrameBuffer.FrameBuffer
    var len: nat
    var complete: bool

    ghost predicate Valid()
      reads this, buf, console, console.fb
    {
      && buf.Length == LINE_MAX && len < LINE_MAX && buf != console.fb && console.Valid()
    }

    ghost function Current(): Line
      requires buf.Length == LINE_MAX && len < LINE_MAX
      reads this, buf
    {
      Line(buf[..len], complete)
    }

    constructor (console: FrameBuffer.FrameBuffer)
      requires console.Valid()
      ensures Valid() && Current() == Line([], false) && this.console == console && fresh(buf)
    {
      buf := new Byte[LINE_MAX](_ => 0);
      this.console := console;
      len, complete := 0, false;
    }

    /** The interrupt handler: edits the line and echoes what it accepted. */
    method Handler(scan: Byte)
      requires Valid()
      modifies this, buf, console, console.fb
      ensures Valid()
      ensures Current() == Press(old(Current()), scan).0
      ensures console.tape == PutAll(old(console.tape), Press(old(Current()), scan).1)
    {
      if scan >= 128 { return; }
      var c := scancodeToAscii[scan];
      if c == 0 { return; }
      if complete { return; }
      if c == NEWLINE {
        complete := true;
        var _ := console.Write([NEWLINE]);
      } else if c == BACKSPACE {
        if len > 0 {
          len := len - 1;
          var _ := console.Write([BACKSPACE]);
        }
      } else if len < LINE_MAX - 1 {
        buf[len] := c;
        len := len + 1;
        var _ := console.Write([c]);
      }
    }

    /** Copies the line, cut to `max`, into `dst` and starts a new one. */
    method ReadLine(dst: array<Byte>, max: nat) returns (n: nat)
      requires Valid() && max <= dst.Length && dst != buf && dst != console.fb
      modifies this, dst
      ensures Valid() && Current() == Line([], false)
      ensures n <= max && dst[..n] == Delivered(old(Current()), max)
      ensures dst[n..] == old(dst[n..])
    {
      n := len;
      if n > max { n := max; }
      var i := 0;
      while i < n
        invariant i <= n && buf[..] == old(buf[..]) && dst[..i] == buf[..i] && dst[n..] == old(dst[n..])
      {
        dst[i] := buf[i];
        i := i + 1;
      }
      len := 0;
      complete := false;
    }
  }
}
