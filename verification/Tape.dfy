/** What the console shows, described without a screen: an unbounded tape of characters.

    The screen is a window of 25 rows of 80 columns onto the tape. The cursor is always at the end of the tape, so
    the tape is just the text in front of it; `top` counts the rows that have scrolled away. */
module Tape {
  import opened Bytes

  const COLS: nat := 80
  const ROWS: nat := 25
  const SIZE: nat := 2000

  const BACKSPACE: Byte := 8
  const NEWLINE: Byte := 10
  const SPACE: Byte := 32

  datatype Tape = Tape(text: seq<Byte>, top: nat) {
    /** The end of the tape lies in the window. */
    predicate InWindow() {
      top * COLS <= |text| < (top + ROWS) * COLS
    }

    /** The character shown at window position `i`. */
    function Shown(i: nat): Byte {
      if top * COLS + i < |text| then text[top * COLS + i] else SPACE
    }
  }

  function Blanks(n: nat): seq<Byte> {
    seq(n, _ => SPACE)
  }

  /** The text padded to the start of the next row. */
  function NextRow(text: seq<Byte>): seq<Byte> {
    text + Blanks(COLS - |text| % COLS)
  }

  function Typed(t: Tape, c: Byte): seq<Byte> {
    if c == BACKSPACE then (if |t.text| > t.top * COLS then t.text[..|t.text| - 1] else t.text)
    else if c == NEWLINE then NextRow(t.text)
    else t.text + [c]
  }

  /** One character: backspace erases within the window, newline pads to the next row, anything else is appended;
      the window moves down when the end of the tape leaves it. */
  function Put(t: Tape, c: Byte): (r: Tape)
    requires t.InWindow()
    ensures r.InWindow()
  {
    var text := Typed(t, c);
    Tape(text, if |text| >= (t.top + ROWS) * COLS then t.top + 1 else t.top)
  }

  function PutAll(t: Tape, s: seq<Byte>): (r: Tape)
    requires t.InWindow()
    ensures r.InWindow()
  {
    if s == [] then t else Put(PutAll(t, s[..|s| - 1]), s[|s| - 1])
  }

  lemma {:induction false} PutAllConcat(t: Tape, a: seq<Byte>, b: seq<Byte>)
    requires t.InWindow()
    ensures PutAll(t, a + b) == PutAll(PutAll(t, a), b)
    decreases |b|
  {
    if b == [] {
      assert a + b == a;
    } else {
      var s := a + b;
      assert s[..|s| - 1] == a + b[..|b| - 1];
      PutAllConcat(t, a, b[..|b| - 1]);
    }
  }

  /** A newline goes to the start of the next row, also from the start of a row, and adds only blanks. */
  lemma NewlineMovesDown(t: Tape)
    requires t.InWindow()
    ensures var r := Put(t, NEWLINE);
            && t.text <= r.text && |r.text| % COLS == 0 && |r.text| / COLS == |t.text| / COLS + 1
            && forall i :: |t.text| <= i < |r.text| ==> r.text[i] == SPACE
  {
  }

  /** The window moves only when the end of the text leaves it, and then so that the end is in its last row. */
  lemma WindowFollows(t: Tape, c: Byte)
    requires t.InWindow()
    ensures var r := Put(t, c); r.top == if |r.text| / COLS < t.top + ROWS then t.top else |r.text| / COLS - (ROWS - 1)
  {
  }

  predicate Plain(c: Byte) {
    c != BACKSPACE && c != NEWLINE
  }

  /** Characters other than backspace and newline are appended as they are. */
  lemma {:induction false} PlainAppended(t: Tape, s: seq<Byte>)
    requires t.InWindow() && forall i :: 0 <= i < |s| ==> Plain(s[i])
    ensures PutAll(t, s).text == t.text + s
    decreases |s|
  {
    if s != [] {
      var n := |s| - 1;
      PlainAppended(t, s[..n]);
      assert Plain(s[n]) && t.text + s == t.text + s[..n] + [s[n]];
    } else {
      assert t.text + s == t.text;
    }
  }

  /** A backspace takes back a character just written, and the window too if it did not move. */
  lemma BackspaceTakesBack(t: Tape, c: Byte)
    requires t.InWindow() && Plain(c)
    ensures var r := Put(Put(t, c), BACKSPACE); r.text == t.text && (Put(t, c).top == t.top ==> r == t)
  {
    assert (t.text + [c])[..|t.text|] == t.text;
  }

  /** A backspace erases the last character, but nothing that has left the window. */
  lemma BackspaceErases(t: Tape)
    requires t.InWindow()
    ensures var r := Put(t, BACKSPACE);
            && r.top == t.top && r.text <= t.text
            && |r.text| == if |t.text| > t.top * COLS then |t.text| - 1 else |t.text|
  {
  }
}
