/** The VGA text console: an array of 80x25 two-byte cells and a cursor, a window onto a tape. */
module FrameBuffer {
  import opened Bytes
  import opened Tape

  /** White on black, as the driver packs the two colours. */
  const ATTRIBUTE: Byte := 0xF0

  ghost predicate CellIs(cells: seq<Byte>, i: nat, c: Byte)
    requires |cells| == 2 * SIZE && i < SIZE
  {
    cells[2 * i] == c && cells[2 * i + 1] == ATTRIBUTE
  }

  /** The cells from position `lo` to `hi` show the window of `t`. */
  ghost predicate ShowsBetween(cells: seq<Byte>, t: Tape, lo: nat, hi: nat) {
    |cells| == 2 * SIZE && hi <= SIZE && forall i :: lo <= i < hi ==> CellIs(cells, i, t.Shown(i))
  }

  ghost predicate Shows(cells: seq<Byte>, cursor: nat, t: Tape) {
    t.InWindow() && cursor == |t.text| - t.top * COLS && ShowsBetween(cells, t, 0, SIZE)
  }

  /** Rows 1..24 have moved up by one and the last row is blank. */
  ghost predicate IsScrolled(cells: seq<Byte>, cells': seq<Byte>) {
    && |cells| == |cells'| == 2 * SIZE
    && forall k :: 0 <= k < 2 * SIZE ==>
         cells'[k] == if k < 2 * (SIZE - COLS) then cells[k + 2 * COLS] else if k % 2 == 0 then SPACE else ATTRIBUTE
  }

  /** Scrolling moves the window down one row, when the last row of the tape ends where the window did. */
  lemma ScrollMovesWindow(cells: seq<Byte>, cells': seq<Byte>, t: Tape)
    requires |t.text| == (t.top + ROWS) * COLS && ShowsBetween(cells, t, 0, SIZE) && IsScrolled(cells, cells')
    ensures ShowsBetween(cells', Tape(t.text, t.top + 1), 0, SIZE)
  {
    var after := Tape(t.text, t.top + 1);
    forall i | 0 <= i < SIZE ensures CellIs(cells', i, after.Shown(i)) {
      if i < SIZE - COLS {
        assert CellIs(cells, i + COLS, t.Shown(i + COLS));
      }
    }
  }

  lemma AppendShown(cells: seq<Byte>, cells': seq<Byte>, t: Tape, c: Byte)
    requires t.InWindow() && ShowsBetween(cells, t, 0, SIZE)
    requires var k := |t.text| - t.top * COLS; cells' == cells[2 * k := c][2 * k + 1 := ATTRIBUTE]
    ensures ShowsBetween(cells', Tape(t.text + [c], t.top), 0, SIZE)
  {
    var after := Tape(t.text + [c], t.top);
    forall i | 0 <= i < SIZE ensures CellIs(cells', i, after.Shown(i)) {
      assert CellIs(cells, i, t.Shown(i));
    }
  }

  lemma EraseShown(cells: seq<Byte>, cells': seq<Byte>, t: Tape)
    requires t.InWindow() && |t.text| > t.top * COLS && ShowsBetween(cells, t, 0, SIZE)
    requires var k := |t.text| - t.top * COLS - 1; cells' == cells[2 * k := SPACE][2 * k + 1 := ATTRIBUTE]
    ensures ShowsBetween(cells', Tape(t.text[..|t.text| - 1], t.top), 0, SIZE)
  {
    var after := Tape(t.text[..|t.text| - 1], t.top);
    forall i | 0 <= i < SIZE ensures CellIs(cells', i, after.Shown(i)) {
      assert CellIs(cells, i, t.Shown(i));
    }
  }

  lemma PaddingShown(cells: seq<Byte>, t: Tape)
    requires t.InWindow() && ShowsBetween(cells, t, 0, SIZE)
    ensures ShowsBetween(cells, Tape(NextRow(t.text), t.top), 0, SIZE)
  {
    var after := Tape(NextRow(t.text), t.top);
    forall i | 0 <= i < SIZE ensures CellIs(cells, i, after.Shown(i)) {
      assert CellIs(cells, i, t.Shown(i));
    }
  }

  lemma ColumnFromCursor(t: Tape)
    requires t.InWindow()
    ensures |t.text| % COLS == (|t.text| - t.top * COLS) % COLS
  {
  }

  class FrameBuffer {
    const fb: array<Byte>
    var cursor: nat
    ghost var tape: Tape

    ghost predicate Valid()
      reads this, fb
    {
      fb.Length == 2 * SIZE && Shows(fb[..], cursor, tape)
    }

    /** The driver over the memory-mapped cells, cleared as the kernel clears it at boot. */
    constructor (cells: array<Byte>)
      requires cells.Length == 2 * SIZE
      modifies cells
      ensures Valid() && fb == cells && tape == Tape([], 0)
    {
      fb := cells;
      new;
      Clear();
    }

    method WriteCell(i: nat, c: Byte)
      requires fb.Length == 2 * SIZE && i < SIZE
      modifies fb
      ensures fb[..] == old(fb[..])[2 * i := c][2 * i + 1 := ATTRIBUTE]
    {
      fb[2 * i] := c;
      fb[2 * i + 1] := ATTRIBUTE;
    }

    /** Copies rows 1..24 up byte by byte, then blanks the last row. */
    method Scroll()
      requires fb.Length == 2 * SIZE
      modifies this`cursor, fb
      ensures IsScrolled(old(fb[..]), fb[..]) && cursor == SIZE - COLS
    {
      var i := 0;
      while i < (SIZE - COLS) * 2
        invariant i <= (SIZE - COLS) * 2
        invariant forall k :: 0 <= k < i ==> fb[k] == old(fb[k + COLS * 2])
        invariant forall k :: i <= k < fb.Length ==> fb[k] == old(fb[k])
      {
        fb[i] := fb[i + COLS * 2];
        i := i + 1;
      }
      while i < SIZE * 2
        invariant (SIZE - COLS) * 2 <= i <= SIZE * 2 && i % 2 == 0
        invariant forall k :: 0 <= k < (SIZE - COLS) * 2 ==> fb[k] == old(fb[k + COLS * 2])
        invariant forall k :: (SIZE - COLS) * 2 <= k < i ==> fb[k] == if k % 2 == 0 then SPACE else ATTRIBUTE
      {
        fb[i] := SPACE;
        fb[i + 1] := ATTRIBUTE;
        i := i + 2;
      }
      cursor := SIZE - COLS;
    }

    method Clear()
      requires fb.Length == 2 * SIZE
      modifies this, fb
      ensures Valid() && tape == Tape([], 0) && cursor == 0
    {
      var i := 0;
      while i < SIZE
        invariant i <= SIZE
        invariant forall k :: 0 <= k < i ==> CellIs(fb[..], k, SPACE)
      {
        ghost var before := fb[..];
        WriteCell(i, SPACE);
        forall k | 0 <= k <= i ensures CellIs(fb[..], k, SPACE) {
          if k < i { assert CellIs(before, k, SPACE); }
        }
        i := i + 1;
      }
      cursor := 0;
      tape := Tape([], 0);
    }

    method ScrollIfNeeded()
      requires fb.Length == 2 * SIZE && ShowsBetween(fb[..], tape, 0, SIZE)
      requires tape.top * COLS <= |tape.text| <= (tape.top + ROWS) * COLS && cursor == |tape.text| - tape.top * COLS
      modifies this, fb
      ensures Valid() && tape.text == old(tape.text)
      ensures tape.top == if |tape.text| >= (old(tape.top) + ROWS) * COLS then old(tape.top) + 1 else old(tape.top)
    {
      if cursor >= SIZE {
        ghost var before := fb[..];
        Scroll();
        ScrollMovesWindow(before, fb[..], tape);
        tape := Tape(tape.text, tape.top + 1);
      }
    }

    method PutChar(c: Byte)
      requires Valid()
      modifies this, fb
      ensures Valid() && tape == Put(old(tape), c)
    {
      if c == BACKSPACE {
        if cursor > 0 {
          cursor := cursor - 1;
          EraseShown(fb[..], fb[..][2 * cursor := SPACE][2 * cursor + 1 := ATTRIBUTE], tape);
          WriteCell(cursor, SPACE);
        }
      } else if c == NEWLINE {
        PaddingShown(fb[..], tape);
        ColumnFromCursor(tape);
        cursor := cursor + (COLS - cursor % COLS);
      } else {
        AppendShown(fb[..], fb[..][2 * cursor := c][2 * cursor + 1 := ATTRIBUTE], tape, c);
        WriteCell(cursor, c);
        cursor := cursor + 1;
      }
      tape := Tape(Typed(tape, c), tape.top);
      ScrollIfNeeded();
    }

    /** Writes a buffer character by character; the screen follows the tape. */
    method Write(buf: seq<Byte>) returns (len: nat)
      requires Valid()
      modifies this, fb
      ensures Valid() && tape == PutAll(old(tape), buf) && len == |buf|
    {
      var i := 0;
      while i < |buf|
        invariant i <= |buf| && Valid() && tape == PutAll(old(tape), buf[..i])
      {
        assert buf[..i + 1][..i] == buf[..i];
        PutChar(buf[i]);
        i := i + 1;
      }
      assert buf[..|buf|] == buf;
      len := |buf|;
    }
  }
}
