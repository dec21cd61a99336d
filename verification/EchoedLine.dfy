/** The unfinished line is what the screen shows in front of the cursor.

    Keys and reads in any order, starting from any console with an empty line and no other writes in between: the
    tape is always the text from before the line followed by the line, across wraps, backspaces and scrolls. */
module EchoedLine {
  import opened Bytes
  import opened Tape
  import opened LineEditor
  import opened FrameBuffer

  datatype Event = Key(scan: Byte) | Read

  /** The driver's line and console, with the text that was on the tape when the current line began. */
  datatype Session = Session(line: Line, tape: Tape, start: seq<Byte>)

  predicate Valid(s: Session) {
    s.line.Valid() && s.tape.InWindow()
  }

  function Step(s: Session, e: Event): (r: Session)
    requires Valid(s)
    ensures Valid(r)
  {
    match e
    case Key(scan) =>
      var (line, echo) := Press(s.line, scan);
      Session(line, PutAll(s.tape, echo), s.start)
    case Read =>
      if s.line.complete then Session(Line([], false), s.tape, s.tape.text) else s
  }

  function Run(s: Session, es: seq<Event>): (r: Session)
    requires Valid(s)
    ensures Valid(r)
  {
    if es == [] then s else Step(Run(s, es[..|es| - 1]), es[|es| - 1])
  }

  /** The tape is the earlier text followed by the line, padded to the next row once the line is complete, and the
      whole line is still in the window. */
  ghost predicate Echoed(s: Session) {
    && Valid(s)
    && (if s.line.complete then s.tape.text == NextRow(s.start + s.line.text)
        else s.tape.text == s.start + s.line.text && s.tape.top * COLS <= |s.start|)
  }

  lemma EchoOne(t: Tape, c: Byte)
    requires t.InWindow()
    ensures PutAll(t, [c]) == Put(t, c)
  {
  }

  lemma KeyEchoes(s: Session, scan: Byte)
    requires Echoed(s)
    ensures Echoed(Step(s, Key(scan)))
  {
    var c := Character(scan);
    EchoOne(s.tape, c);
    if !s.line.complete && c == BACKSPACE && |s.line.text| > 0 {
      var n := |s.line.text| - 1;
      assert (s.start + s.line.text)[..|s.start| + n] == s.start + s.line.text[..n];
    } else if !s.line.complete && c != NEWLINE && c != BACKSPACE {
      assert s.start + s.line.text + [c] == s.start + (s.line.text + [c]);
    }
  }

  lemma {:induction false} AlwaysEchoed(s: Session, es: seq<Event>)
    requires Echoed(s)
    ensures Echoed(Run(s, es))
  {
    if es != [] {
      var shorter := es[..|es| - 1];
      AlwaysEchoed(s, shorter);
      match es[|es| - 1]
      case Key(scan) => KeyEchoes(Run(s, shorter), scan);
      case Read =>
        var before := Run(s, shorter);
        assert before.tape.text + [] == before.tape.text;
    }
  }

  /** After any keys and reads, the cells just before the cursor show the unfinished line. */
  lemma ScreenShowsLine(tape: Tape, es: seq<Event>, cells: seq<Byte>, cursor: nat, j: nat)
    requires tape.InWindow()
    requires var s := Run(Session(Line([], false), tape, tape.text), es);
             !s.line.complete && Shows(cells, cursor, s.tape) && j < |s.line.text|
    ensures var s := Run(Session(Line([], false), tape, tape.text), es);
            |s.line.text| <= cursor && CellIs(cells, cursor - |s.line.text| + j, s.line.text[j])
  {
    var first := Session(Line([], false), tape, tape.text);
    assert tape.text + [] == tape.text;
    AlwaysEchoed(first, es);
    var s := Run(first, es);
    var i := cursor - |s.line.text| + j;
    assert CellIs(cells, i, s.tape.Shown(i));
  }
}
