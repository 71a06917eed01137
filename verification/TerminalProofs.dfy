/** The lazily padded line refines the infinite one. */
module TerminalProofs {
  import opened Text
  import opened Terminal

  // ----- Refinement -----

  function CellAt(text: string, i: nat): char {
    if i < |text| then text[i] else ' '
  }

  ghost predicate Refines(l: Line, s: Screen) {
    && l.cursor == s.cursor
    && (forall i: nat :: s.cells(i) == CellAt(l.text, i))
    && '\0' !in l.text
  }

  lemma PutRefines(l: Line, s: Screen, c: char)
    requires Refines(l, s) && c != '\0'
    ensures Refines(PutChar(l, c), PutCell(s, c))
  {
  }

  lemma {:induction false} BlanksRefine(l: Line, s: Screen, n: nat)
    requires Refines(l, s)
    ensures Refines(PutBlanks(l, n), PutBlankCells(s, n))
    decreases n
  {
    if n > 0 {
      PutRefines(l, s, ' ');
      BlanksRefine(PutChar(l, ' '), PutCell(s, ' '), n - 1);
    }
  }

  lemma CommandRefines(l: Line, s: Screen, command: Command)
    requires Refines(l, s) && command != Put('\0')
    ensures Refines(Execute(l, command), ExecuteOnScreen(s, command))
  {
    match command {
      case Put(c) => PutRefines(l, s, c);
      case Tab => BlanksRefine(l, s, 8 - l.cursor % 8);
      case _ =>
    }
  }

  lemma {:induction false} RstripShows(text: string, cells: nat -> char)
    requires forall i: nat :: i < |text| ==> cells(i) == text[i]
    requires forall i: nat :: |text| <= i ==> IsSpace(cells(i))
    ensures Shows(cells, Rstrip(text))
    decreases |text|
  {
    if text != [] && IsSpace(text[|text| - 1]) {
      RstripShows(text[..|text| - 1], cells);
    }
  }

  lemma ShownTextIsNotLonger(cells: nat -> char, a: string, b: string)
    requires Shows(cells, a) && Shows(cells, b)
    ensures |b| <= |a|
  {
    if b != [] { assert b[|b| - 1] == cells(|b| - 1); }
  }

  lemma ShownTextIsUnique(cells: nat -> char, a: string, b: string)
    requires Shows(cells, a) && Shows(cells, b)
    ensures a == b
  {
    ShownTextIsNotLonger(cells, a, b);
    ShownTextIsNotLonger(cells, b, a);
  }

  /** Every completed line, and the unfinished one, is exactly what the infinite line shows. */
  ghost predicate AllShown(lines: seq<string>, completed: seq<nat -> char>) {
    |lines| == |completed| && forall i :: 0 <= i < |lines| ==> Shows(completed[i], lines[i])
  }

  lemma FirstLineRefines(first: seq<string>, rest: seq<string>, shown: seq<nat -> char>, later: seq<nat -> char>)
    requires AllShown(first, shown) && AllShown(rest, later)
    ensures AllShown(first + rest, shown + later)
  {
  }

  lemma {:induction false} LinesRefine(t: Terminal, s: Screen, text: string)
    requires Refines(t.line, s)
    ensures
      var (last, lines) := FeedText(t, text);
      var (screen, completed) := Display(t.decoder, s, text);
      && Refines(last.line, screen) && Shows(screen.cells, Rstrip(last.CurrentLine()))
      && AllShown(lines, completed)
    decreases |text|
  {
    assert t.CurrentLine() == t.line.text;
    RstripShows(t.line.text, s.cells);
    if text != [] {
      var (decoder, command) := Decode(t.decoder, text[0]);
      CommandRefines(t.line, s, command);
      var (next, first) := FeedChar(t, text[0]);
      var after := ExecuteOnScreen(s, command);
      LinesRefine(next, after, text[1..]);
      FirstLineRefines(first, FeedText(next, text[1..]).1, if command.Newline? then [s.cells]
          else [], Display(decoder, after, text[1..]).1);
    }
  }

  /** For every stream: the emitted lines are the texts that the infinite line shows at its newlines. */
  lemma NormaliserShowsTheStream(text: string)
    ensures
      var lines := FeedText(START, text).1;
      var completed := Display(START.decoder, BLANK_SCREEN, text).1;
      AllShown(lines, completed)
  {
    LinesRefine(START, BLANK_SCREEN, text);
  }
}
