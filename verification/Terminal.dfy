/**
 The terminal line normaliser of `packwiz_parser.py`.

 The source keeps one line lazily: cells beyond its end are blank and are only filled in when
 something is put behind them.  The meaning of a stream is a line of infinitely many cells on which
 the same controls act; `TerminalProofs` shows that both emit the same text.
 */
module Terminal {
  import opened Common
  import opened Text

  const BEL := '\U{07}'
  const BACKSPACE := '\U{08}'
  const ESC := '\U{1B}'
  const DELETE := '\U{7F}'

  // ----- Decoding -----

  datatype Mode = Normal | Escape | Csi | Osc | OscEscape

  datatype Decoder = Decoder(mode: Mode, csi: string)

  /** What a character asks of the line. */
  datatype Command =
    | Ignore
    | Put(c: char) | CarriageReturn | Newline | Back | Tab
    | EraseRight | EraseLeft | EraseAll
    | Column(column: nat) | Forward(amount: nat) | Backward(amount: nat)

  /** The number at the start of a parameter string, or 0. */
  function LeadingNumber(text: string, soFar: nat): nat {
    if text == [] || !IsDigit(text[0]) then soFar
    else LeadingNumber(text[1..], soFar * 10 + (text[0] as int - '0' as int))
  }

  function DropQuestionMarks(text: string): string {
    if text != [] && text[0] == '?' then DropQuestionMarks(text[1..]) else text
  }

  /** The first of the `;`-separated parameters, the only one that matters. */
  function FirstParameter(params: string): nat {
    LeadingNumber(DropQuestionMarks(params), 0)
  }

  /** `_apply_csi`, up to the line it acts on. */
  function CsiCommand(sequence: string): Command
    requires sequence != []
  {
    var value := FirstParameter(sequence[..|sequence| - 1]);
    var amount := if value == 0 then 1 else value;
    match sequence[|sequence| - 1]
    case 'K' => if value == 0 then EraseRight else if value == 1 then EraseLeft else if value == 2 then EraseAll
        else Ignore
    case 'G' => Column(amount - 1)
    case 'C' => Forward(amount)
    case 'D' => Backward(amount)
    case _ => Ignore
  }

  function NormalCommand(c: char): Command {
    if c == '\r' then CarriageReturn
    else if c == '\n' then Newline
    else if c == BACKSPACE then Back
    else if c == '\t' then Tab
    else if c >= ' ' && c != DELETE then Put(c)
    else Ignore
  }

  function Decode(d: Decoder, c: char): (Decoder, Command) {
    match d.mode
    case Osc => (d.(mode := if c == BEL then Normal else if c == ESC then OscEscape else Osc), Ignore)
    case OscEscape => (d.(mode := if c == '\\' then Normal else Osc), Ignore)
    case Escape =>
      (if c == '[' then Decoder(Csi, "") else if c == ']' then d.(mode := Osc) else d.(mode := Normal), Ignore)
    case Csi =>
      var sequence := d.csi + [c];
      if '@' <= c <= '~' then (Decoder(Normal, ""), CsiCommand(sequence)) else (d.(csi := sequence), Ignore)
    case Normal => if c == ESC then (d.(mode := Escape), Ignore) else (d, NormalCommand(c))
  }

  // ----- The lazily padded line -----

  datatype Line = Line(text: string, cursor: nat)

  function Blanks(n: nat): string { seq(n, _ => ' ') }

  /** `_put`. */
  function PutChar(l: Line, c: char): Line {
    if l.cursor < |l.text| then Line(l.text[l.cursor := c], l.cursor + 1)
    else Line(l.text + Blanks(l.cursor - |l.text|) + [c], l.cursor + 1)
  }

  function PutBlanks(l: Line, n: nat): Line
    decreases n
  {
    if n == 0 then l else PutBlanks(PutChar(l, ' '), n - 1)
  }

  function Min(a: nat, b: nat): nat { if a <= b then a else b }

  function BlankUpTo(text: string, n: nat): string {
    seq(|text|, i requires 0 <= i < |text| => if i < n then ' ' else text[i])
  }

  function Execute(l: Line, command: Command): Line {
    match command
    case Ignore => l
    case Put(c) => PutChar(l, c)
    case CarriageReturn => l.(cursor := 0)
    case Newline => Line("", 0)
    case Back => if l.cursor == 0 then l else l.(cursor := l.cursor - 1)
    case Tab => PutBlanks(l, 8 - l.cursor % 8)
    case EraseRight => l.(text := l.text[..Min(l.cursor, |l.text|)])
    case EraseLeft => l.(text := BlankUpTo(l.text, Min(l.cursor + 1, |l.text|)))
    case EraseAll => Line("", 0)
    case Column(column) => l.(cursor := column)
    case Forward(amount) => l.(cursor := l.cursor + amount)
    case Backward(amount) => l.(cursor := if amount <= l.cursor then l.cursor - amount else 0)
  }

  /** `str.rstrip("\x00")`. */
  function RstripNul(text: string): string {
    if text != [] && text[|text| - 1] == '\0' then RstripNul(text[..|text| - 1]) else text
  }

  datatype Terminal = Terminal(decoder: Decoder, line: Line) {
    function CurrentLine(): string { RstripNul(line.text) }
  }

  function FeedChar(t: Terminal, c: char): (Terminal, seq<string>) {
    var (decoder, command) := Decode(t.decoder, c);
    (Terminal(decoder, Execute(t.line, command)),
     if command.Newline? then [Rstrip(t.CurrentLine())] else [])
  }

  /** The completed lines of a piece of decoded text, and the terminal after it. */
  function FeedText(t: Terminal, text: string): (Terminal, seq<string>)
    decreases |text|
  {
    if text == [] then (t, [])
    else
      var (next, first) := FeedChar(t, text[0]);
      var (last, rest) := FeedText(next, text[1..]);
      (last, first + rest)
  }

  lemma OneCharMore(t: Terminal, lines: seq<string>, text: string, i: nat)
    requires i < |text|
    ensures
      var (next, emitted) := FeedChar(t, text[i]);
      Then(lines, FeedText(t, text[i..])) == Then(lines + emitted, FeedText(next, text[i + 1..]))
  {
    assert text[i..][0] == text[i] && text[i..][1..] == text[i + 1..];
    var (next, emitted) := FeedChar(t, text[i]);
    var rest := FeedText(next, text[i + 1..]);
    assert FeedText(t, text[i..]) == (rest.0, emitted + rest.1);
    assert lines + (emitted + rest.1) == lines + emitted + rest.1;
  }

  /** Feeding two pieces of text one after the other is feeding them together. */
  lemma {:induction false} FeedTextSplits(t: Terminal, a: string, b: string)
    ensures
      var (middle, first) := FeedText(t, a);
      var (last, rest) := FeedText(middle, b);
      FeedText(t, a + b) == (last, first + rest)
    decreases |a|
  {
    if a == [] {
      assert a + b == b;
      assert [] + FeedText(t, b).1 == FeedText(t, b).1;
    } else {
      assert (a + b)[0] == a[0] && (a + b)[1..] == a[1..] + b;
      var (next, one) := FeedChar(t, a[0]);
      FeedTextSplits(next, a[1..], b);
      var (middle, first) := FeedText(next, a[1..]);
      assert one + (first + FeedText(middle, b).1) == one + first + FeedText(middle, b).1;
    }
  }

  const START := Terminal(Decoder(Normal, ""), Line("", 0))

  // ----- The infinite line -----

  /** A line of infinitely many cells, of which all but finitely many are blank. */
  datatype Screen = Screen(cells: nat -> char, cursor: nat)

  const BLANK_SCREEN := Screen((_: nat) => ' ', 0)

  function PutCell(s: Screen, c: char): Screen {
    Screen((i: nat) => if i == s.cursor then c else s.cells(i), s.cursor + 1)
  }

  function PutBlankCells(s: Screen, n: nat): Screen
    decreases n
  {
    if n == 0 then s else PutBlankCells(PutCell(s, ' '), n - 1)
  }

  function ExecuteOnScreen(s: Screen, command: Command): Screen {
    match command
    case Ignore => s
    case Put(c) => PutCell(s, c)
    case CarriageReturn => s.(cursor := 0)
    case Newline => BLANK_SCREEN
    case Back => if s.cursor == 0 then s else s.(cursor := s.cursor - 1)
    case Tab => PutBlankCells(s, 8 - s.cursor % 8)
    case EraseRight => s.(cells := (i: nat) => if i < s.cursor then s.cells(i) else ' ')
    case EraseLeft => s.(cells := (i: nat) => if i <= s.cursor then ' ' else s.cells(i))
    case EraseAll => BLANK_SCREEN
    case Column(column) => s.(cursor := column)
    case Forward(amount) => s.(cursor := s.cursor + amount)
    case Backward(amount) => s.(cursor := if amount <= s.cursor then s.cursor - amount else 0)
  }

  /** The screen after a text, and what was on it at each newline. */
  function Display(d: Decoder, s: Screen, text: string): (Screen, seq<nat -> char>)
    decreases |text|
  {
    if text == [] then (s, [])
    else
      var (decoder, command) := Decode(d, text[0]);
      var (last, rest) := Display(decoder, ExecuteOnScreen(s, command), text[1..]);
      (last, (if command.Newline? then [s.cells] else []) + rest)
  }

  /** The text of a screen: what it shows up to its last cell that is not whitespace. */
  ghost predicate Shows(cells: nat -> char, text: string) {
    && (forall i: nat :: i < |text| ==> text[i] == cells(i))
    && (forall i: nat :: |text| <= i ==> IsSpace(cells(i)))
    && (text != [] ==> !IsSpace(text[|text| - 1]))
  }
}
