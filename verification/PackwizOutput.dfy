/** What `PackwizOutputParser` of `packwiz_parser.py` computes: events and normalised lines from a terminal stream. */
module PackwizOutput {
  import opened Common
  import opened Text
  import opened Terminal

  datatype MenuItem = MenuItem(index: nat, title: string, isDefault: bool, isCancel: bool)

  /** What the regular expressions of the source find in a line that is not empty. */
  datatype Reading = Reading(
    item: Option<MenuItem>,
    menuPrompt: bool,
    confirmation: Option<string>,
    search: Option<string>,
    diagnostic: bool)

  type Reader = string -> Reading

  /** The items of a menu, in index order, as the map that determines them. */
  type Menu = map<nat, MenuItem>

  datatype Event =
    | SearchStarted(provider: string)
    | SearchResults(prompt: string, items: Menu)
    | Confirmation(prompt: string)
    | Diagnostic(line: string)
    | Output(line: string)

  function Signature(menu: Menu): map<nat, string> {
    map index | index in menu :: menu[index].title
  }

  datatype Parser = Parser(
    terminal: Terminal,
    menu: Menu,
    lastPrompt: Option<map<nat, string>>,
    promptActive: bool,
    lastCurrent: string,
    lastConfirmation: Option<string>,
    normalized: seq<string>)

  function ConsumePrompt(reader: Reader, p: Parser, line: string): (r: (Parser, seq<Event>))
    ensures r.0.normalized == p.normalized && r.0.terminal == p.terminal
  {
    if line == "" then (p, [])
    else if reader(line).menuPrompt && p.menu != map[] then
      if p.lastPrompt == Some(Signature(p.menu)) then (p, [])
      else (p.(lastPrompt := Some(Signature(p.menu)), promptActive := true), [SearchResults(line, p.menu)])
    else if reader(line).confirmation.Some? && p.lastConfirmation != reader(line).confirmation then
      (p.(lastConfirmation := reader(line).confirmation), [Confirmation(line)])
    else (p, [])
  }

  function ForgetMenu(p: Parser): Parser {
    p.(menu := map[], lastPrompt := None)
  }

  /** A line without its trailing whitespace, unless nothing is left. */
  function Keep(line: string): seq<string> {
    if Rstrip(line) == "" then [] else [Rstrip(line)]
  }

  function Kept(lines: seq<string>): seq<string> {
    if lines == [] then [] else Keep(lines[0]) + Kept(lines[1..])
  }

  /** `_consume_line`; no expression of the source matches an empty line. */
  function ConsumeLine(reader: Reader, p: Parser, line: string): (r: (Parser, seq<Event>))
    ensures r.0.normalized == p.normalized + Keep(line) && r.0.terminal == p.terminal
  {
    var clean := Rstrip(line);
    if clean == "" then (p, []) else
    var reading := reader(clean);
    var p := p.(normalized := p.normalized + [clean]);
    if reading.item.Some? then
      var p := if p.promptActive then ForgetMenu(p).(promptActive := false) else p;
      (p.(menu := p.menu[reading.item.value.index := reading.item.value]), [])
    else
      var p := if p.promptActive && !reading.menuPrompt then ForgetMenu(p).(promptActive := false) else p;
      var p := if reading.confirmation.None? then p.(lastConfirmation := None) else p;
      var (p, started) := if reading.search.Some?
        then (ForgetMenu(p).(lastConfirmation := None), [SearchStarted(reading.search.value)])
        else (p, []);
      var (p, prompts) := ConsumePrompt(reader, p, clean);
      (p, started + prompts + [if reading.diagnostic then Diagnostic(clean) else Output(clean)])
  }

  function ConsumeLines(reader: Reader, p: Parser, lines: seq<string>): (Parser, seq<Event>)
    decreases |lines|
  {
    if lines == [] then (p, [])
    else
      var (next, first) := ConsumeLine(reader, p, lines[0]);
      var (last, rest) := ConsumeLines(reader, next, lines[1..]);
      (last, first + rest)
  }

  lemma OneLineMore(reader: Reader, p: Parser, events: seq<Event>, lines: seq<string>, i: nat)
    requires i < |lines|
    ensures
      var (next, emitted) := ConsumeLine(reader, p, lines[i]);
      Then(events, ConsumeLines(reader, p, lines[i..])) ==
          Then(events + emitted, ConsumeLines(reader, next, lines[i + 1..]))
  {
    assert lines[i..][0] == lines[i] && lines[i..][1..] == lines[i + 1..];
    var (next, emitted) := ConsumeLine(reader, p, lines[i]);
    var rest := ConsumeLines(reader, next, lines[i + 1..]);
    assert ConsumeLines(reader, p, lines[i..]) == (rest.0, emitted + rest.1);
    assert events + (emitted + rest.1) == events + emitted + rest.1;
  }

  /** A prompt may stand on a line that is not finished. */
  function ConsumeCurrent(reader: Reader, p: Parser, current: string): (r: (Parser, seq<Event>))
    ensures r.0.normalized == p.normalized && r.0.terminal == p.terminal
  {
    if current == p.lastCurrent then (p, []) else ConsumePrompt(reader, p.(lastCurrent := current), current)
  }

  function Flush(reader: Reader, p: Parser, current: string, final: bool): (r: (Parser, seq<Event>))
    requires Rstrip(current) == current
    ensures r.0.normalized == p.normalized + (if final then Keep(current) else []) && r.0.terminal == p.terminal
  {
    if final && current != "" then
      var (p, events) := ConsumeLine(reader, p, current);
      (p.(lastCurrent := ""), events)
    else (p, [])
  }

  /** The parser after its terminal was fed and completed some lines. */
  function Digest(reader: Reader, p: Parser, completed: seq<string>, final: bool): (Parser, seq<Event>) {
    var current := Rstrip(p.terminal.CurrentLine());
    RstripTwice(p.terminal.CurrentLine());
    var (p, events) := ConsumeLines(reader, p, completed);
    var (p, prompts) := ConsumeCurrent(reader, p, current);
    var (p, flushed) := Flush(reader, p, current, final);
    (p, events + prompts + flushed)
  }

  function FeedChunk(reader: Reader, p: Parser, text: string, final: bool): (Parser, seq<Event>) {
    var (terminal, completed) := FeedText(p.terminal, text);
    Digest(reader, p.(terminal := terminal), completed, final)
  }

  /** A stream cut into chunks, of which only the last is fed as final. */
  function FeedChunks(reader: Reader, p: Parser, chunks: seq<string>): Parser
    requires chunks != []
    decreases |chunks|
  {
    if |chunks| == 1 then FeedChunk(reader, p, chunks[0], true).0
    else FeedChunks(reader, FeedChunk(reader, p, chunks[0], false).0, chunks[1..])
  }

  function Joined(chunks: seq<string>): string {
    if chunks == [] then "" else chunks[0] + Joined(chunks[1..])
  }

  // ----- Chunk independence -----

  lemma {:induction false} LinesAreKept(reader: Reader, p: Parser, lines: seq<string>)
    ensures
      var last := ConsumeLines(reader, p, lines).0;
      last.normalized == p.normalized + Kept(lines) && last.terminal == p.terminal
    decreases |lines|
  {
    if lines != [] {
      var next := ConsumeLine(reader, p, lines[0]).0;
      LinesAreKept(reader, next, lines[1..]);
      Associates(p.normalized, Keep(lines[0]), Kept(lines[1..]));
      assert ConsumeLines(reader, p, lines).0 == ConsumeLines(reader, next, lines[1..]).0;
    }
  }

  /** The lines that a piece of text completes, and with `final` the one it leaves unfinished. */
  function Transcript(t: Terminal, text: string, final: bool): seq<string> {
    var (terminal, completed) := FeedText(t, text);
    Kept(completed) + if final then Keep(terminal.CurrentLine()) else []
  }

  lemma DigestAdds(reader: Reader, p: Parser, completed: seq<string>, final: bool)
    ensures
      var q := Digest(reader, p, completed, final).0;
      && q.terminal == p.terminal
      && q.normalized == p.normalized + (Kept(completed) + if final then Keep(p.terminal.CurrentLine()) else [])
  {
    var current := Rstrip(p.terminal.CurrentLine());
    LinesAreKept(reader, p, completed);
    RstripTwice(p.terminal.CurrentLine());
    assert Keep(current) == Keep(p.terminal.CurrentLine());
    var consumed := ConsumeLines(reader, p, completed).0;
    var prompted := ConsumeCurrent(reader, consumed, current).0;
    var flushed := Flush(reader, prompted, current, final).0;
    assert Digest(reader, p, completed, final).0 == flushed;
  }

  /** What one chunk adds to the normalised lines, whatever menus and prompts are going on. */
  lemma ChunkAdds(reader: Reader, p: Parser, text: string, final: bool)
    ensures
      var q := FeedChunk(reader, p, text, final).0;
      q.terminal == FeedText(p.terminal, text).0 && q.normalized == p.normalized + Transcript(p.terminal, text, final)
  {
    var (terminal, completed) := FeedText(p.terminal, text);
    DigestAdds(reader, p.(terminal := terminal), completed, final);
  }

  lemma {:induction false} KeptSplits(a: seq<string>, b: seq<string>)
    ensures Kept(a + b) == Kept(a) + Kept(b)
    decreases |a|
  {
    if a == [] {
      assert a + b == b;
    } else {
      assert (a + b)[0] == a[0] && (a + b)[1..] == a[1..] + b;
      KeptSplits(a[1..], b);
    }
  }

  lemma KeptTogether(first: seq<string>, rest: seq<string>, current: seq<string>)
    ensures Kept(first + rest) + current == (Kept(first) + []) + (Kept(rest) + current)
  {
    KeptSplits(first, rest);
  }

  lemma TranscriptSplits(t: Terminal, a: string, b: string)
    ensures Transcript(t, a + b, true) == Transcript(t, a, false) + Transcript(FeedText(t, a).0, b, true)
  {
    FeedTextSplits(t, a, b);
    var (middle, first) := FeedText(t, a);
    var (last, rest) := FeedText(middle, b);
    KeptTogether(first, rest, Keep(last.CurrentLine()));
  }

  lemma {:induction false} ChunksAdd(reader: Reader, p: Parser, chunks: seq<string>)
    requires chunks != []
    ensures FeedChunks(reader, p, chunks).normalized == p.normalized + Transcript(p.terminal, Joined(chunks), true)
    decreases |chunks|
  {
    ChunkAdds(reader, p, chunks[0], |chunks| == 1);
    if |chunks| == 1 {
      assert Joined(chunks) == chunks[0] + "" == chunks[0];
    } else {
      var next := FeedChunk(reader, p, chunks[0], false).0;
      ChunksAdd(reader, next, chunks[1..]);
      TranscriptSplits(p.terminal, chunks[0], Joined(chunks[1..]));
      Associates(p.normalized, Transcript(p.terminal, chunks[0], false),
          Transcript(next.terminal, Joined(chunks[1..]), true));
    }
  }

  lemma Associates(a: seq<string>, b: seq<string>, c: seq<string>)
    ensures a + b + c == a + (b + c)
  {
  }

  /** The normalised lines depend on the stream and not on how it was cut. */
  lemma ChunksDoNotMatter(reader: Reader, p: Parser, chunks: seq<string>)
    requires chunks != []
    ensures FeedChunks(reader, p, chunks).normalized == FeedChunk(reader, p, Joined(chunks), true).0.normalized
  {
    ChunksAdd(reader, p, chunks);
    ChunkAdds(reader, p, Joined(chunks), true);
  }
}
