/** `PackwizOutputParser` of `packwiz_parser.py` in the form of the source. */
module PackwizOutputParsers {
  import opened Common
  import opened Text
  import opened Terminal
  import opened TerminalNormalizers
  import opened PackwizOutput

  class PackwizOutputParser {
    const reader: Reader
    const terminal: TerminalNormalizer
    var menuItems: Menu
    var lastPromptSignature: Option<map<nat, string>>
    var menuPromptActive: bool
    var lastCurrentLine: string
    var lastConfirmationSignature: Option<string>
    var normalizedLines: seq<string>

    function Abstract(): Parser
      reads this, terminal
    {
      Parser(terminal.Abstract(), menuItems, lastPromptSignature, menuPromptActive, lastCurrentLine,
             lastConfirmationSignature, normalizedLines)
    }

    constructor (reader: Reader)
      ensures Abstract() == Parser(START, map[], None, false, "", None, []) && this.reader == reader && fresh(terminal)
    {
      this.reader := reader;
      this.terminal := new TerminalNormalizer();
      menuItems, lastPromptSignature, menuPromptActive := map[], None, false;
      lastCurrentLine, lastConfirmationSignature, normalizedLines := "", None, [];
    }

    method ForgetMenuItems()
      modifies this`menuItems, this`lastPromptSignature
      ensures Abstract() == ForgetMenu(old(Abstract()))
    {
      menuItems, lastPromptSignature := map[], None;
    }

    method ConsumePromptLine(line: string) returns (events: seq<Event>)
      modifies this
      ensures (Abstract(), events) == ConsumePrompt(reader, old(Abstract()), line)
    {
      if line == "" { return []; }
      if reader(line).menuPrompt && menuItems != map[] {
        var signature := Signature(menuItems);
        if lastPromptSignature == Some(signature) { return []; }
        lastPromptSignature, menuPromptActive := Some(signature), true;
        return [SearchResults(line, menuItems)];
      }
      var confirmation := reader(line).confirmation;
      if confirmation.Some? && confirmation != lastConfirmationSignature {
        lastConfirmationSignature := confirmation;
        return [Confirmation(line)];
      }
      events := [];
    }

    method ConsumeCompletedLine(line: string) returns (events: seq<Event>)
      modifies this
      ensures (Abstract(), events) == ConsumeLine(reader, old(Abstract()), line)
    {
      var clean := Rstrip(line);
      if clean == "" { return []; }
      normalizedLines := normalizedLines + [clean];
      var reading := reader(clean);
      if reading.item.Some? {
        if menuPromptActive {
          ForgetMenuItems();
          menuPromptActive := false;
        }
        menuItems := menuItems[reading.item.value.index := reading.item.value];
        return [];
      }
      if menuPromptActive && !reading.menuPrompt {
        ForgetMenuItems();
        menuPromptActive := false;
      }
      if reading.confirmation.None? {
        lastConfirmationSignature := None;
      }
      events := [];
      if reading.search.Some? {
        ForgetMenuItems();
        lastConfirmationSignature := None;
        events := [SearchStarted(reading.search.value)];
      }
      var prompts := ConsumePromptLine(clean);
      events := events + prompts + [if reading.diagnostic then Diagnostic(clean) else Output(clean)];
    }

    method ConsumeCompletedLines(lines: seq<string>) returns (events: seq<Event>)
      modifies this
      ensures (Abstract(), events) == ConsumeLines(reader, old(Abstract()), lines)
    {
      events := [];
      ghost var expected := ConsumeLines(reader, Abstract(), lines);
      assert lines[0..] == lines && [] + expected.1 == expected.1;
      for i := 0 to |lines|
        invariant expected == Then(events, ConsumeLines(reader, Abstract(), lines[i..]))
      {
        OneLineMore(reader, Abstract(), events, lines, i);
        var emitted := ConsumeCompletedLine(lines[i]);
        events := events + emitted;
      }
      assert events + [] == events;
    }

    method Feed(text: string, final: bool) returns (events: seq<Event>)
      modifies this, terminal
      ensures (Abstract(), events) == FeedChunk(reader, old(Abstract()), text, final)
    {
      var completed := terminal.Feed(text);
      var current := Rstrip(RstripNul(terminal.line));
      RstripTwice(RstripNul(terminal.line));
      events := ConsumeCompletedLines(completed);
      if current != lastCurrentLine {
        lastCurrentLine := current;
        var prompts := ConsumePromptLine(current);
        events := events + prompts;
      } else {
        assert events + [] == events;
      }
      if final && current != "" {
        var flushed := ConsumeCompletedLine(current);
        lastCurrentLine := "";
        events := events + flushed;
      } else {
        assert events + [] == events;
      }
    }
  }
}
