/**
 `TerminalNormalizer` of `packwiz_parser.py` in the form of the source: an object that is fed a piece of a
 stream at a time.
 */
module TerminalNormalizers {
  import opened Common
  import opened Text
  import opened Terminal

  class TerminalNormalizer {
    var line: string
    var cursor: nat
    var mode: Mode
    var csi: string

    function Abstract(): Terminal
      reads this
    {
      Terminal(Decoder(mode, csi), Line(line, cursor))
    }

    constructor ()
      ensures Abstract() == START
    {
      line, cursor, mode, csi := "", 0, Normal, "";
    }

    method Put(c: char)
      modifies this`line, this`cursor
      ensures Line(line, cursor) == PutChar(old(Line(line, cursor)), c)
    {
      if cursor < |line| {
        line := line[cursor := c];
      } else {
        if cursor > |line| {
          line := line + Blanks(cursor - |line|);
        }
        line := line + [c];
      }
      cursor := cursor + 1;
    }

    method PutTab()
      modifies this`line, this`cursor
      ensures Line(line, cursor) == Execute(old(Line(line, cursor)), Tab)
    {
      var spaces: nat := 8 - cursor % 8;
      ghost var tabbed := PutBlanks(Line(line, cursor), spaces);
      for i := 0 to spaces
        invariant PutBlanks(Line(line, cursor), spaces - i) == tabbed
      {
        Put(' ');
      }
    }

    method ApplyCsi(sequence: string)
      requires sequence != []
      modifies this`line, this`cursor
      ensures Line(line, cursor) == Execute(old(Line(line, cursor)), CsiCommand(sequence))
    {
      var final := sequence[|sequence| - 1];
      var value := FirstParameter(sequence[..|sequence| - 1]);
      var amount := if value != 0 then value else 1;
      if final == 'K' {
        if value == 0 {
          line := line[..Min(cursor, |line|)];
        } else if value == 1 {
          ghost var before := line;
          var count := Min(cursor + 1, |line|);
          for index := 0 to count
            invariant cursor == old(cursor) && line == BlankUpTo(before, index)
          {
            line := line[index := ' '];
          }
        } else if value == 2 {
          line, cursor := "", 0;
        }
      } else if final == 'G' {
        cursor := amount - 1;
      } else if final == 'C' {
        cursor := cursor + amount;
      } else if final == 'D' {
        cursor := if amount <= cursor then cursor - amount else 0;
      }
    }

    method FeedOne(c: char) returns (completed: seq<string>)
      modifies this
      ensures (Abstract(), completed) == FeedChar(old(Abstract()), c)
    {
      completed := [];
      match mode {
        case Osc =>
          if c == BEL { mode := Normal; } else if c == ESC { mode := OscEscape; }
        case OscEscape =>
          mode := if c == '\\' then Normal else Osc;
        case Escape =>
          if c == '[' {
            mode, csi := Csi, "";
          } else {
            mode := if c == ']' then Osc else Normal;
          }
        case Csi =>
          csi := csi + [c];
          if '@' <= c <= '~' {
            ApplyCsi(csi);
            mode, csi := Normal, "";
          }
        case Normal =>
          if c == ESC {
            mode := Escape;
          } else if c == '\r' {
            cursor := 0;
          } else if c == '\n' {
            completed := [Rstrip(RstripNul(line))];
            line, cursor := "", 0;
          } else if c == BACKSPACE {
            cursor := if cursor == 0 then 0 else cursor - 1;
          } else if c == '\t' {
            PutTab();
          } else if c >= ' ' && c != DELETE {
            Put(c);
          }
      }
    }

    method Feed(text: string) returns (completed: seq<string>)
      modifies this
      ensures (Abstract(), completed) == FeedText(old(Abstract()), text)
    {
      completed := [];
      ghost var expected := FeedText(Abstract(), text);
      assert text[0..] == text && [] + expected.1 == expected.1;
      for i := 0 to |text|
        invariant expected == Then(completed, FeedText(Abstract(), text[i..]))
      {
        OneCharMore(Abstract(), completed, text, i);
        var emitted := FeedOne(text[i]);
        completed := completed + emitted;
      }
      assert completed + [] == completed;
    }
  }
}
