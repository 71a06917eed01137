/**
 What a stream asks of the line, by its spelling alone: printable characters, control characters, the control sequences
 of ECMA-48 that the normaliser knows, and what it passes over.
 */
module TerminalControls {
  import opened Text
  import opened Terminal
  import opened TerminalProofs

  // ----- Tokens -----

  datatype Token =
    | Plain(c: char)
    | Control(marks: nat, digits: string, rest: string, final: char)   // ESC [ ?* digits rest final
    | Title(body: string, bell: bool)                                  // ESC ] body BEL, or ESC ] body ESC \
    | Other(c: char)                                                   // ESC c

  predicate IsFinal(c: char) { '@' <= c <= '~' }

  ghost predicate AllDigits(text: string) { forall i :: 0 <= i < |text| ==> IsDigit(text[i]) }

  ghost predicate NoFinal(text: string) { forall i :: 0 <= i < |text| ==> !IsFinal(text[i]) }

  /** A string that goes on: neither BEL nor ESC \ ends it; an ESC before anything else is passed over with it. */
  predicate GoesOn(body: string) {
    || body == ""
    || (body[0] != BEL && body[0] != ESC && GoesOn(body[1..]))
    || (body[0] == ESC && |body| > 1 && body[1] != '\\' && GoesOn(body[2..]))
  }

  ghost predicate WellFormed(token: Token) {
    match token
    case Plain(c) => c != ESC
    case Control(marks, digits, rest, final) =>
      && AllDigits(digits) && NoFinal(rest) && IsFinal(final)
      && (rest != "" ==> !IsDigit(rest[0]) && (digits == "" ==> rest[0] != '?'))
    case Title(body, _) => GoesOn(body)
    case Other(c) => c != '[' && c != ']'
  }

  function Marks(n: nat): string { seq(n, _ => '?') }

  function Spell(token: Token): string {
    match token
    case Plain(c) => [c]
    case Control(marks, digits, rest, final) => [ESC, '['] + (Marks(marks) + digits + rest) + [final]
    case Title(body, bell) => [ESC, ']'] + body + (if bell then [BEL] else [ESC, '\\'])
    case Other(c) => [ESC, c]
  }

  function SpellAll(tokens: seq<Token>): string {
    if tokens == [] then "" else Spell(tokens[0]) + SpellAll(tokens[1..])
  }

  // ----- What a token does -----

  function CellOf(l: Line, i: nat): char { CellAt(l.text, i) }

  /** The cells outside a range are as they were. */
  ghost predicate SameOutside(before: Line, after: Line, from: nat, to: nat) {
    forall i: nat :: i < from || to <= i ==> CellOf(after, i) == CellOf(before, i)
  }

  ghost predicate SameCells(before: Line, after: Line) {
    forall i: nat :: CellOf(after, i) == CellOf(before, i)
  }

  ghost predicate BlankIn(l: Line, from: nat, to: nat) {
    forall i: nat :: from <= i < to ==> CellOf(l, i) == ' '
  }

  ghost predicate BlankFrom(l: Line, from: nat) {
    forall i: nat :: from <= i ==> CellOf(l, i) == ' '
  }

  /** The number that the digits write, at least 1. */
  function Amount(digits: string): nat
    requires forall i :: 0 <= i < |digits| ==> IsDigit(digits[i])
  {
    if ToNat(digits) == 0 then 1 else ToNat(digits)
  }

  ghost predicate PlainActs(c: char, before: Line, after: Line) {
    match c
    case '\r' => SameCells(before, after) && after.cursor == 0
    case '\n' => BlankFrom(after, 0) && after.cursor == 0
    case '\U{08}' =>
      SameCells(before, after) && (if before.cursor == 0 then after.cursor == 0 else after.cursor == before.cursor - 1)
    case '\t' =>
      && before.cursor < after.cursor <= before.cursor + 8 && after.cursor % 8 == 0
      && BlankIn(after, before.cursor, after.cursor) && SameOutside(before, after, before.cursor, after.cursor)
    case _ =>
      if c < ' ' || c == DELETE then after == before
      else
        && CellOf(after, before.cursor) == c && SameOutside(before, after, before.cursor, before.cursor + 1)
        && after.cursor == before.cursor + 1
  }

  ghost predicate ErasureActs(n: nat, before: Line, after: Line) {
    if n == 0 then
      && BlankFrom(after, before.cursor)
      && (forall i: nat :: i < before.cursor ==> CellOf(after, i) == CellOf(before, i))
      && after.cursor == before.cursor
    else if n == 1 then
      && BlankIn(after, 0, before.cursor + 1) && SameOutside(before, after, 0, before.cursor + 1)
      && after.cursor == before.cursor
    else if n == 2 then BlankFrom(after, 0) && after.cursor == 0
    else after == before
  }

  ghost predicate ControlActs(digits: string, final: char, before: Line, after: Line)
    requires AllDigits(digits)
  {
    match final
    case 'C' => SameCells(before, after) && after.cursor == before.cursor + Amount(digits)
    case 'D' =>
      && SameCells(before, after)
      && (if Amount(digits) <= before.cursor then after.cursor == before.cursor - Amount(digits) else after.cursor == 0)
    case 'G' => SameCells(before, after) && after.cursor == Amount(digits) - 1
    case 'K' => ErasureActs(ToNat(digits), before, after)
    case _ => after == before
  }

  /** The token takes the line from one state to the other; a newline completes what the line showed. */
  ghost predicate Acts(token: Token, before: Line, lines: seq<string>, after: Line)
    requires WellFormed(token)
  {
    && (if token == Plain('\n') then |lines| == 1 && Shows((i: nat) => CellOf(before, i), lines[0]) else lines == [])
    && match token
       case Plain(c) => PlainActs(c, before, after)
       case Control(_, digits, _, final) => ControlActs(digits, final, before, after)
       case Title(_, _) => after == before
       case Other(_) => after == before
  }

  // ----- Single tokens -----

  ghost predicate AtRest(t: Terminal) { t.decoder.mode.Normal? && '\0' !in t.line.text }

  lemma {:induction false} BlanksAct(l: Line, n: nat)
    requires '\0' !in l.text
    ensures
      var after := PutBlanks(l, n);
      && after.cursor == l.cursor + n && '\0' !in after.text
      && BlankIn(after, l.cursor, after.cursor) && SameOutside(l, after, l.cursor, after.cursor)
    decreases n
  {
    if n > 0 { BlanksAct(PutChar(l, ' '), n - 1); }
  }

  lemma FeedsOne(t: Terminal, c: char)
    ensures FeedText(t, [c]) == FeedChar(t, c)
  {
    assert [c][1..] == "";
    var (next, first) := FeedChar(t, c);
    assert first + [] == first;
  }

  /** Two characters that complete nothing. */
  lemma FeedsTwo(t: Terminal, a: char, b: char, tail: string, next: Terminal, last: Terminal)
    requires FeedChar(t, a) == (next, []) && FeedChar(next, b) == (last, [])
    ensures FeedText(t, [a, b] + tail) == FeedText(last, tail)
  {
    var text := [a, b] + tail;
    assert text[0] == a && text[1..] == [b] + tail && text[1..][0] == b && text[1..][1..] == tail;
    var r := FeedText(last, tail);
    assert [] + r.1 == r.1;
    assert FeedText(next, text[1..]) == r;
  }

  lemma NewlineActs(t: Terminal)
    requires AtRest(t)
    ensures
      var (u, lines) := FeedChar(t, '\n');
      AtRest(u) && Acts(Plain('\n'), t.line, lines, u.line)
  {
    var cells := (i: nat) => CellOf(t.line, i);
    assert t.CurrentLine() == t.line.text;
    RstripShows(t.line.text, cells);
    var (u, lines) := FeedChar(t, '\n');
    assert lines == [Rstrip(t.line.text)] && u.line == Line("", 0);
  }

  lemma TabActs(t: Terminal)
    requires AtRest(t)
    ensures
      var (u, lines) := FeedChar(t, '\t');
      AtRest(u) && Acts(Plain('\t'), t.line, lines, u.line)
  {
    BlanksAct(t.line, 8 - t.line.cursor % 8);
  }

  lemma PrintableActs(l: Line, c: char)
    requires '\0' !in l.text && c != '\0'
    ensures
      var after := PutChar(l, c);
      && CellOf(after, l.cursor) == c && SameOutside(l, after, l.cursor, l.cursor + 1)
      && after.cursor == l.cursor + 1 && '\0' !in after.text
  {
  }

  lemma PlainTokenActs(t: Terminal, c: char)
    requires AtRest(t) && c != ESC
    ensures
      var (u, lines) := FeedText(t, [c]);
      AtRest(u) && Acts(Plain(c), t.line, lines, u.line)
  {
    FeedsOne(t, c);
    if c == '\n' {
      NewlineActs(t);
    } else if c == '\t' {
      TabActs(t);
    } else {
      OtherPlainActs(t, c);
    }
  }

  lemma OtherPlainActs(t: Terminal, c: char)
    requires AtRest(t) && c !in {ESC, '\n', '\t'}
    ensures
      var (u, lines) := FeedChar(t, c);
      AtRest(u) && lines == [] && PlainActs(c, t.line, u.line)
  {
    if c != '\0' { PrintableActs(t.line, c); }
  }

  /** Parameters are collected until a final byte comes. */
  lemma {:induction false} CollectsParameters(t: Terminal, params: string, tail: string)
    requires t.decoder.mode.Csi? && NoFinal(params)
    ensures FeedText(t, params + tail) == FeedText(t.(decoder := Decoder(Csi, t.decoder.csi + params)), tail)
    decreases |params|
  {
    if params == "" {
      assert params + tail == tail && t.decoder.csi + params == t.decoder.csi;
    } else {
      assert (params + tail)[0] == params[0] && (params + tail)[1..] == params[1..] + tail;
      var next := t.(decoder := Decoder(Csi, t.decoder.csi + [params[0]]));
      assert FeedChar(t, params[0]) == (next, []);
      CollectsParameters(next, params[1..], tail);
      assert t.decoder.csi + [params[0]] + params[1..] == t.decoder.csi + params;
      var rest := FeedText(next, params[1..] + tail);
      assert [] + rest.1 == rest.1;
    }
  }

  lemma {:induction false} MarksAreDropped(n: nat, text: string)
    requires text != "" ==> text[0] != '?'
    ensures DropQuestionMarks(Marks(n) + text) == text
  {
    if n == 0 {
      assert Marks(n) + text == text;
    } else {
      assert (Marks(n) + text)[0] == '?' && (Marks(n) + text)[1..] == Marks(n - 1) + text;
      MarksAreDropped(n - 1, text);
    }
  }

  lemma {:induction false} NumberIsRead(before: string, digits: string, rest: string)
    requires AllDigits(before) && AllDigits(digits) && (rest != "" ==> !IsDigit(rest[0]))
    ensures LeadingNumber(digits + rest, ToNat(before)) == ToNat(before + digits)
    decreases |digits|
  {
    if digits == "" {
      assert digits + rest == rest && before + digits == before;
    } else {
      var more := before + [digits[0]];
      assert more[..|more| - 1] == before;
      assert (digits + rest)[0] == digits[0] && (digits + rest)[1..] == digits[1..] + rest;
      NumberIsRead(more, digits[1..], rest);
      assert more + digits[1..] == before + digits;
    }
  }

  lemma ParameterIs(marks: nat, digits: string, rest: string)
    requires AllDigits(digits) && (rest != "" ==> !IsDigit(rest[0]) && (digits == "" ==> rest[0] != '?'))
    ensures FirstParameter(Marks(marks) + digits + rest) == ToNat(digits)
  {
    assert Marks(marks) + digits + rest == Marks(marks) + (digits + rest);
    MarksAreDropped(marks, digits + rest);
    NumberIsRead("", digits, rest);
    assert "" + digits == digits;
  }

  /** A control sequence leaves what its command does to the line, and completes nothing. */
  lemma SequenceIsExecuted(t: Terminal, params: string, final: char)
    requires t.decoder.mode.Normal? && NoFinal(params) && IsFinal(final)
    ensures FeedText(t, [ESC, '['] + params + [final]) ==
            (Terminal(Decoder(Normal, ""), Execute(t.line, CsiCommand(params + [final]))), [])
  {
    var escaped, entered := t.(decoder := t.decoder.(mode := Escape)), t.(decoder := Decoder(Csi, ""));
    FeedsTwo(t, ESC, '[', params + [final], escaped, entered);
    assert [ESC, '['] + params + [final] == [ESC, '['] + (params + [final]);
    CollectsParameters(entered, params, [final]);
    assert "" + params == params;
    FinalExecutes(entered.(decoder := Decoder(Csi, params)), params, final);
  }

  /** The final byte executes the sequence. */
  lemma FinalExecutes(t: Terminal, params: string, final: char)
    requires t.decoder == Decoder(Csi, params) && IsFinal(final)
    ensures FeedText(t, [final]) ==
            (Terminal(Decoder(Normal, ""), Execute(t.line, CsiCommand(params + [final]))), [])
  {
    FeedsOne(t, final);
  }

  lemma ErasureExecutes(l: Line, n: nat, after: Line)
    requires '\0' !in l.text
    requires after == Execute(l, if n == 0 then EraseRight else if n == 1 then EraseLeft else if n == 2 then EraseAll
                                 else Ignore)
    ensures ErasureActs(n, l, after) && '\0' !in after.text
  {
  }

  lemma ControlTokenActs(t: Terminal, token: Token)
    requires AtRest(t) && token.Control? && WellFormed(token)
    ensures
      var (u, lines) := FeedText(t, Spell(token));
      AtRest(u) && Acts(token, t.line, lines, u.line)
  {
    var params := Marks(token.marks) + token.digits + token.rest;
    assert NoFinal(params) by {
      forall i | 0 <= i < |params| ensures !IsFinal(params[i]) {
        assert params[i] == '?' || params[i] in token.digits || params[i] in token.rest;
      }
    }
    SequenceIsExecuted(t, params, token.final);
    ParameterIs(token.marks, token.digits, token.rest);
    assert (params + [token.final])[..|params|] == params;
    var u := FeedText(t, Spell(token)).0;
    if token.final == 'K' { ErasureExecutes(t.line, ToNat(token.digits), u.line); }
  }

  /** A title is passed over. */
  lemma {:induction false} PassesOver(t: Terminal, body: string, tail: string)
    requires t.decoder.mode.Osc? && GoesOn(body)
    ensures FeedText(t, body + tail) == FeedText(t, tail)
    decreases |body|
  {
    if body == "" {
      assert body + tail == tail;
    } else {
      var text := body + tail;
      assert text[0] == body[0] && text[1..] == body[1..] + tail;
      if body[0] == ESC {
        var escaped := t.(decoder := t.decoder.(mode := OscEscape));
        assert text[1..][0] == body[1] && text[1..][1..] == body[2..] + tail;
        assert FeedChar(t, ESC) == (escaped, []) && FeedChar(escaped, body[1]) == (t, []);
        PassesOver(t, body[2..], tail);
        var r := FeedText(t, body[2..] + tail);
        assert [] + r.1 == r.1;
        assert FeedText(escaped, text[1..]) == r;
      } else {
        assert FeedChar(t, body[0]) == (t, []);
        PassesOver(t, body[1..], tail);
        var r := FeedText(t, body[1..] + tail);
        assert [] + r.1 == r.1;
      }
    }
  }

  lemma TitleActs(t: Terminal, token: Token)
    requires AtRest(t) && token.Title? && WellFormed(token)
    ensures
      var (u, lines) := FeedText(t, Spell(token));
      AtRest(u) && Acts(token, t.line, lines, u.line)
  {
    var escaped, inside := t.(decoder := t.decoder.(mode := Escape)), t.(decoder := t.decoder.(mode := Osc));
    var end := if token.bell then [BEL] else [ESC, '\\'];
    assert Spell(token) == [ESC, ']'] + (token.body + end);
    FeedsTwo(t, ESC, ']', token.body + end, escaped, inside);
    PassesOver(inside, token.body, end);
    if token.bell {
      FeedsOne(inside, BEL);
    } else {
      var leaving := t.(decoder := t.decoder.(mode := OscEscape));
      assert end + [] == end && [ESC, '\\'] + [] == end;
      FeedsTwo(inside, ESC, '\\', [], leaving, t);
    }
  }

  lemma OtherActs(t: Terminal, c: char)
    requires AtRest(t) && c != '[' && c != ']'
    ensures
      var (u, lines) := FeedText(t, [ESC, c]);
      AtRest(u) && Acts(Other(c), t.line, lines, u.line)
  {
    var escaped := t.(decoder := t.decoder.(mode := Escape));
    assert [ESC, c] + [] == [ESC, c];
    FeedsTwo(t, ESC, c, [], escaped, t);
  }

  /** Every token, fed between two others, does to the line what it stands for. */
  lemma TokenActs(t: Terminal, token: Token)
    requires AtRest(t) && WellFormed(token)
    ensures
      var (u, lines) := FeedText(t, Spell(token));
      AtRest(u) && Acts(token, t.line, lines, u.line)
  {
    match token
    case Plain(c) => PlainTokenActs(t, c);
    case Control(_, _, _, _) => ControlTokenActs(t, token);
    case Title(_, _) => TitleActs(t, token);
    case Other(c) => OtherActs(t, c);
  }

  /** A numeral as the only parameter stands for its number. */
  lemma NumberedControlActs(t: Terminal, n: nat, final: char)
    requires AtRest(t) && IsFinal(final)
    ensures
      var (u, lines) := FeedText(t, [ESC, '['] + Numeral(n) + [final]);
      var amount := if n == 0 then 1 else n;
      && lines == []
      && (final == 'C' ==> SameCells(t.line, u.line) && u.line.cursor == t.line.cursor + amount)
      && (final == 'D' ==>
            && SameCells(t.line, u.line)
            && u.line.cursor == if amount <= t.line.cursor then t.line.cursor - amount else 0)
      && (final == 'G' ==> SameCells(t.line, u.line) && u.line.cursor == amount - 1)
      && (final == 'K' ==> ErasureActs(n, t.line, u.line))
      && (final !in {'C', 'D', 'G', 'K'} ==> u.line == t.line)
  {
    NatOfNumeral(n);
    var token := Control(0, Numeral(n), "", final);
    assert Spell(token) == [ESC, '['] + Numeral(n) + [final] by {
      assert Marks(0) + Numeral(n) + "" == Numeral(n);
    }
    ControlTokenActs(t, token);
  }

  // ----- Streams -----

  ghost predicate AllWellFormed(tokens: seq<Token>) {
    forall i :: 0 <= i < |tokens| ==> WellFormed(tokens[i])
  }

  /** The tokens take the line from one state to the other, one after the other, and complete these lines. */
  ghost predicate ActsAll(tokens: seq<Token>, before: Line, lines: seq<string>, after: Line)
    requires AllWellFormed(tokens)
    decreases |tokens|
  {
    if tokens == [] then lines == [] && after == before
    else
      exists n: nat, middle: Line :: n <= |lines| && Acts(tokens[0], before, lines[..n], middle)
                                     && ActsAll(tokens[1..], middle, lines[n..], after)
  }

  lemma {:induction false} StreamActs(t: Terminal, tokens: seq<Token>)
    requires AtRest(t) && AllWellFormed(tokens)
    ensures
      var (u, lines) := FeedText(t, SpellAll(tokens));
      AtRest(u) && ActsAll(tokens, t.line, lines, u.line)
    decreases |tokens|
  {
    if tokens != [] {
      var (next, first) := FeedText(t, Spell(tokens[0]));
      TokenActs(t, tokens[0]);
      StreamActs(next, tokens[1..]);
      FeedTextSplits(t, Spell(tokens[0]), SpellAll(tokens[1..]));
      var (last, rest) := FeedText(next, SpellAll(tokens[1..]));
      var lines := first + rest;
      assert lines[..|first|] == first && lines[|first|..] == rest;
      assert Acts(tokens[0], t.line, lines[..|first|], next.line);
    }
  }

  // ----- Every stream is tokens -----

  /** The start of a token whose end has not come yet. */
  ghost predicate Unfinished(tail: string) {
    || tail == "" || tail == [ESC]
    || (|tail| >= 2 && tail[..2] == [ESC, '['] && NoFinal(tail[2..]))
    || (|tail| >= 2 && tail[..2] == [ESC, ']'] && GoesOn(tail[2..]))
    || (|tail| >= 3 && tail[..2] == [ESC, ']'] && tail[|tail| - 1] == ESC && GoesOn(tail[2..|tail| - 1]))
  }

  lemma UnfinishedActsNot(t: Terminal, tail: string)
    requires AtRest(t) && Unfinished(tail)
    ensures
      var (u, lines) := FeedText(t, tail);
      u.line == t.line && lines == []
  {
    var escaped := t.(decoder := t.decoder.(mode := Escape));
    if tail == [ESC] {
      FeedsOne(t, ESC);
    } else if tail != "" {
      assert tail == [tail[0], tail[1]] + tail[2..];
      if tail[1] == '[' {
        var entered := t.(decoder := Decoder(Csi, ""));
        FeedsTwo(t, ESC, '[', tail[2..], escaped, entered);
        assert tail[2..] + "" == tail[2..];
        CollectsParameters(entered, tail[2..], "");
      } else {
        var inside := t.(decoder := t.decoder.(mode := Osc));
        FeedsTwo(t, ESC, ']', tail[2..], escaped, inside);
        if GoesOn(tail[2..]) {
          assert tail[2..] + "" == tail[2..];
          PassesOver(inside, tail[2..], "");
        } else {
          assert tail[2..] == tail[2..|tail| - 1] + [ESC];
          PassesOver(inside, tail[2..|tail| - 1], [ESC]);
          FeedsOne(inside, ESC);
        }
      }
    }
  }

  /** The parameters of a control sequence: question marks, digits, and the rest. */
  lemma {:induction false} ParametersSplit(params: string) returns (marks: nat, digits: string, rest: string)
    requires NoFinal(params)
    ensures params == Marks(marks) + digits + rest && AllDigits(digits) && NoFinal(rest)
    ensures rest != "" ==> !IsDigit(rest[0]) && (digits == "" ==> rest[0] != '?')
    decreases |params|
  {
    if params != "" && params[0] == '?' {
      marks, digits, rest := ParametersSplit(params[1..]);
      assert params == ['?'] + params[1..] && ['?'] + Marks(marks) == Marks(marks + 1);
      marks := marks + 1;
    } else {
      marks := 0;
      digits, rest := DigitsSplit(params);
    }
  }

  lemma {:induction false} DigitsSplit(text: string) returns (digits: string, rest: string)
    ensures text == digits + rest && AllDigits(digits) && (rest != "" ==> !IsDigit(rest[0]))
    ensures (digits == "" ==> rest == text) && (NoFinal(text) ==> NoFinal(rest))
    decreases |text|
  {
    if text != "" && IsDigit(text[0]) {
      digits, rest := DigitsSplit(text[1..]);
      digits := [text[0]] + digits;
    } else {
      digits, rest := "", text;
    }
  }

  lemma {:induction false} FirstFinal(text: string) returns (n: nat)
    ensures n <= |text| && NoFinal(text[..n]) && (n < |text| ==> IsFinal(text[n]))
    decreases |text|
  {
    if text == "" || IsFinal(text[0]) {
      n := 0;
    } else {
      n := FirstFinal(text[1..]);
      assert text[..n + 1] == [text[0]] + text[1..][..n];
      n := n + 1;
    }
  }

  /** How far a title goes on: to its end, or to the end of the text, with or without a last ESC. */
  lemma {:induction false} TitleEnd(text: string) returns (n: nat)
    ensures n <= |text| && GoesOn(text[..n])
    ensures || n == |text| || text[n] == BEL
            || (text[n] == ESC && (n + 1 == |text| || text[n + 1] == '\\'))
    decreases |text|
  {
    if text == "" || text[0] == BEL || (text[0] == ESC && (|text| == 1 || text[1] == '\\')) {
      n := 0;
    } else if text[0] == ESC {
      n := TitleEnd(text[2..]);
      assert text[..n + 2] == text[..2] + text[2..][..n] && text[..n + 2][2..] == text[2..][..n];
      n := n + 2;
    } else {
      n := TitleEnd(text[1..]);
      assert text[..n + 1][1..] == text[1..][..n];
      n := n + 1;
    }
  }

  /** The first token of a text that starts a control sequence, if there is a whole one. */
  lemma FirstControl(text: string) returns (found: bool, token: Token)
    requires |text| >= 2 && text[..2] == [ESC, '[']
    ensures found ==> WellFormed(token) && Spell(token) != "" && Spell(token) <= text
    ensures !found ==> Unfinished(text)
  {
    var n := FirstFinal(text[2..]);
    found, token := n < |text[2..]|, Plain(text[0]);
    if found {
      var marks, digits, rest := ParametersSplit(text[2..][..n]);
      token := Control(marks, digits, rest, text[2..][n]);
      assert text[2..] == text[2..][..n] + [text[2..][n]] + text[2..][n + 1..];
      assert text == text[..2] + text[2..] == Spell(token) + text[2..][n + 1..];
    } else {
      assert text[2..][..n] == text[2..];
    }
  }

  lemma FirstTitle(text: string) returns (found: bool, token: Token)
    requires |text| >= 2 && text[..2] == [ESC, ']']
    ensures found ==> WellFormed(token) && Spell(token) != "" && Spell(token) <= text
    ensures !found ==> Unfinished(text)
  {
    var rest := text[2..];
    var n := TitleEnd(rest);
    var body := rest[..n];
    assert text == [ESC, ']'] + rest;
    found, token := n < |rest| && (rest[n] == BEL || n + 1 < |rest|), Title(body, n < |rest| && rest[n] == BEL);
    if found {
      var end := if token.bell then [BEL] else [ESC, '\\'];
      assert rest == body + end + rest[n + |end|..];
      assert text == Spell(token) + rest[n + |end|..];
    } else if n == |rest| {
      assert body == rest;
    } else {
      assert text[2..|text| - 1] == body;
    }
  }

  /** The first token of a text, if there is a whole one. */
  lemma FirstToken(text: string) returns (found: bool, token: Token)
    requires text != ""
    ensures found ==> WellFormed(token) && Spell(token) != "" && Spell(token) <= text
    ensures !found ==> Unfinished(text)
  {
    found, token := true, Plain(text[0]);
    if text[0] == ESC {
      if |text| == 1 { return false, token; }
      assert text[..2] == [text[0], text[1]];
      if text[1] == '[' {
        found, token := FirstControl(text);
      } else if text[1] == ']' {
        found, token := FirstTitle(text);
      } else {
        token := Other(text[1]);
      }
    }
  }

  lemma TokenFirst(text: string, token: Token, tokens: seq<Token>, tail: string)
    requires WellFormed(token) && AllWellFormed(tokens) && Spell(token) <= text
    requires text[|Spell(token)|..] == SpellAll(tokens) + tail
    ensures AllWellFormed([token] + tokens) && text == SpellAll([token] + tokens) + tail
  {
    SpellsFirst(token, tokens);
    HeadFirst(text, Spell(token), SpellAll(tokens), tail);
  }

  lemma SpellsFirst(token: Token, tokens: seq<Token>)
    ensures SpellAll([token] + tokens) == Spell(token) + SpellAll(tokens)
  {
    assert ([token] + tokens)[1..] == tokens;
  }

  lemma HeadFirst(text: string, head: string, middle: string, tail: string)
    requires head <= text && text[|head|..] == middle + tail
    ensures text == head + middle + tail
  {
    assert text == head + text[|head|..];
  }

  lemma {:induction false} Tokenise(text: string) returns (tokens: seq<Token>, tail: string)
    ensures AllWellFormed(tokens) && text == SpellAll(tokens) + tail && Unfinished(tail)
    decreases |text|
  {
    tokens, tail := [], text;
    if text != "" {
      var found, token := FirstToken(text);
      if found {
        tokens, tail := Tokenise(text[|Spell(token)|..]);
        TokenFirst(text, token, tokens, tail);
        tokens := [token] + tokens;
      }
    }
  }

  ghost predicate Reads(text: string, tokens: seq<Token>, tail: string) {
    AllWellFormed(tokens) && text == SpellAll(tokens) + tail && Unfinished(tail)
  }

  lemma ReadingActs(text: string, tokens: seq<Token>, tail: string)
    requires Reads(text, tokens, tail)
    ensures
      var (u, lines) := FeedText(START, text);
      ActsAll(tokens, START.line, lines, u.line)
  {
    StreamActs(START, tokens);
    var (middle, first) := FeedText(START, SpellAll(tokens));
    UnfinishedActsNot(middle, tail);
    FeedTextSplits(START, SpellAll(tokens), tail);
    assert first + [] == first;
  }

  /**
   For every stream: it is a sequence of tokens, with at most the start of one more; the line and the completed lines
   are what these tokens make of an empty line.
   */
  lemma EveryStreamActs(text: string)
    ensures exists tokens, tail :: Reads(text, tokens, tail)
    ensures
      var (u, lines) := FeedText(START, text);
      forall tokens, tail :: Reads(text, tokens, tail) ==> ActsAll(tokens, START.line, lines, u.line)
  {
    var tokens, tail := Tokenise(text);
    assert Reads(text, tokens, tail);
    forall tokens, tail | Reads(text, tokens, tail)
      ensures var (u, lines) := FeedText(START, text);
              ActsAll(tokens, START.line, lines, u.line)
    {
      ReadingActs(text, tokens, tail);
    }
  }
}
