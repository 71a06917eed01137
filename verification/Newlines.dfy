/**
 The newline codec of the Content editor (`content_operations.py`), on decoded characters: detecting the
 policy of a file, showing it to the editor, and encoding the edited text again.
 */
module Newlines {
  import opened Common

  /** The policies of the source, and any other name a caller may pass. */
  datatype Policy = Lf | Crlf | Cr | Mixed | NoNewline | Other(name: string)

  // ----- String operations of Python -----

  predicate StartsWithCrlf(text: string) {
    |text| >= 2 && text[0] == '\r' && text[1] == '\n'
  }

  /** `text.count("\r\n")`. */
  function CountCrlf(text: string): nat {
    if text == [] then 0
    else if StartsWithCrlf(text) then 1 + CountCrlf(text[2..])
    else CountCrlf(text[1..])
  }

  /** `text.replace("\r\n", to)`. */
  function ReplaceCrlf(text: string, to: string): string {
    if text == [] then []
    else if StartsWithCrlf(text) then to + ReplaceCrlf(text[2..], to)
    else [text[0]] + ReplaceCrlf(text[1..], to)
  }

  /** `text.replace(from, to)` for one character. */
  function ReplaceChar(text: string, from: char, to: string): string {
    if text == [] then []
    else (if text[0] == from then to else [text[0]]) + ReplaceChar(text[1..], from, to)
  }

  // ----- The codec -----

  /** `detect_content_newline_policy`. */
  function Detect(text: string): Policy {
    var crlf, remaining := CountCrlf(text), ReplaceCrlf(text, "");
    var kinds := (if crlf > 0 then 1 else 0) + (if '\n' in remaining then 1 else 0) +
        (if '\r' in remaining then 1 else 0);
    if kinds > 1 then Mixed
    else if crlf > 0 then Crlf
    else if '\n' in remaining then Lf
    else if '\r' in remaining then Cr
    else NoNewline
  }

  function Normalized(text: string): string { ReplaceChar(ReplaceCrlf(text, "\n"), '\r', "\n") }

  /** `_editor_text`. */
  function EditorText(text: string, policy: Policy): string {
    if policy in {Crlf, Cr, Mixed} then Normalized(text) else text
  }

  /** `encode_content_editor_text`, before UTF-8. */
  function Encode(text: string, policy: Policy): Result<string, string> {
    var normalized := Normalized(text);
    match policy
    case Crlf => Ok(ReplaceChar(normalized, '\n', "\r\n"))
    case Cr => Ok(ReplaceChar(normalized, '\n', "\r"))
    case Other(name) => Err("Unsupported Content newline policy: " + name)
    case _ => Ok(normalized)
  }

  /** The editor shows a file of one-character breaks as it is, whatever breaks are in it. */
  lemma PlainPoliciesAreShownAsIs(text: string, policy: Policy)
    requires policy !in {Crlf, Cr, Mixed}
    ensures EditorText(text, policy) == text
    ensures policy.Other? <==> Encode(text, policy).Err?
  {
  }

  // ----- What detection finds -----

  ghost predicate HasCrlf(text: string) {
    exists i :: 0 < i < |text| && text[i] == '\n' && text[i - 1] == '\r'
  }

  ghost predicate HasLoneLf(text: string) {
    exists i :: 0 <= i < |text| && text[i] == '\n' && (i > 0 ==> text[i - 1] != '\r')
  }

  ghost predicate HasLoneCr(text: string) {
    exists i :: 0 <= i < |text| && text[i] == '\r' && (i + 1 < |text| ==> text[i + 1] != '\n')
  }

  lemma CrlfOfTail(text: string, n: nat)
    requires n < |text| && n == (if StartsWithCrlf(text) then 1 else 0)
    ensures HasCrlf(text) <==> n == 1 || HasCrlf(text[n + 1..])
  {
    var tail := text[n + 1..];
    if i :| 0 < i < |tail| && tail[i] == '\n' && tail[i - 1] == '\r' {
      assert text[i + n + 1] == '\n' && text[i + n + 1 - 1] == '\r';
    }
    if n == 0 {
      if i :| 0 < i < |text| && text[i] == '\n' && text[i - 1] == '\r' {
        assert tail[i - 1] == '\n' && tail[i - 2] == '\r';
      }
    }
  }

  lemma LoneLfOfTail(text: string, n: nat)
    requires n < |text| && n == (if StartsWithCrlf(text) then 1 else 0)
    ensures HasLoneLf(text) <==> (n == 0 && text[0] == '\n') || HasLoneLf(text[n + 1..])
  {
    var tail := text[n + 1..];
    if i :| 0 <= i < |tail| && tail[i] == '\n' && (i > 0 ==> tail[i - 1] != '\r') {
      assert text[i + n + 1] == '\n' && text[i + n + 1 - 1] != '\r';
    }
    if i :| 0 <= i < |text| && text[i] == '\n' && (i > 0 ==> text[i - 1] != '\r') {
      if i > n { assert tail[i - n - 1] == '\n' && (i > n + 1 ==> tail[i - n - 2] == text[i - 1]); }
    }
  }

  lemma LoneCrOfTail(text: string, n: nat)
    requires n < |text| && n == (if StartsWithCrlf(text) then 1 else 0)
    ensures HasLoneCr(text) <==> (n == 0 && text[0] == '\r') || HasLoneCr(text[n + 1..])
  {
    var tail := text[n + 1..];
    if i :| 0 <= i < |tail| && tail[i] == '\r' && (i + 1 < |tail| ==> tail[i + 1] != '\n') {
      assert text[i + n + 1] == '\r' && (i + n + 2 < |text| ==> text[i + n + 2] == tail[i + 1]);
    }
    if i :| 0 <= i < |text| && text[i] == '\r' && (i + 1 < |text| ==> text[i + 1] != '\n') {
      if i > n { assert tail[i - n - 1] == '\r' && (i + 1 < |text| ==> tail[i - n] == text[i + 1]); }
    }
  }

  lemma {:induction false} CountsAreBreaks(text: string)
    ensures CountCrlf(text) > 0 <==> HasCrlf(text)
    ensures '\n' in ReplaceCrlf(text, "") <==> HasLoneLf(text)
    ensures '\r' in ReplaceCrlf(text, "") <==> HasLoneCr(text)
  {
    if text != [] {
      var n := if StartsWithCrlf(text) then 1 else 0;
      CrlfOfTail(text, n);
      LoneLfOfTail(text, n);
      LoneCrOfTail(text, n);
      CountsAreBreaks(text[n + 1..]);
    }
  }

  /** Detection names the only kind of line break in the text, and says so when there are several or none. */
  lemma DetectionNamesTheOnlyKind(text: string)
    ensures Detect(text) == Crlf <==> HasCrlf(text) && !HasLoneLf(text) && !HasLoneCr(text)
    ensures Detect(text) == Lf <==> HasLoneLf(text) && !HasCrlf(text) && !HasLoneCr(text)
    ensures Detect(text) == Cr <==> HasLoneCr(text) && !HasCrlf(text) && !HasLoneLf(text)
    ensures Detect(text) == NoNewline <==> '\n' !in text && '\r' !in text
    ensures !Detect(text).Other?
  {
    CountsAreBreaks(text);
    if '\n' in text {
      var i :| 0 <= i < |text| && text[i] == '\n';
      assert i > 0 && text[i - 1] == '\r' ==> HasCrlf(text);
    }
    if '\r' in text {
      var i :| 0 <= i < |text| && text[i] == '\r';
      assert i + 1 < |text| && text[i + 1] == '\n' ==> HasCrlf(text) by {
        if i + 1 < |text| && text[i + 1] == '\n' { assert text[(i + 1) - 1] == '\r'; }
      }
    }
  }

  // ----- Normal form -----

  lemma ReplaceCharStep(text: string, rest: string, from: char, to: string)
    requires text != [] && rest == text[1..]
    ensures ReplaceChar(text, from, to) == (if text[0] == from then to else [text[0]]) + ReplaceChar(rest, from, to)
  {
  }

  lemma NormalizedStep(text: string)
    requires text != []
    ensures StartsWithCrlf(text) ==> Normalized(text) == ['\n'] + Normalized(text[2..])
    ensures !StartsWithCrlf(text) ==>
            Normalized(text) == [if text[0] == '\r' then '\n' else text[0]] + Normalized(text[1..])
  {
    var n := if StartsWithCrlf(text) then 2 else 1;
    var first := if StartsWithCrlf(text) then '\n' else text[0];
    assert ReplaceCrlf(text, "\n") == [first] + ReplaceCrlf(text[n..], "\n");
    ReplaceCharStep([first] + ReplaceCrlf(text[n..], "\n"), ReplaceCrlf(text[n..], "\n"), '\r', "\n");
  }

  lemma {:induction false} NormalizedHasNoCr(text: string)
    ensures '\r' !in Normalized(text)
  {
    if text != [] {
      NormalizedStep(text);
      NormalizedHasNoCr(if StartsWithCrlf(text) then text[2..] else text[1..]);
    }
  }

  lemma {:induction false} NormalizedWithoutCr(text: string)
    requires '\r' !in text
    ensures Normalized(text) == text
    ensures CountCrlf(text) == 0 && ReplaceCrlf(text, "") == text
  {
    if text != [] {
      NormalizedStep(text);
      NormalizedWithoutCr(text[1..]);
      assert text == [text[0]] + text[1..];
    }
  }

  /** A break the codec can write. */
  predicate IsBreak(b: string) { b in {"\n", "\r\n", "\r"} }

  lemma {:induction false} WithoutBreaks(text: string, b: string)
    requires '\r' !in text
    ensures b == "\r" ==> '\n' !in ReplaceChar(text, '\n', b)
    ensures b == "\n" ==> ReplaceChar(text, '\n', b) == text
  {
    if text != [] {
      WithoutBreaks(text[1..], b);
      assert text == [text[0]] + text[1..];
    }
  }

  /** Writing the breaks of a normal text one way or another does not change its normal form. */
  lemma {:induction false} NormalizedOfExpanded(text: string, b: string)
    requires '\r' !in text && IsBreak(b)
    ensures Normalized(ReplaceChar(text, '\n', b)) == text
  {
    if text != [] {
      NormalizedOfExpanded(text[1..], b);
      WithoutBreaks(text[1..], b);
      var whole, rest := ReplaceChar(text, '\n', b), ReplaceChar(text[1..], '\n', b);
      NormalizedStep(whole);
      assert text == [text[0]] + text[1..];
      if text[0] == '\n' && b == "\r\n" { assert whole[2..] == rest; }
      else { assert whole[1..] == rest; }
    }
  }

  lemma {:induction false} BreaksOfExpanded(text: string, b: string)
    requires '\r' !in text && IsBreak(b)
    ensures b in {"\r\n", "\r"} ==> '\n' !in ReplaceCrlf(ReplaceChar(text, '\n', b), "")
    ensures b == "\r\n" ==> '\r' !in ReplaceCrlf(ReplaceChar(text, '\n', b), "")
    ensures b == "\r" ==> CountCrlf(ReplaceChar(text, '\n', b)) == 0
  {
    if text != [] {
      BreaksOfExpanded(text[1..], b);
      WithoutBreaks(text[1..], b);
      var whole, rest := ReplaceChar(text, '\n', b), ReplaceChar(text[1..], '\n', b);
      if text[0] == '\n' && b == "\r\n" { assert whole[2..] == rest; }
      else { assert whole[1..] == rest; }
    }
  }

  lemma ExpandedStep(text: string, b: string)
    requires text != []
    ensures
      var rest := if StartsWithCrlf(text) then text[2..] else text[1..];
      ReplaceChar(Normalized(text), '\n', b) ==
      (if StartsWithCrlf(text) || text[0] in {'\r', '\n'} then b else [text[0]]) +
          ReplaceChar(Normalized(rest), '\n', b)
  {
    var rest := if StartsWithCrlf(text) then text[2..] else text[1..];
    NormalizedStep(text);
    ReplaceCharStep(Normalized(text), Normalized(rest), '\n', b);
  }

  lemma {:induction false} CrlfIsRestored(text: string)
    requires '\n' !in ReplaceCrlf(text, "") && '\r' !in ReplaceCrlf(text, "")
    ensures ReplaceChar(Normalized(text), '\n', "\r\n") == text
  {
    if text != [] {
      var n := if StartsWithCrlf(text) then 2 else 1;
      CrlfIsRestored(text[n..]);
      ExpandedStep(text, "\r\n");
      assert text == text[..n] + text[n..];
    }
  }

  lemma {:induction false} CrIsRestored(text: string)
    requires CountCrlf(text) == 0 && '\n' !in ReplaceCrlf(text, "")
    ensures ReplaceChar(Normalized(text), '\n', "\r") == text
  {
    if text != [] {
      CrIsRestored(text[1..]);
      ExpandedStep(text, "\r");
      assert text == text[..1] + text[1..];
    }
  }

  lemma {:induction false} NoCrIsFound(text: string)
    requires CountCrlf(text) == 0 && '\r' !in ReplaceCrlf(text, "")
    ensures '\r' !in text
  {
    if text != [] {
      NoCrIsFound(text[1..]);
      assert text == [text[0]] + text[1..];
    }
  }

  lemma ExpandedIsOriginal(text: string)
    ensures Detect(text) in {Crlf, NoNewline} ==> ReplaceChar(Normalized(text), '\n', "\r\n") == text
    ensures Detect(text) in {Cr, NoNewline} ==> ReplaceChar(Normalized(text), '\n', "\r") == text
    ensures Detect(text) in {Lf, NoNewline} ==> '\r' !in text
  {
    if Detect(text) in {Crlf, NoNewline} { CrlfIsRestored(text); }
    if Detect(text) in {Cr, NoNewline} { CrIsRestored(text); }
    if Detect(text) in {Lf, NoNewline} { NoCrIsFound(text); }
  }

  // ----- Round trips -----

  /** Encoding what the editor shows gives the file back, exactly unless the file mixes kinds of line break. */
  lemma FileSurvivesEditor(text: string)
    ensures Encode(EditorText(text, Detect(text)), Detect(text)) == Ok(text) <==> Detect(text) != Mixed
  {
    DetectionNamesTheOnlyKind(text);
    ExpandedIsOriginal(text);
    var shown := EditorText(text, Detect(text));
    NormalizedHasNoCr(text);
    NormalizedWithoutCr(Normalized(text));
    if Detect(text) in {Lf, NoNewline} { NormalizedWithoutCr(text); }
    if Detect(text) == Mixed && '\r' !in text { NormalizedWithoutCr(text); }
  }

  /** What was saved is shown again on the next opening, whatever policy that opening detects. */
  lemma EditSurvivesReopening(edited: string, policy: Policy)
    ensures Encode(edited, policy).Err? <==> policy.Other?
    ensures !policy.Other? ==>
              var saved := Encode(edited, policy).value;
              EditorText(saved, Detect(saved)) == Normalized(edited)
    ensures '\r' !in edited ==> Normalized(edited) == edited
  {
    if '\r' !in edited { NormalizedWithoutCr(edited); }
    if !policy.Other? {
      SavedIsNormal(edited, policy);
      ReopenedIsNormal(Encode(edited, policy).value);
    }
  }

  lemma SavedIsNormal(edited: string, policy: Policy)
    requires !policy.Other?
    ensures Normalized(Encode(edited, policy).value) == Normalized(edited)
  {
    var normal := Normalized(edited);
    NormalizedHasNoCr(edited);
    NormalizedOfExpanded(normal, "\r\n");
    NormalizedOfExpanded(normal, "\r");
    NormalizedWithoutCr(normal);
  }

  /** The editor shows the normal form of every file. */
  lemma ReopenedIsNormal(saved: string)
    ensures EditorText(saved, Detect(saved)) == Normalized(saved)
  {
    DetectionNamesTheOnlyKind(saved);
    if Detect(saved) in {Lf, NoNewline} {
      ExpandedIsOriginal(saved);
      NormalizedWithoutCr(saved);
    }
  }

  /** Encoding twice is encoding once, and the policy found afterwards is the one asked for, if any. */
  lemma EncodingIsIdempotent(text: string, policy: Policy)
    requires !policy.Other?
    ensures var saved := Encode(text, policy).value;
            && Encode(saved, policy) == Ok(saved)
            && Detect(saved) in (if policy in {Mixed, NoNewline} then {Lf, NoNewline} else {policy, NoNewline})
  {
    var normal := Normalized(text);
    NormalizedHasNoCr(text);
    NormalizedOfExpanded(normal, "\r\n");
    NormalizedOfExpanded(normal, "\r");
    NormalizedWithoutCr(normal);
    BreaksOfExpanded(normal, "\r\n");
    BreaksOfExpanded(normal, "\r");
  }
}
