/**
 The events of the packwiz parser, by what its lines read as.

 The parser sees a history of sightings: completed lines, unfinished lines that may hold a prompt, and the last line of
 a stream.  What it reports at one of them is told here from the readings of the history and the reports before it,
 without the fields that the parser keeps.
 */
module PackwizEvents {
  import opened Common
  import opened Text
  import opened Terminal
  import opened PackwizOutput

  // ----- Sightings -----

  datatype Sighting = Completed(line: string) | Current(line: string) | Last(line: string)

  function See(reader: Reader, p: Parser, s: Sighting): (Parser, seq<Event>) {
    match s
    case Completed(line) => ConsumeLine(reader, p, line)
    case Current(line) => ConsumeCurrent(reader, p, line)
    case Last(line) =>
      var (p, events) := ConsumeLine(reader, p, line);
      (p.(lastCurrent := ""), events)
  }

  /** The text that is read. */
  function Clean(s: Sighting): string { if s.Current? then s.line else Rstrip(s.line) }

  /** A completed line with something on it. */
  predicate IsLine(s: Sighting) { !s.Current? && Clean(s) != "" }

  predicate IsItem(reader: Reader, s: Sighting) { IsLine(s) && reader(Clean(s)).item.Some? }

  predicate IsSearch(reader: Reader, s: Sighting) {
    IsLine(s) && !IsItem(reader, s) && reader(Clean(s)).search.Some?
  }

  /** A completed line that holds a menu prompt. */
  predicate IsPromptLine(reader: Reader, s: Sighting) {
    IsLine(s) && !IsItem(reader, s) && reader(Clean(s)).menuPrompt
  }

  /** The unfinished line that was shown last in a history. */
  function Shown(h: seq<Sighting>): string {
    if h == [] then ""
    else
      match h[|h| - 1]
      case Completed(_) => Shown(h[..|h| - 1])
      case Current(line) => line
      case Last(_) => ""
  }

  /** The text is looked at for prompts: it is a completed line, or an unfinished one that has changed. */
  predicate IsLookedAt(reader: Reader, s: Sighting, shown: string) {
    if s.Current? then s.line != "" && s.line != shown else IsLine(s) && !IsItem(reader, s)
  }

  predicate HasResults(events: seq<Event>) { exists i :: 0 <= i < |events| && events[i].SearchResults? }

  predicate HasConfirmation(events: seq<Event>) { exists i :: 0 <= i < |events| && events[i].Confirmation? }

  // ----- One sighting -----

  /** The prompt in progress is that of the present menu. */
  ghost predicate MenuInv(p: Parser) {
    && (p.lastPrompt.Some? ==> p.promptActive && p.menu != map[] && p.lastPrompt == Some(Signature(p.menu)))
    && (p.promptActive && p.menu != map[] ==> p.lastPrompt.Some?)
  }

  /** The menu is forgotten: at a search, and at the first line after a report that is not a prompt again. */
  predicate Forgets(reader: Reader, active: bool, s: Sighting) {
    IsSearch(reader, s) || (active && IsLine(s) && !IsPromptLine(reader, s))
  }

  predicate Reports(reader: Reader, p: Parser, s: Sighting) {
    && IsLookedAt(reader, s, p.lastCurrent) && reader(Clean(s)).menuPrompt && !IsSearch(reader, s)
    && p.menu != map[] && p.lastPrompt.None?
  }

  /** The present menu is asked about, rather than a confirmation. */
  predicate AsksMenu(reader: Reader, p: Parser, s: Sighting) {
    reader(Clean(s)).menuPrompt && !IsSearch(reader, s) && p.menu != map[]
  }

  /** What was confirmed last is forgotten: at a line that asks for nothing, and at a search. */
  predicate ForgetsConfirmation(reader: Reader, s: Sighting) {
    IsLine(s) && !IsItem(reader, s) && (reader(Clean(s)).confirmation.None? || IsSearch(reader, s))
  }

  predicate Confirms(reader: Reader, p: Parser, s: Sighting) {
    && IsLookedAt(reader, s, p.lastCurrent) && reader(Clean(s)).confirmation.Some? && !AsksMenu(reader, p, s)
    && (ForgetsConfirmation(reader, s) || p.lastConfirmation != reader(Clean(s)).confirmation)
  }

  function Started(reader: Reader, s: Sighting): seq<Event> {
    if IsSearch(reader, s) then [SearchStarted(reader(Clean(s)).search.value)] else []
  }

  function Closing(reader: Reader, s: Sighting): seq<Event> {
    if !IsLine(s) || IsItem(reader, s) then []
    else [if reader(Clean(s)).diagnostic then Diagnostic(Clean(s)) else Output(Clean(s))]
  }

  lemma PromptIs(reader: Reader, p: Parser, line: string)
    requires MenuInv(p) && line != ""
    ensures
      var (q, events) := ConsumePrompt(reader, p, line);
      var asks := reader(line).menuPrompt && p.menu != map[];
      var reports := asks && p.lastPrompt.None?;
      var confirms := !asks && reader(line).confirmation.Some? && p.lastConfirmation != reader(line).confirmation;
      && MenuInv(q) && q.menu == p.menu && q.lastCurrent == p.lastCurrent
      && events == (if reports then [SearchResults(line, p.menu)] else if confirms then [Confirmation(line)] else [])
      && q.promptActive == (p.promptActive || reports) && (q.lastPrompt.Some? <==> p.lastPrompt.Some? || reports)
      && q.lastConfirmation == (if confirms then reader(line).confirmation else p.lastConfirmation)
  {
  }

  /** What a sighting does to the menu and the prompt. */
  lemma SightingIs(reader: Reader, p: Parser, s: Sighting)
    requires MenuInv(p)
    ensures
      var (q, events) := See(reader, p, s);
      var forgets, reports := Forgets(reader, p.promptActive, s), Reports(reader, p, s);
      var kept := if forgets then map[] else p.menu;
      && MenuInv(q)
      && events == Started(reader, s)
                   + (if reports then [SearchResults(Clean(s), p.menu)]
                      else if Confirms(reader, p, s) then [Confirmation(Clean(s))] else [])
                   + Closing(reader, s)
      && q.promptActive == (reports || (p.promptActive && (IsLine(s) ==> IsPromptLine(reader, s))))
      && (q.lastPrompt.Some? <==> reports || (p.lastPrompt.Some? && !forgets))
      && q.menu == (if IsItem(reader, s)
                    then var item := reader(Clean(s)).item.value; kept[item.index := item] else kept)
      && q.lastConfirmation == (if Confirms(reader, p, s) then reader(Clean(s)).confirmation
                                else if ForgetsConfirmation(reader, s) then None else p.lastConfirmation)
      && q.lastCurrent == (match s case Completed(_) => p.lastCurrent case Current(line) => line case Last(_) => "")
  {
    if s.Current? {
      if s.line != "" { PromptIs(reader, p.(lastCurrent := s.line), s.line); }
    } else {
      LineIs(reader, p, s.line);
    }
  }

  lemma LineIs(reader: Reader, p: Parser, line: string)
    requires MenuInv(p)
    ensures
      var s := Completed(line);
      var (q, events) := ConsumeLine(reader, p, line);
      var forgets, reports := Forgets(reader, p.promptActive, s), Reports(reader, p, s);
      var kept := if forgets then map[] else p.menu;
      && MenuInv(q) && q.lastCurrent == p.lastCurrent
      && events == Started(reader, s)
                   + (if reports then [SearchResults(Clean(s), p.menu)]
                      else if Confirms(reader, p, s) then [Confirmation(Clean(s))] else [])
                   + Closing(reader, s)
      && q.promptActive == (reports || (p.promptActive && (IsLine(s) ==> IsPromptLine(reader, s))))
      && (q.lastPrompt.Some? <==> reports || (p.lastPrompt.Some? && !forgets))
      && q.menu == (if IsItem(reader, s)
                    then var item := reader(Clean(s)).item.value; kept[item.index := item] else kept)
      && q.lastConfirmation == (if Confirms(reader, p, s) then reader(Clean(s)).confirmation
                                else if ForgetsConfirmation(reader, s) then None else p.lastConfirmation)
  {
    var s, clean := Completed(line), Rstrip(line);
    if IsLine(s) && !IsItem(reader, s) {
      var reading := reader(clean);
      var taken := p.(normalized := p.normalized + [clean]);
      var left := if p.promptActive && !reading.menuPrompt then ForgetMenu(taken).(promptActive := false) else taken;
      var asked := if reading.confirmation.None? then left.(lastConfirmation := None) else left;
      var started := if reading.search.Some? then ForgetMenu(asked).(lastConfirmation := None) else asked;
      PromptIs(reader, started, clean);
    }
  }

  // ----- Histories -----

  /** The states of the parser over a history and what it reports; its terminal is fed in between. */
  ghost predicate IsTrace(reader: Reader, states: seq<Parser>, h: seq<Sighting>, events: seq<seq<Event>>) {
    && |states| == |h| + 1 && |events| == |h|
    && forall k :: 0 <= k < |h| ==> IsStep(reader, states[k], h[k], states[k + 1], events[k])
  }

  ghost predicate IsStep(reader: Reader, p: Parser, s: Sighting, q: Parser, events: seq<Event>) {
    See(reader, p, s).1 == events && q == See(reader, p, s).0.(terminal := q.terminal)
  }

  /** A parser before it has seen anything. */
  ghost predicate IsFresh(p: Parser) {
    && p.menu == map[] && p.lastPrompt.None? && !p.promptActive && p.lastCurrent == "" && p.lastConfirmation.None?
  }

  /** Results were reported, and every line since holds a prompt. */
  ghost predicate ActiveBefore(reader: Reader, h: seq<Sighting>, events: seq<seq<Event>>, k: nat)
    requires k <= |h| == |events|
  {
    exists i: nat :: i < k && HasResults(events[i]) && OnlyPrompts(reader, h, i + 1, k)
  }

  ghost predicate OnlyPrompts(reader: Reader, h: seq<Sighting>, from: nat, to: nat)
    requires to <= |h|
  {
    forall j: nat :: from <= j < to && IsLine(h[j]) ==> IsPromptLine(reader, h[j])
  }

  /** The menu is forgotten at a search, and at the first line after reported results that holds no prompt. */
  ghost predicate ForgetsAt(reader: Reader, h: seq<Sighting>, events: seq<seq<Event>>, k: nat)
    requires k < |h| == |events|
  {
    || IsSearch(reader, h[k])
    || (ActiveBefore(reader, h, events, k) && IsLine(h[k]) && !IsPromptLine(reader, h[k]))
  }

  ghost predicate NoneForgets(reader: Reader, h: seq<Sighting>, events: seq<seq<Event>>, from: nat, to: nat)
    requires to <= |h| == |events|
  {
    forall j: nat :: from <= j < to ==> !ForgetsAt(reader, h, events, j)
  }

  predicate IsItemOf(reader: Reader, s: Sighting, index: nat) {
    IsItem(reader, s) && reader(Clean(s)).item.value.index == index
  }

  ghost predicate NoneIsItemOf(reader: Reader, h: seq<Sighting>, index: nat, from: nat, to: nat)
    requires to <= |h|
  {
    forall j: nat :: from <= j < to ==> !IsItemOf(reader, h[j], index)
  }

  /** The item line at `i` is the last one with its index, and it has not been forgotten. */
  ghost predicate IsOnMenu(
    reader: Reader, h: seq<Sighting>, events: seq<seq<Event>>, k: nat, index: nat, i: nat)
    requires k <= |h| == |events|
  {
    && i < k && IsItemOf(reader, h[i], index)
    && NoneForgets(reader, h, events, i + 1, k) && NoneIsItemOf(reader, h, index, i + 1, k)
  }

  ghost predicate OnMenu(reader: Reader, h: seq<Sighting>, events: seq<seq<Event>>, k: nat, index: nat)
    requires k <= |h| == |events|
  {
    exists i: nat :: IsOnMenu(reader, h, events, k, index, i)
  }

  /** The items read since the menu was forgotten last, for each index the last one. */
  ghost predicate MenuIs(reader: Reader, h: seq<Sighting>, events: seq<seq<Event>>, k: nat, menu: Menu)
    requires k <= |h| == |events|
  {
    && (forall index: nat :: index in menu <==> OnMenu(reader, h, events, k, index))
    && (forall index: nat, i: nat :: IsOnMenu(reader, h, events, k, index, i) ==>
          index in menu && Some(menu[index]) == reader(Clean(h[i])).item)
  }

  /** Results were reported, and the menu has not been forgotten since. */
  ghost predicate ReportedBefore(reader: Reader, h: seq<Sighting>, events: seq<seq<Event>>, k: nat)
    requires k <= |h| == |events|
  {
    exists i: nat :: i < k && HasResults(events[i]) && NoneForgets(reader, h, events, i + 1, k)
  }

  ghost predicate ConfirmsAt(reader: Reader, h: seq<Sighting>, events: seq<seq<Event>>, i: nat, asked: string)
    requires i < |h| == |events|
  {
    HasConfirmation(events[i]) && reader(Clean(h[i])).confirmation == Some(asked)
  }

  ghost predicate NoneConfirms(reader: Reader, h: seq<Sighting>, events: seq<seq<Event>>, from: nat, to: nat)
    requires to <= |h| == |events|
  {
    forall j: nat :: from <= j < to ==> !HasConfirmation(events[j]) && !ForgetsConfirmation(reader, h[j])
  }

  /** The confirmation was the last one reported, and no line since asked for nothing or started a search. */
  ghost predicate ConfirmedBefore(
    reader: Reader, h: seq<Sighting>, events: seq<seq<Event>>, k: nat, asked: string)
    requires k <= |h| == |events|
  {
    exists i: nat :: i < k && ConfirmsAt(reader, h, events, i, asked) && NoneConfirms(reader, h, events, i + 1, k)
  }

  /** What the fields of the parser say about the history behind it. */
  ghost predicate Remembers(reader: Reader, p: Parser, h: seq<Sighting>, events: seq<seq<Event>>, k: nat)
    requires k <= |h| == |events|
  {
    && MenuInv(p) && p.lastCurrent == Shown(h[..k])
    && (p.promptActive <==> ActiveBefore(reader, h, events, k))
    && MenuIs(reader, h, events, k, p.menu)
    && (p.lastPrompt.Some? <==> ReportedBefore(reader, h, events, k))
    && (forall asked :: p.lastConfirmation == Some(asked) <==> ConfirmedBefore(reader, h, events, k, asked))
  }

  // ----- One sighting more -----

  lemma ActiveStep(reader: Reader, h: seq<Sighting>, events: seq<seq<Event>>, k: nat)
    requires k < |h| == |events|
    ensures ActiveBefore(reader, h, events, k + 1) <==>
              || HasResults(events[k])
              || (ActiveBefore(reader, h, events, k) && (IsLine(h[k]) ==> IsPromptLine(reader, h[k])))
  {
    if HasResults(events[k]) { assert OnlyPrompts(reader, h, k + 1, k + 1); }
    if i: nat :| i < k && HasResults(events[i]) && OnlyPrompts(reader, h, i + 1, k) {
      if IsLine(h[k]) ==> IsPromptLine(reader, h[k]) { assert OnlyPrompts(reader, h, i + 1, k + 1); }
    }
    if i: nat :| i < k + 1 && HasResults(events[i]) && OnlyPrompts(reader, h, i + 1, k + 1) {
      if i < k { assert OnlyPrompts(reader, h, i + 1, k); }
    }
  }

  lemma ReportedStep(reader: Reader, h: seq<Sighting>, events: seq<seq<Event>>, k: nat)
    requires k < |h| == |events|
    ensures ReportedBefore(reader, h, events, k + 1) <==>
              HasResults(events[k]) || (ReportedBefore(reader, h, events, k) && !ForgetsAt(reader, h, events, k))
  {
    if HasResults(events[k]) { assert NoneForgets(reader, h, events, k + 1, k + 1); }
    if i: nat :| i < k && HasResults(events[i]) && NoneForgets(reader, h, events, i + 1, k) {
      if !ForgetsAt(reader, h, events, k) { assert NoneForgets(reader, h, events, i + 1, k + 1); }
    }
    if i: nat :| i < k + 1 && HasResults(events[i]) && NoneForgets(reader, h, events, i + 1, k + 1) {
      if i < k { assert NoneForgets(reader, h, events, i + 1, k); }
    }
  }

  lemma OnMenuStep(reader: Reader, h: seq<Sighting>, events: seq<seq<Event>>, k: nat, index: nat, i: nat)
    requires k < |h| == |events|
    ensures IsOnMenu(reader, h, events, k + 1, index, i) <==>
              || (i == k && IsItemOf(reader, h[k], index))
              || (IsOnMenu(reader, h, events, k, index, i) && !ForgetsAt(reader, h, events, k)
                  && !IsItemOf(reader, h[k], index))
  {
  }

  lemma ConfirmedStep(reader: Reader, h: seq<Sighting>, events: seq<seq<Event>>, k: nat, asked: string)
    requires k < |h| == |events|
    ensures ConfirmedBefore(reader, h, events, k + 1, asked) <==>
              if HasConfirmation(events[k]) then reader(Clean(h[k])).confirmation == Some(asked)
              else ConfirmedBefore(reader, h, events, k, asked) && !ForgetsConfirmation(reader, h[k])
  {
    if ConfirmsAt(reader, h, events, k, asked) { assert NoneConfirms(reader, h, events, k + 1, k + 1); }
    if i: nat :| i < k && ConfirmsAt(reader, h, events, i, asked) && NoneConfirms(reader, h, events, i + 1, k) {
      if !HasConfirmation(events[k]) && !ForgetsConfirmation(reader, h[k]) {
        assert NoneConfirms(reader, h, events, i + 1, k + 1);
      }
    }
    if i: nat :| i < k + 1 && ConfirmsAt(reader, h, events, i, asked) && NoneConfirms(reader, h, events, i + 1, k + 1) {
      if i < k { assert NoneConfirms(reader, h, events, i + 1, k); }
    }
  }

  lemma MenuStep(reader: Reader, h: seq<Sighting>, events: seq<seq<Event>>, k: nat, menu: Menu, next: Menu)
    requires k < |h| == |events| && MenuIs(reader, h, events, k, menu)
    requires
      var kept := if ForgetsAt(reader, h, events, k) then map[] else menu;
      next == if IsItem(reader, h[k])
              then var item := reader(Clean(h[k])).item.value; kept[item.index := item] else kept
    ensures MenuIs(reader, h, events, k + 1, next)
  {
    forall index: nat, i: nat | IsOnMenu(reader, h, events, k + 1, index, i)
      ensures index in next && Some(next[index]) == reader(Clean(h[i])).item
    {
      OnMenuStep(reader, h, events, k, index, i);
    }
    forall index: nat | index in next ensures OnMenu(reader, h, events, k + 1, index) {
      if IsItemOf(reader, h[k], index) {
        OnMenuStep(reader, h, events, k, index, k);
      } else {
        var i: nat :| IsOnMenu(reader, h, events, k, index, i);
        OnMenuStep(reader, h, events, k, index, i);
      }
    }
  }

  lemma EventKinds(reader: Reader, p: Parser, s: Sighting)
    requires MenuInv(p)
    ensures
      var events := See(reader, p, s).1;
      && (HasResults(events) <==> Reports(reader, p, s))
      && (HasConfirmation(events) <==> Confirms(reader, p, s))
  {
    SightingIs(reader, p, s);
    QuestionsAre(
        Started(reader, s),
        if Reports(reader, p, s) then [SearchResults(Clean(s), p.menu)]
        else if Confirms(reader, p, s) then [Confirmation(Clean(s))] else [],
        Closing(reader, s));
  }

  /** Only what stands between the start and the close is a question. */
  lemma QuestionsAre(started: seq<Event>, middle: seq<Event>, closing: seq<Event>)
    requires |middle| <= 1
    requires forall e :: e in started + closing ==> !e.SearchResults? && !e.Confirmation?
    ensures HasResults(started + middle + closing) <==> middle != [] && middle[0].SearchResults?
    ensures HasConfirmation(started + middle + closing) <==> middle != [] && middle[0].Confirmation?
  {
    var events := started + middle + closing;
    assert middle != [] ==> events[|started|] == middle[0];
    forall i | 0 <= i < |events| && i != |started| && middle != []
      ensures !events[i].SearchResults? && !events[i].Confirmation?
    {
      assert events[i] in started + closing;
    }
    assert middle == [] ==> events == started + closing;
  }

  lemma RemembersMenu(
    reader: Reader, p: Parser, q: Parser, h: seq<Sighting>, events: seq<seq<Event>>, k: nat)
    requires k < |h| == |events| && Remembers(reader, p, h, events, k) && IsStep(reader, p, h[k], q, events[k])
    ensures MenuIs(reader, h, events, k + 1, q.menu)
  {
    SightingIs(reader, p, h[k]);
    assert ForgetsAt(reader, h, events, k) <==> Forgets(reader, p.promptActive, h[k]);
    MenuStep(reader, h, events, k, p.menu, q.menu);
  }

  lemma RemembersPrompt(
    reader: Reader, p: Parser, q: Parser, h: seq<Sighting>, events: seq<seq<Event>>, k: nat)
    requires k < |h| == |events| && Remembers(reader, p, h, events, k) && IsStep(reader, p, h[k], q, events[k])
    ensures MenuInv(q) && q.lastCurrent == Shown(h[..k + 1])
    ensures q.promptActive <==> ActiveBefore(reader, h, events, k + 1)
    ensures q.lastPrompt.Some? <==> ReportedBefore(reader, h, events, k + 1)
  {
    SightingIs(reader, p, h[k]);
    EventKinds(reader, p, h[k]);
    ActiveStep(reader, h, events, k);
    ReportedStep(reader, h, events, k);
    assert h[..k + 1][..k] == h[..k];
  }

  lemma RemembersConfirmation(
    reader: Reader, p: Parser, q: Parser, h: seq<Sighting>, events: seq<seq<Event>>, k: nat, asked: string)
    requires k < |h| == |events| && Remembers(reader, p, h, events, k) && IsStep(reader, p, h[k], q, events[k])
    ensures q.lastConfirmation == Some(asked) <==> ConfirmedBefore(reader, h, events, k + 1, asked)
  {
    SightingIs(reader, p, h[k]);
    EventKinds(reader, p, h[k]);
    ConfirmedStep(reader, h, events, k, asked);
  }

  lemma RemembersOneMore(
    reader: Reader, p: Parser, q: Parser, h: seq<Sighting>, events: seq<seq<Event>>, k: nat)
    requires k < |h| == |events| && Remembers(reader, p, h, events, k) && IsStep(reader, p, h[k], q, events[k])
    ensures Remembers(reader, q, h, events, k + 1)
  {
    RemembersMenu(reader, p, q, h, events, k);
    RemembersPrompt(reader, p, q, h, events, k);
    forall asked ensures q.lastConfirmation == Some(asked) <==> ConfirmedBefore(reader, h, events, k + 1, asked) {
      RemembersConfirmation(reader, p, q, h, events, k, asked);
    }
  }

  lemma {:induction false} StateRemembers(
    reader: Reader, states: seq<Parser>, h: seq<Sighting>, events: seq<seq<Event>>, k: nat)
    requires IsTrace(reader, states, h, events) && IsFresh(states[0]) && k <= |h|
    ensures Remembers(reader, states[k], h, events, k)
  {
    if k > 0 {
      StateRemembers(reader, states, h, events, k - 1);
      RemembersOneMore(reader, states[k - 1], states[k], h, events, k - 1);
    }
  }

  // ----- The events of a history -----

  /** The text at `k` is looked at and holds a menu prompt, and does not start a search. */
  ghost predicate IsPromptAt(reader: Reader, h: seq<Sighting>, k: nat)
    requires k < |h|
  {
    && IsLookedAt(reader, h[k], Shown(h[..k])) && reader(Clean(h[k])).menuPrompt && !IsSearch(reader, h[k])
  }

  ghost predicate HasMenu(reader: Reader, h: seq<Sighting>, events: seq<seq<Event>>, k: nat)
    requires k <= |h| == |events|
  {
    exists index: nat :: OnMenu(reader, h, events, k, index)
  }

  lemma MenuIsEmpty(reader: Reader, h: seq<Sighting>, events: seq<seq<Event>>, k: nat, menu: Menu)
    requires k <= |h| == |events| && MenuIs(reader, h, events, k, menu)
    ensures menu != map[] <==> HasMenu(reader, h, events, k)
  {
    if menu != map[] {
      var index: nat :| index in menu;
      assert OnMenu(reader, h, events, k, index);
    }
  }

  lemma ReportsExactlyWhen(reader: Reader, p: Parser, h: seq<Sighting>, events: seq<seq<Event>>, k: nat)
    requires k < |h| == |events| && Remembers(reader, p, h, events, k)
    ensures Reports(reader, p, h[k]) <==>
              && IsPromptAt(reader, h, k) && HasMenu(reader, h, events, k)
              && !ReportedBefore(reader, h, events, k)
  {
    MenuIsEmpty(reader, h, events, k, p.menu);
  }

  lemma ResultsAre(reader: Reader, p: Parser, s: Sighting)
    requires MenuInv(p)
    ensures forall e :: e in See(reader, p, s).1 && e.SearchResults? ==> e.prompt == Clean(s) && e.items == p.menu
  {
    SightingIs(reader, p, s);
  }

  /**
   Over every history: results are reported exactly at a prompt with a menu that was not reported since it was forgotten
   last, and they are the items read since then, for each index the last one.
   */
  lemma ResultsExactlyWhen(reader: Reader, states: seq<Parser>, h: seq<Sighting>, events: seq<seq<Event>>, k: nat)
    requires IsTrace(reader, states, h, events) && IsFresh(states[0]) && k < |h|
    ensures HasResults(events[k]) <==>
              && IsPromptAt(reader, h, k) && HasMenu(reader, h, events, k)
              && !ReportedBefore(reader, h, events, k)
    ensures forall e :: e in events[k] && e.SearchResults? ==>
              e.prompt == Clean(h[k]) && MenuIs(reader, h, events, k, e.items)
  {
    StateRemembers(reader, states, h, events, k);
    assert IsStep(reader, states[k], h[k], states[k + 1], events[k]);
    EventKinds(reader, states[k], h[k]);
    ReportsExactlyWhen(reader, states[k], h, events, k);
    ResultsAre(reader, states[k], h[k]);
  }

  /** A question about the present menu takes precedence over a confirmation. */
  ghost predicate AsksAt(reader: Reader, h: seq<Sighting>, events: seq<seq<Event>>, k: nat, asked: string)
    requires k < |h| == |events|
  {
    && IsLookedAt(reader, h[k], Shown(h[..k])) && reader(Clean(h[k])).confirmation == Some(asked)
    && !(IsPromptAt(reader, h, k) && HasMenu(reader, h, events, k))
  }

  /**
   Over every history: a confirmation is reported exactly where it is asked for, unless it was the one reported last
   and neither a line that asks for nothing nor a search came since.
   */
  lemma ConfirmationExactlyWhen(
    reader: Reader, states: seq<Parser>, h: seq<Sighting>, events: seq<seq<Event>>, k: nat, asked: string)
    requires IsTrace(reader, states, h, events) && IsFresh(states[0]) && k < |h|
    ensures ConfirmsAt(reader, h, events, k, asked) <==>
              && AsksAt(reader, h, events, k, asked)
              && (ForgetsConfirmation(reader, h[k]) || !ConfirmedBefore(reader, h, events, k, asked))
    ensures forall e :: e in events[k] && e.Confirmation? ==> e.prompt == Clean(h[k])
  {
    StateRemembers(reader, states, h, events, k);
    assert IsStep(reader, states[k], h[k], states[k + 1], events[k]);
    MenuIsEmpty(reader, h, events, k, states[k].menu);
    EventKinds(reader, states[k], h[k]);
    SightingIs(reader, states[k], h[k]);
  }

  /**
   Over every history: a sighting reports a search that it starts, then at most one question, and then, for a line that
   is no menu item, the line as a diagnostic or as output; nothing else.
   */
  lemma EventsAre(reader: Reader, states: seq<Parser>, h: seq<Sighting>, events: seq<seq<Event>>, k: nat)
    requires IsTrace(reader, states, h, events) && IsFresh(states[0]) && k < |h|
    ensures
      var question := if HasResults(events[k]) || HasConfirmation(events[k]) then 1 else 0;
      && |events[k]| == |Started(reader, h[k])| + question + |Closing(reader, h[k])|
      && Started(reader, h[k]) <= events[k]
      && events[k][|events[k]| - |Closing(reader, h[k])|..] == Closing(reader, h[k])
      && !(HasResults(events[k]) && HasConfirmation(events[k]))
    ensures IsItem(reader, h[k]) || (!h[k].Current? && !IsLine(h[k])) ==> events[k] == []
  {
    StateRemembers(reader, states, h, events, k);
    assert IsStep(reader, states[k], h[k], states[k + 1], events[k]);
    EventKinds(reader, states[k], h[k]);
    SightingIs(reader, states[k], h[k]);
  }

  // ----- Streams are histories -----

  function Flatten(events: seq<seq<Event>>): seq<Event> {
    if events == [] then [] else events[0] + Flatten(events[1..])
  }

  lemma {:induction false} FlattenJoins(a: seq<seq<Event>>, b: seq<seq<Event>>)
    ensures Flatten(a + b) == Flatten(a) + Flatten(b)
  {
    if a == [] {
      assert a + b == b;
    } else {
      assert (a + b)[0] == a[0] && (a + b)[1..] == a[1..] + b;
      FlattenJoins(a[1..], b);
    }
  }

  function AllCompleted(lines: seq<string>): seq<Sighting> {
    seq(|lines|, i requires 0 <= i < |lines| => Completed(lines[i]))
  }

  /** What a parser sees when a piece of text completes some lines and leaves another one unfinished. */
  function Sightings(completed: seq<string>, current: string, final: bool): seq<Sighting> {
    AllCompleted(completed) + [Current(current)] + if final && current != "" then [Last(current)] else []
  }

  /** A part of a run: its states, what was seen, what was reported, and the two in one list. */
  ghost predicate IsRun(
    reader: Reader, p: Parser, h: seq<Sighting>, q: Parser, all: seq<Event>, states: seq<Parser>,
    events: seq<seq<Event>>)
  {
    && IsTrace(reader, states, h, events) && states[0] == p && states[|h|] == q && Flatten(events) == all
  }

  lemma OneSighting(reader: Reader, p: Parser, s: Sighting)
    ensures IsRun(reader, p, [s], See(reader, p, s).0, See(reader, p, s).1, [p, See(reader, p, s).0],
                  [See(reader, p, s).1])
  {
    var events := See(reader, p, s).1;
    assert [events][1..] == [] && events + [] == events;
  }

  /** Two runs, one after the other; the terminal may be fed in between. */
  lemma RunsJoin(
    reader: Reader, p: Parser, h: seq<Sighting>, q: Parser, all: seq<Event>, states: seq<Parser>,
    events: seq<seq<Event>>, p2: Parser, h2: seq<Sighting>, q2: Parser, all2: seq<Event>, states2: seq<Parser>,
    events2: seq<seq<Event>>)
    requires IsRun(reader, p, h, q, all, states, events) && IsRun(reader, p2, h2, q2, all2, states2, events2)
    requires p2 == q.(terminal := p2.terminal) && (h == [] ==> p2 == p)
    ensures IsRun(reader, p, h + h2, q2, all + all2, states[..|h|] + states2, events + events2)
  {
    FlattenJoins(events, events2);
    TracesJoin(reader, states, h, events, states2, h2, events2);
    assert (states[..|h|] + states2)[0] == p && (states[..|h|] + states2)[|h + h2|] == q2;
  }

  lemma TracesJoin(
    reader: Reader, states: seq<Parser>, h: seq<Sighting>, events: seq<seq<Event>>,
    states2: seq<Parser>, h2: seq<Sighting>, events2: seq<seq<Event>>)
    requires IsTrace(reader, states, h, events) && IsTrace(reader, states2, h2, events2)
    requires states2[0] == states[|h|].(terminal := states2[0].terminal)
    ensures IsTrace(reader, states[..|h|] + states2, h + h2, events + events2)
  {
    var joined := states[..|h|] + states2;
    forall k | 0 <= k < |h + h2|
      ensures IsStep(reader, joined[k], (h + h2)[k], joined[k + 1], (events + events2)[k])
    {
      if k < |h| {
        FedStep(reader, states[k], h[k], states[k + 1], events[k], joined[k + 1]);
      } else {
        FedStep(reader, states2[k - |h|], h2[k - |h|], states2[k - |h| + 1], events2[k - |h|], joined[k + 1]);
      }
    }
  }

  lemma FedStep(reader: Reader, p: Parser, s: Sighting, q: Parser, events: seq<Event>, fed: Parser)
    requires IsStep(reader, p, s, q, events) && fed == q.(terminal := fed.terminal)
    ensures IsStep(reader, p, s, fed, events)
  {
  }

  lemma {:induction false} LinesAreSeen(reader: Reader, p: Parser, lines: seq<string>)
    returns (states: seq<Parser>, events: seq<seq<Event>>)
    ensures
      var (q, all) := ConsumeLines(reader, p, lines);
      IsRun(reader, p, AllCompleted(lines), q, all, states, events)
    decreases |lines|
  {
    if lines == [] {
      states, events := [p], [];
    } else {
      var (next, first) := ConsumeLine(reader, p, lines[0]);
      OneSighting(reader, p, Completed(lines[0]));
      var states2, events2 := LinesAreSeen(reader, next, lines[1..]);
      var (q, all) := ConsumeLines(reader, next, lines[1..]);
      RunsJoin(reader, p, [Completed(lines[0])], next, first, [p, next], [first],
          next, AllCompleted(lines[1..]), q, all, states2, events2);
      assert [Completed(lines[0])] + AllCompleted(lines[1..]) == AllCompleted(lines);
      states, events := [p, next][..1] + states2, [first] + events2;
    }
  }

  lemma DigestIsSeen(reader: Reader, p: Parser, completed: seq<string>, final: bool)
    returns (states: seq<Parser>, events: seq<seq<Event>>)
    ensures
      var (q, all) := Digest(reader, p, completed, final);
      IsRun(reader, p, Sightings(completed, Rstrip(p.terminal.CurrentLine()), final), q, all, states, events)
  {
    var current := Rstrip(p.terminal.CurrentLine());
    RstripTwice(p.terminal.CurrentLine());
    var (consumed, lines) := ConsumeLines(reader, p, completed);
    states, events := LinesAreSeen(reader, p, completed);
    LinesAreKept(reader, p, completed);
    var (prompted, prompts) := ConsumeCurrent(reader, consumed, current);
    OneSighting(reader, consumed, Current(current));
    RunsJoin(reader, p, AllCompleted(completed), consumed, lines, states, events,
        consumed, [Current(current)], prompted, prompts, [consumed, prompted], [prompts]);
    var h := AllCompleted(completed) + [Current(current)];
    states, events := states[..|completed|] + [consumed, prompted], events + [prompts];
    var (flushed, last) := Flush(reader, prompted, current, final);
    if final && current != "" {
      OneSighting(reader, prompted, Last(current));
      RunsJoin(reader, p, h, prompted, lines + prompts, states, events,
          prompted, [Last(current)], flushed, last, [prompted, flushed], [last]);
      states, events := states[..|h|] + [prompted, flushed], events + [last];
    } else {
      assert h + [] == h && lines + prompts + [] == lines + prompts;
    }
  }

  /** A stream that is fed in chunks, the last one as final: what it leaves and all that is reported. */
  function FeedAll(reader: Reader, p: Parser, chunks: seq<string>): (Parser, seq<Event>)
    requires chunks != []
    decreases |chunks|
  {
    if |chunks| == 1 then FeedChunk(reader, p, chunks[0], true)
    else
      var (next, first) := FeedChunk(reader, p, chunks[0], false);
      var (last, rest) := FeedAll(reader, next, chunks[1..]);
      (last, first + rest)
  }

  /** What a parser sees of such a stream: it depends on the text and on where it is cut, and on nothing else. */
  function History(t: Terminal, chunks: seq<string>): seq<Sighting>
    requires chunks != []
    decreases |chunks|
  {
    var (next, completed) := FeedText(t, chunks[0]);
    var seen := Sightings(completed, Rstrip(next.CurrentLine()), |chunks| == 1);
    if |chunks| == 1 then seen else seen + History(next, chunks[1..])
  }

  /** Every stream in chunks is a history, so that the theorems about histories tell its events. */
  lemma {:induction false} StreamIsHistory(reader: Reader, p: Parser, chunks: seq<string>)
    returns (states: seq<Parser>, events: seq<seq<Event>>)
    requires chunks != []
    ensures
      var (q, all) := FeedAll(reader, p, chunks);
      var fed := p.(terminal := FeedText(p.terminal, chunks[0]).0);
      IsRun(reader, fed, History(p.terminal, chunks), q, all, states, events)
    decreases |chunks|
  {
    var (terminal, completed) := FeedText(p.terminal, chunks[0]);
    var fed := p.(terminal := terminal);
    var final := |chunks| == 1;
    states, events := DigestIsSeen(reader, fed, completed, final);
    if !final {
      var (next, first) := FeedChunk(reader, p, chunks[0], false);
      ChunkAdds(reader, p, chunks[0], false);
      var seen := Sightings(completed, Rstrip(terminal.CurrentLine()), false);
      var states2, events2 := StreamIsHistory(reader, next, chunks[1..]);
      var (q, all) := FeedAll(reader, next, chunks[1..]);
      var fed2 := next.(terminal := FeedText(next.terminal, chunks[1]).0);
      RunsJoin(reader, fed, seen, next, first, states, events,
          fed2, History(next.terminal, chunks[1..]), q, all, states2, events2);
      states, events := states[..|seen|] + states2, events + events2;
    }
  }
}
