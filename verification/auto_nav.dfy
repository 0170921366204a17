/** The background worker of the vendor-registration extension: the running flag
    and iteration counter driven by popup messages, the dispatch on finished page
    loads, the decision the registration page's check makes, and the append of a
    vendor entry to the stored list. */
module AutoNav {
  import opened Wrappers
  import opened JsString
  import VendorIndex

  /** `MAX_ITERATIONS`. */
  const MaxIterations: nat := 5

  /** `URL_A`, the verification page. */
  const UrlA: string := "https://dock.streamedup.com/receipt2/verification"

  /** `URL_B`, the vendor-registration step. */
  const UrlB: string := "https://dock.streamedup.com/receipt2/step/registvendor?step=regist"

  /** `isRunning` and `count`. */
  datatype Nav = Nav(running: bool, count: nat)

  /** The state when the worker starts. */
  const Fresh := Nav(false, 0)

  /** What the worker asks the browser to do next. */
  datatype Command = NoCommand | NavigateToA | RunClickA | RunCheckB

  datatype Step = Step(nav: Nav, command: Command)

  /** `startProcess`: while running and below the limit, count one more iteration
      and send the active tab to the verification page. */
  function StartProcess(n: Nav): (s: Step)
    ensures s.nav.running == n.running
    ensures s.command == NavigateToA <==> n.running && n.count < MaxIterations
    ensures s.command == NavigateToA ==> s.nav.count == n.count + 1
    ensures s.command != NavigateToA ==> s.nav == n && s.command == NoCommand
  {
    if n.running && n.count < MaxIterations then Step(Nav(n.running, n.count + 1), NavigateToA)
    else Step(n, NoCommand)
  }

  /** Calling `startProcess` k times in a row navigates until the limit is reached
      and no further: the counter ends at min(count + k, 5). */
  function StartRepeatedly(n: Nav, k: nat): Nav
    decreases k
  {
    if k == 0 then n else StartRepeatedly(StartProcess(n).nav, k - 1)
  }

  lemma {:induction false} StartRepeatedlyStopsAtLimit(n: Nav, k: nat)
    requires n.running && n.count <= MaxIterations
    ensures StartRepeatedly(n, k).count == if n.count + k <= MaxIterations then n.count + k else MaxIterations
    ensures StartRepeatedly(n, k).running
    decreases k
  {
    if k > 0 {
      StartRepeatedlyStopsAtLimit(StartProcess(n).nav, k - 1);
    }
  }

  /** The popup's messages; everything else the worker receives leaves this state alone. */
  datatype Message = StartMessage | StopMessage | GetStateMessage | OtherMessage

  /** The state after a message, the command it leads to, and the `isRunning` the
      reply reports (none for other messages). */
  datatype Handled = Handled(nav: Nav, command: Command, reply: Option<bool>)

  /** The message listener. */
  function HandleMessage(n: Nav, m: Message): (h: Handled)
    ensures m.StartMessage? ==> h.nav == Nav(true, 1) && h.command == NavigateToA && h.reply == Some(true)
    ensures m.StopMessage? ==> h.nav == Nav(false, n.count) && h.command == NoCommand && h.reply == Some(false)
    ensures m.GetStateMessage? ==> h.nav == n && h.command == NoCommand && h.reply == Some(n.running)
    ensures m.OtherMessage? ==> h.nav == n && h.command == NoCommand && h.reply == None
  {
    match m
    case StartMessage =>
      var s := StartProcess(Nav(true, 0));
      Handled(s.nav, s.command, Some(true))
    case StopMessage => Handled(Nav(false, n.count), NoCommand, Some(false))
    case GetStateMessage => Handled(n, NoCommand, Some(n.running))
    case OtherMessage => Handled(n, NoCommand, None)
  }

  /** The `tabs.onUpdated` listener: a tab finished loading `url` (empty when the
      tab has none). */
  function OnUpdated(n: Nav, url: string, complete: bool): (c: Command)
    ensures !n.running || url == "" || !complete ==> c == NoCommand
    ensures c == RunClickA <==> n.running && complete && url == UrlA
    ensures c == RunCheckB <==> n.running && complete && url != "" && url != UrlA && Contains(url, UrlB)
    ensures c != NavigateToA
  {
    if url == "" || !n.running then NoCommand
    else if complete then
      if url == UrlA then RunClickA
      else if Contains(url, UrlB) then RunCheckB
      else NoCommand
    else NoCommand
  }

  /** What reaches the worker: a popup message, or a tab that finished (or not) loading. */
  datatype Event = Received(message: Message) | Loaded(url: string, complete: bool)

  /** The worker's state after a sequence of events. */
  function Run(n: Nav, events: seq<Event>): Nav
    decreases |events|
  {
    if |events| == 0 then n
    else
      var next := match events[0]
        case Received(m) => HandleMessage(n, m).nav
        case Loaded(_, _) => n;
      Run(next, events[1..])
  }

  /** `startProcess` is only reached from the start message, which first resets the
      counter: whatever the events, the counter never passes 1, far below the limit. */
  lemma {:induction false} CountStaysAtMostOne(n: Nav, events: seq<Event>)
    requires n.count <= 1
    ensures Run(n, events).count <= 1 < MaxIterations
    decreases |events|
  {
    if |events| > 0 {
      var next := match events[0]
        case Received(m) => HandleMessage(n, m).nav
        case Loaded(_, _) => n;
      CountStaysAtMostOne(next, events[1..]);
    }
  }

  /** After a stop message no page load starts a script until the next start message. */
  lemma {:induction false} StoppedStaysIdle(n: Nav, events: seq<Event>, url: string, complete: bool)
    requires forall i :: 0 <= i < |events| ==> events[i] != Received(StartMessage)
    ensures !Run(HandleMessage(n, StopMessage).nav, events).running
    ensures OnUpdated(Run(HandleMessage(n, StopMessage).nav, events), url, complete) == NoCommand
    decreases |events|
  {
    if |events| > 0 {
      var s := HandleMessage(n, StopMessage).nav;
      var next := match events[0]
        case Received(m) => HandleMessage(s, m).nav
        case Loaded(_, _) => s;
      assert !next.running;
      assert HandleMessage(next, StopMessage).nav == next;
      StoppedStaysIdle(next, events[1..], url, complete);
    }
  }

  // ---------------------------------------------------------------- checkElementB

  /** The outcome of one attempt of the registration page's check: try again next
      frame, ask the worker to stop, leave the page alone, or press Escape. */
  datatype CheckOutcome = Retry | StopRun | NoEscape | PressEscape

  /** What the page shows: whether the telephone-key checkbox and the key label
      exist, the checkbox's state and whether the label is hidden, the phone field's
      value (none without the field), whether the vendor table exists and how many
      radios with a value there are. */
  datatype Page = Page(
    checkboxPresent: bool, labelPresent: bool, checked: bool, labelHidden: bool,
    phoneValue: Option<string>, tablePresent: bool, radioCount: nat)

  /** `checkElement` in `checkElementB`; `mode` is the stored operation mode (true for
      mode 2, none when reading storage fails). */
  function CheckElementB(p: Page, mode: Option<bool>): (o: CheckOutcome)
    ensures o == Retry <==> !(p.checkboxPresent && p.labelPresent)
    ensures o == StopRun <==> p.checkboxPresent && p.labelPresent && p.checked && p.labelHidden
    ensures o != Retry && o != StopRun && mode.None? ==> o == PressEscape
    ensures o != Retry && o != StopRun && mode == Some(true) ==> o == NoEscape
  {
    if !(p.checkboxPresent && p.labelPresent) then Retry
    else if p.checked && p.labelHidden then StopRun
    else
      match mode
      case None => PressEscape
      case Some(mode2) =>
        if mode2 then NoEscape
        else
          var hasPhone := p.phoneValue.Some? && p.phoneValue.value != "" && |Trim(p.phoneValue.value)| > 0;
          var hasCandidates := p.tablePresent && p.radioCount > 0;
          if hasPhone && hasCandidates then NoEscape else PressEscape
  }

  /** Once the page is ready and not finished, the worker's check presses Escape
      exactly when the content script's own Escape rule says so. */
  lemma {:induction false} CheckAgreesWithContentScript(p: Page, mode2: bool)
    requires p.checkboxPresent && p.labelPresent && !(p.checked && p.labelHidden)
    ensures CheckElementB(p, Some(mode2)) == PressEscape
      <==> VendorIndex.ShouldPressEscape(mode2, p.phoneValue, p.tablePresent, p.radioCount)
  {
  }

  /** In mode 1 a page with a non-blank phone number and candidates is left alone;
      otherwise Escape is pressed. */
  lemma {:induction false} ModeOneEscape(p: Page)
    requires p.checkboxPresent && p.labelPresent && !(p.checked && p.labelHidden)
    ensures CheckElementB(p, Some(false)) == NoEscape <==>
      p.phoneValue.Some? && |Trim(p.phoneValue.value)| > 0 && p.tablePresent && p.radioCount > 0
  {
  }

  // ---------------------------------------------------------------- handleVendorEntry

  /** `handleVendorEntry`: the stored list (none when nothing is stored yet) with the
      new entry appended. */
  function AppendEntry<T>(stored: Option<seq<T>>, entry: T): (r: seq<T>)
    ensures |r| == |stored.GetOr([])| + 1
    ensures r[..|r| - 1] == stored.GetOr([]) && r[|r| - 1] == entry
  {
    stored.GetOr([]) + [entry]
  }

  /** Entries accumulate in the order they arrive. */
  lemma {:induction false} AppendKeepsArrivalOrder<T>(stored: Option<seq<T>>, a: T, b: T)
    ensures AppendEntry(Some(AppendEntry(stored, a)), b) == stored.GetOr([]) + [a, b]
  {
  }
}
