/** The tmux control-mode client of `mux/src/tmux.rs` as a state machine that
    records the history of its run. */
module TmuxClient {
  import opened Wrappers
  import opened Sequences

  datatype State = WaitForInitialGuard | Idle | WaitingForResponse | Exited

  datatype Command =
    | ListAllPanes(window: nat, prune: bool, checksum: string)
    | ListCommands
    | ListAllWindows(session: nat, only: Option<nat>)
    | NewWindow
    | SplitPane(pane: nat, horizontal: bool)
    | SendKeys(pane: nat, keys: seq<nat>)
    | Resize(pane: nat, cols: nat, rows: nat)
    | CapturePane(pane: nat, history: int)
    | SelectPane(pane: nat)
    | SelectWindow(window: nat)
    | AttachDone

  datatype Event =
    | Guarded
    | ExitEvent
    | LayoutChange(window: nat, layout: string)
    | SessionChanged(session: nat)
    | WindowAdd(window: nat)
    | WindowClose(window: nat)
    | UnlinkedWindowClose(window: nat)
    | WindowPaneChanged(window: nat, pane: nat)
    | OtherEvent

  /** How a command left the queue: with a response handed to it, or unsent
      because its text came out empty. */
  datatype Retired = Answered(command: Command) | Skipped(command: Command)

  /** A command made the outstanding one; `written` tells whether the pane to
      write it to was found. */
  datatype Issue = Issue(command: Command, text: string, written: bool)

  datatype Client = Client(
    state: State, queue: seq<Command>, scheduled: nat,
    session: Option<nat>, guiWindow: bool, attachDone: bool,
    tabs: map<nat, set<nat>>, pendingSplits: seq<nat>,
    // the history of the run
    pushed: seq<Command>, issued: seq<Issue>, retired: seq<Retired>, discarded: seq<Command>,
    splits: seq<nat>, resolved: seq<(nat, nat)>, handled: seq<Command>)

  function Start(): Client {
    Client(WaitForInitialGuard, [], 0, None, false, false, map[], [], [], [], [], [], [], [], [])
  }

  function Push(c: Client, command: Command): Client {
    c.(queue := c.queue + [command], pushed := c.pushed + [command])
  }

  function Schedule(c: Client): Client { c.(scheduled := c.scheduled + 1) }

  // ----- Events from tmux -----

  function Checksum(layout: string): string { if |layout| >= 4 then layout[..4] else "" }

  function OnGuarded(c: Client): Client {
    match c.state
    case WaitForInitialGuard => c.(state := Idle)
    case WaitingForResponse =>
      if c.queue == [] then c
      else c.(state := Idle, queue := c.queue[1..], retired := c.retired + [Answered(c.queue[0])])
    case Idle => c
    case Exited => c
  }

  function OnExit(c: Client): Client {
    c.(state := Exited, queue := [], discarded := c.discarded + c.queue)
  }

  function OnPaneChanged(c: Client, window: nat, pane: nat): Client {
    if window in c.tabs && pane !in c.tabs[window] && c.pendingSplits != [] then
      c.(pendingSplits := c.pendingSplits[1..], resolved := c.resolved + [(c.pendingSplits[0], pane)])
    else c
  }

  function OnEvent(c: Client, e: Event): Client {
    match e
    case Guarded => OnGuarded(c)
    case ExitEvent => OnExit(c)
    case LayoutChange(window, layout) => Push(c, ListAllPanes(window, true, Checksum(layout)))
    case SessionChanged(session) => Push(c.(session := Some(session)), ListCommands)
    case WindowAdd(window) =>
      if c.guiWindow && c.session.Some? then Push(c, ListAllWindows(c.session.value, Some(window))) else c
    case WindowClose(window) => c.(tabs := c.tabs - {window})
    case UnlinkedWindowClose(window) => c.(tabs := c.tabs - {window})
    case WindowPaneChanged(window, pane) => OnPaneChanged(c, window, pane)
    case OtherEvent => c
  }

  /** The events up to an exit, which ends the batch at once; without an exit,
      a send is scheduled if there is something to send. */
  function Advance(c: Client, events: seq<Event>): Client
    decreases |events|
  {
    if events == [] then (if c.state.Idle? && c.queue != [] then Schedule(c) else c)
    else if events[0].ExitEvent? then OnExit(c)
    else Advance(OnEvent(c, events[0]), events[1..])
  }

  // ----- Sending -----

  /** `texts[i]` is what the `i`th queued command would send just now. */
  function SendNext(c: Client, texts: seq<string>, paneFound: bool): Client
    requires |texts| == |c.queue|
    decreases |c.queue|
  {
    if !c.state.Idle? || c.queue == [] then c
    else if texts[0] == "" then
      SendNext(c.(queue := c.queue[1..], retired := c.retired + [Skipped(c.queue[0])]), texts[1..], paneFound)
    else
      c.(state := WaitingForResponse, issued := c.issued + [Issue(c.queue[0], texts[0], paneFound)])
  }

  /** A scheduled send comes up; it does nothing once the domain is gone. */
  function RunScheduled(c: Client, domainFound: bool, texts: seq<string>, paneFound: bool): Client
    requires c.scheduled > 0 && |texts| == |c.queue|
  {
    var c' := c.(scheduled := c.scheduled - 1);
    if domainFound then SendNext(c', texts, paneFound) else c'
  }

  // ----- Producers -----

  /** Every caller that queues one command and asks for it to be sent. */
  function Produce(c: Client, command: Command): Client { Schedule(Push(c, command)) }

  /** A split that tmux is asked for; the promise is kept until its pane shows up. */
  function RequestSplit(c: Client, promise: nat, target: Option<nat>, horizontal: bool): Client {
    match target
    case None => c
    case Some(pane) =>
      var asked := Produce(c, SplitPane(pane, horizontal));
      asked.(pendingSplits := c.pendingSplits + [promise], splits := c.splits + [promise])
  }

  /** The reply to `list-commands`. */
  function CommandsListed(c: Client): Client {
    if c.session.Some? then Produce(c, ListAllWindows(c.session.value, None)) else c
  }

  /** One window of the reply to `list-windows`; `fails` if a pane or the tab of it
      cannot be set up. */
  datatype Window = Window(session: nat, id: nat, active: bool, checksum: string, history: int, panes: seq<nat>,
                           fails: bool)

  function Captures(panes: seq<nat>, history: int): seq<Command> {
    seq(|panes|, i requires 0 <= i < |panes| => CapturePane(panes[i], history))
  }

  function PushAll(c: Client, commands: seq<Command>): Client {
    c.(queue := c.queue + commands, pushed := c.pushed + commands)
  }

  /** What one window adds to the queue. */
  function WindowCommands(w: Window, newWindow: bool): seq<Command> {
    (if newWindow then [] else Captures(w.panes, w.history))
    + (if w.active then [] else [ListAllPanes(w.id, false, w.checksum)])
  }

  /** The windows of the session in turn, up to the first that fails. */
  function SyncWindows(c: Client, windows: seq<Window>, session: nat, newWindow: bool): (Client, bool)
    decreases |windows|
  {
    if windows == [] then (c, true)
    else
      var w := windows[0];
      if w.session != session then SyncWindows(c, windows[1..], session, newWindow)
      else
        var c' := c.(tabs := c.tabs[w.id := set p | p in w.panes]);
        if w.fails then (c', false)
        else SyncWindows(PushAll(c', WindowCommands(w, newWindow)), windows[1..], session, newWindow)
  }

  function ActiveWindow(windows: seq<Window>): seq<Command> {
    if windows == [] then []
    else if windows[0].active then [ListAllPanes(windows[0].id, false, windows[0].checksum)]
    else ActiveWindow(windows[1..])
  }

  /** The reply to `list-windows`: a window that fails ends it early, before the
      send is scheduled. */
  function WindowsListed(c: Client, windows: seq<Window>, newWindow: bool): Client {
    match c.session
    case None => c
    case Some(session) =>
      var (synced, ok) := SyncWindows(c.(guiWindow := true), windows, session, newWindow);
      if !ok then synced
      else Schedule(PushAll(synced, ActiveWindow(windows) + (if c.attachDone then [] else [AttachDone])))
  }

  // ----- Runs -----

  datatype Step =
    | Events(events: seq<Event>)
    | Scheduled(domainFound: bool, texts: seq<string>, paneFound: bool)
    | NewTab
    | Split(promise: nat, target: Option<nat>, horizontal: bool)
    | PtyWrite(pane: nat, keys: seq<nat>)
    | PtyResize(pane: nat, cols: nat, rows: nat)
    | PaneFocused(pane: nat)
    | WindowFocused(window: nat)
    | CommandsReply
    | WindowsReply(session: nat, only: Option<nat>, windows: seq<Window>)
    | AttachReply

  /** The only commands whose text can come out empty. */
  predicate MayBeEmpty(command: Command) { command.ListAllPanes? || command.Resize? }

  /** `command` was answered more often than its reply was handled. */
  predicate Unhandled(c: Client, command: Command) {
    multiset(c.handled)[command] < multiset(Answers(c.retired))[command]
  }

  /** A send comes up once for each time it was scheduled, and a reply is handled
      once for each command of its kind that was answered. */
  predicate Enabled(c: Client, s: Step) {
    match s
    case Scheduled(_, texts, _) =>
      && c.scheduled > 0 && |texts| == |c.queue|
      && forall i | 0 <= i < |texts| :: texts[i] == "" ==> MayBeEmpty(c.queue[i])
    case CommandsReply => Unhandled(c, ListCommands)
    case WindowsReply(session, only, _) => Unhandled(c, ListAllWindows(session, only))
    case AttachReply => Unhandled(c, AttachDone)
    case _ => true
  }

  function Handle(c: Client, command: Command): Client { c.(handled := c.handled + [command]) }

  function Apply(c: Client, s: Step): Client
    requires Enabled(c, s)
  {
    match s
    case Events(events) => Advance(c, events)
    case Scheduled(domainFound, texts, paneFound) => RunScheduled(c, domainFound, texts, paneFound)
    case NewTab => Produce(c, NewWindow)
    case Split(promise, target, horizontal) => RequestSplit(c, promise, target, horizontal)
    case PtyWrite(pane, keys) => Produce(c, SendKeys(pane, keys))
    case PtyResize(pane, cols, rows) => Produce(c, Resize(pane, cols, rows))
    case PaneFocused(pane) => if c.attachDone then Produce(c, SelectPane(pane)) else c
    case WindowFocused(window) => if c.attachDone then Produce(c, SelectWindow(window)) else c
    case CommandsReply => CommandsListed(Handle(c, ListCommands))
    case WindowsReply(session, only, windows) =>
      WindowsListed(Handle(c, ListAllWindows(session, only)), windows, only.Some?)
    case AttachReply => Handle(c, AttachDone).(attachDone := true)
  }

  /** `states[i + 1]` comes from `states[i]` by `steps[i]`. */
  predicate IsRun(states: seq<Client>, steps: seq<Step>) {
    && |states| == |steps| + 1 && states[0] == Start()
    && forall i | 0 <= i < |steps| :: StepsTo(states[i], steps[i], states[i + 1])
  }

  predicate StepsTo(c: Client, s: Step, c': Client) { Enabled(c, s) && c' == Apply(c, s) }

  ghost predicate Reachable(c: Client) {
    exists states, steps :: IsRun(states, steps) && states[|steps|] == c
  }

  // ----- The protocol -----

  function IssuedCommands(issued: seq<Issue>): seq<Command> {
    seq(|issued|, i requires 0 <= i < |issued| => issued[i].command)
  }

  function RetiredCommands(retired: seq<Retired>): seq<Command> {
    seq(|retired|, i requires 0 <= i < |retired| => retired[i].command)
  }

  /** The commands that were handed a response, in order. */
  function Answers(retired: seq<Retired>): seq<Command> {
    if retired == [] then []
    else
      var n := |retired| - 1;
      Answers(retired[..n]) + if retired[n].Answered? then [retired[n].command] else []
  }

  function Promises(resolved: seq<(nat, nat)>): seq<nat> {
    seq(|resolved|, i requires 0 <= i < |resolved| => resolved[i].0)
  }

  /** Which commands were issued and which of them were answered. */
  predicate Pairing(state: State, queue: seq<Command>, issued: seq<Command>, answers: seq<Command>) {
    match state
    case WaitForInitialGuard => issued == answers == []
    case Idle => issued == answers
    case WaitingForResponse => queue != [] && issued == answers + [queue[0]]
    case Exited => answers <= issued && |issued| <= |answers| + 1
  }

  /** Every command pushed is retired once, in the order of pushing, or still
      queued, or was discarded by an exit. */
  predicate Conserved(c: Client) {
    && c.pushed == RetiredCommands(c.retired) + c.discarded + c.queue
    && (!c.state.Exited? ==> c.discarded == [])
  }

  /** Splits get their panes first come, first served. */
  predicate SplitsInOrder(c: Client) { c.splits == Promises(c.resolved) + c.pendingSplits }

  predicate Protocol(c: Client) {
    && Pairing(c.state, c.queue, IssuedCommands(c.issued), Answers(c.retired))
    && Conserved(c) && SplitsInOrder(c)
  }

  // ----- Every step keeps the protocol -----

  lemma {:induction false} RetiredSnoc(retired: seq<Retired>, r: Retired)
    ensures RetiredCommands(retired + [r]) == RetiredCommands(retired) + [r.command]
    ensures Answers(retired + [r]) == Answers(retired) + if r.Answered? then [r.command] else []
  {
    assert (retired + [r])[..|retired|] == retired;
  }

  lemma {:induction false} IssuedSnoc(issued: seq<Issue>, i: Issue)
    ensures IssuedCommands(issued + [i]) == IssuedCommands(issued) + [i.command]
  {
  }

  lemma {:induction false} PushAllKeeps(c: Client, commands: seq<Command>)
    requires Protocol(c)
    ensures Protocol(PushAll(c, commands))
  {
    Assoc(RetiredCommands(c.retired) + c.discarded, c.queue, commands);
  }

  lemma {:induction false} PushKeeps(c: Client, command: Command)
    requires Protocol(c)
    ensures Protocol(Push(c, command))
  {
    PushAllKeeps(c, [command]);
  }

  /** The front of the queue leaves it. */
  lemma {:induction false} RetireConserves(c: Client, r: Retired)
    requires Conserved(c) && c.queue != [] && r.command == c.queue[0] && !c.state.Exited?
    ensures RetiredCommands(c.retired + [r]) + [] + c.queue[1..] == c.pushed
  {
    RetiredSnoc(c.retired, r);
    assert c.queue == [c.queue[0]] + c.queue[1..];
    Assoc(RetiredCommands(c.retired), [c.queue[0]], c.queue[1..]);
    assert RetiredCommands(c.retired) + [] == RetiredCommands(c.retired);
  }

  lemma {:induction false} GuardedKeeps(c: Client)
    requires Protocol(c)
    ensures Protocol(OnGuarded(c))
  {
    if c.state.WaitingForResponse? {
      RetireConserves(c, Answered(c.queue[0]));
      RetiredSnoc(c.retired, Answered(c.queue[0]));
    }
  }

  lemma {:induction false} ExitKeeps(c: Client)
    requires Protocol(c)
    ensures Protocol(OnExit(c))
  {
    Assoc(RetiredCommands(c.retired), c.discarded, c.queue);
    assert RetiredCommands(c.retired) + (c.discarded + c.queue) + []
           == RetiredCommands(c.retired) + (c.discarded + c.queue);
  }

  lemma {:induction false} PaneChangedKeeps(c: Client, window: nat, pane: nat)
    requires Protocol(c)
    ensures Protocol(OnPaneChanged(c, window, pane))
  {
    if c.pendingSplits != [] {
      var promise := c.pendingSplits[0];
      assert Promises(c.resolved + [(promise, pane)]) == Promises(c.resolved) + [promise];
      assert c.pendingSplits == [promise] + c.pendingSplits[1..];
      Assoc(Promises(c.resolved), [promise], c.pendingSplits[1..]);
    }
  }

  lemma {:induction false} EventKeeps(c: Client, e: Event)
    requires Protocol(c)
    ensures Protocol(OnEvent(c, e))
  {
    match e
    case Guarded => GuardedKeeps(c);
    case ExitEvent => ExitKeeps(c);
    case LayoutChange(window, layout) => PushKeeps(c, ListAllPanes(window, true, Checksum(layout)));
    case SessionChanged(session) => PushKeeps(c.(session := Some(session)), ListCommands);
    case WindowAdd(window) =>
      if c.session.Some? {
        PushKeeps(c, ListAllWindows(c.session.value, Some(window)));
      }
    case WindowPaneChanged(window, pane) => PaneChangedKeeps(c, window, pane);
    case _ =>
  }

  lemma {:induction false} AdvanceKeeps(c: Client, events: seq<Event>)
    requires Protocol(c)
    ensures Protocol(Advance(c, events))
    decreases |events|
  {
    if events != [] {
      EventKeeps(c, events[0]);
      if !events[0].ExitEvent? {
        AdvanceKeeps(OnEvent(c, events[0]), events[1..]);
      }
    }
  }

  lemma {:induction false} SendNextKeeps(c: Client, texts: seq<string>, paneFound: bool)
    requires Protocol(c) && |texts| == |c.queue|
    ensures Protocol(SendNext(c, texts, paneFound))
    decreases |c.queue|
  {
    if c.state.Idle? && c.queue != [] {
      if texts[0] == "" {
        RetireConserves(c, Skipped(c.queue[0]));
        RetiredSnoc(c.retired, Skipped(c.queue[0]));
        SendNextKeeps(c.(queue := c.queue[1..], retired := c.retired + [Skipped(c.queue[0])]), texts[1..], paneFound);
      } else {
        IssuedSnoc(c.issued, Issue(c.queue[0], texts[0], paneFound));
      }
    }
  }

  lemma {:induction false} SyncWindowsKeeps(c: Client, windows: seq<Window>, session: nat, newWindow: bool)
    requires Protocol(c)
    ensures Protocol(SyncWindows(c, windows, session, newWindow).0)
    decreases |windows|
  {
    if windows != [] {
      var w := windows[0];
      if w.session != session {
        SyncWindowsKeeps(c, windows[1..], session, newWindow);
      } else if !w.fails {
        var c' := c.(tabs := c.tabs[w.id := set p | p in w.panes]);
        PushAllKeeps(c', WindowCommands(w, newWindow));
        SyncWindowsKeeps(PushAll(c', WindowCommands(w, newWindow)), windows[1..], session, newWindow);
      }
    }
  }

  lemma {:induction false} WindowsListedKeeps(c: Client, windows: seq<Window>, newWindow: bool)
    requires Protocol(c)
    ensures Protocol(WindowsListed(c, windows, newWindow))
  {
    if c.session.Some? {
      SyncWindowsKeeps(c.(guiWindow := true), windows, c.session.value, newWindow);
      PushAllKeeps(SyncWindows(c.(guiWindow := true), windows, c.session.value, newWindow).0,
                   ActiveWindow(windows) + (if c.attachDone then [] else [AttachDone]));
    }
  }

  lemma {:induction false} SplitKeeps(c: Client, promise: nat, target: Option<nat>, horizontal: bool)
    requires Protocol(c)
    ensures Protocol(RequestSplit(c, promise, target, horizontal))
  {
    if target.Some? {
      PushKeeps(c, SplitPane(target.value, horizontal));
      Assoc(Promises(c.resolved), c.pendingSplits, [promise]);
    }
  }

  lemma {:induction false} StepKeepsProtocol(c: Client, s: Step)
    requires Protocol(c) && Enabled(c, s)
    ensures Protocol(Apply(c, s))
  {
    match s
    case Events(events) => AdvanceKeeps(c, events);
    case Scheduled(found, texts, paneFound) => SendNextKeeps(c.(scheduled := c.scheduled - 1), texts, paneFound);
    case NewTab => PushKeeps(c, NewWindow);
    case Split(promise, target, horizontal) => SplitKeeps(c, promise, target, horizontal);
    case PtyWrite(pane, keys) => PushKeeps(c, SendKeys(pane, keys));
    case PtyResize(pane, cols, rows) => PushKeeps(c, Resize(pane, cols, rows));
    case PaneFocused(pane) => PushKeeps(c, SelectPane(pane));
    case WindowFocused(window) => PushKeeps(c, SelectWindow(window));
    case CommandsReply =>
      if c.session.Some? {
        PushKeeps(Handle(c, ListCommands), ListAllWindows(c.session.value, None));
      }
    case WindowsReply(session, only, windows) =>
      WindowsListedKeeps(Handle(c, ListAllWindows(session, only)), windows, only.Some?);
    case AttachReply =>
  }

  /** In every state of every run: at most one command is outstanding, it is the
      front of the queue, and the `k`th response went to the `k`th command issued;
      no command is lost, repeated or overtaken. */
  lemma {:induction false} ProtocolHolds(states: seq<Client>, steps: seq<Step>, i: nat)
    requires IsRun(states, steps) && i < |states|
    ensures Protocol(states[i])
    ensures |states[i].issued| <= |Answers(states[i].retired)| + 1
    ensures forall k | 0 <= k < |Answers(states[i].retired)| ::
              k < |states[i].issued| && Answers(states[i].retired)[k] == states[i].issued[k].command
    ensures states[i].state.WaitingForResponse? ==>
              && states[i].queue != [] && states[i].issued != []
              && states[i].issued[|states[i].issued| - 1].command == states[i].queue[0]
  {
    if i > 0 {
      ProtocolHolds(states, steps, i - 1);
      assert StepsTo(states[i - 1], steps[i - 1], states[i - 1 + 1]);
      StepKeepsProtocol(states[i - 1], steps[i - 1]);
    }
    PairingMeans(states[i]);
  }

  lemma {:induction false} PairingMeans(c: Client)
    requires Protocol(c)
    ensures |c.issued| <= |Answers(c.retired)| + 1
    ensures forall k | 0 <= k < |Answers(c.retired)| :: k < |c.issued| && Answers(c.retired)[k] == c.issued[k].command
    ensures c.state.WaitingForResponse? ==>
              c.queue != [] && c.issued != [] && c.issued[|c.issued| - 1].command == c.queue[0]
  {
    var (issued, answers) := (IssuedCommands(c.issued), Answers(c.retired));
    forall k | 0 <= k < |answers| ensures k < |c.issued| && answers[k] == c.issued[k].command {
      assert issued[k] == c.issued[k].command;
    }
    if c.state.WaitingForResponse? {
      assert issued[|issued| - 1] == c.queue[0];
    }
  }

  // ----- What the steps do, beyond keeping the protocol -----

  /** A send passes over the commands whose text is empty, and issues the first of
      the others with its text; it stays at the front of the queue. */
  lemma {:induction false} FirstWithText(c: Client, texts: seq<string>, paneFound: bool, i: nat)
    requires c.state.Idle? && |texts| == |c.queue| && i < |texts| && texts[i] != ""
    requires forall j | 0 <= j < i :: texts[j] == ""
    ensures var c' := SendNext(c, texts, paneFound);
            && c'.state.WaitingForResponse? && c'.queue == c.queue[i..]
            && c'.issued == c.issued + [Issue(c.queue[i], texts[i], paneFound)]
            && RetiredCommands(c'.retired) == RetiredCommands(c.retired) + c.queue[..i]
            && Answers(c'.retired) == Answers(c.retired)
    decreases i
  {
    if i > 0 {
      var passed := c.(queue := c.queue[1..], retired := c.retired + [Skipped(c.queue[0])]);
      assert forall j | 0 <= j < i - 1 :: texts[1..][j] == texts[j + 1];
      FirstWithText(passed, texts[1..], paneFound, i - 1);
      RetiredSnoc(c.retired, Skipped(c.queue[0]));
      assert c.queue[1..][..i - 1] == c.queue[1..i] && [c.queue[0]] + c.queue[1..i] == c.queue[..i];
      Assoc(RetiredCommands(c.retired), [c.queue[0]], c.queue[1..i]);
      assert Answers(c.retired) + [] == Answers(c.retired);
    } else {
      assert c.queue[0..] == c.queue && c.queue[..0] == [];
      assert RetiredCommands(c.retired) + [] == RetiredCommands(c.retired);
    }
  }

  /** The event by which a pane shows up in a window that is known and that it is not known to be in. */
  ghost predicate ShowsUp(c: Client, events: seq<Event>, pane: nat) {
    exists w :: w in c.tabs && pane !in c.tabs[w] && WindowPaneChanged(w, pane) in events
  }

  /** What an event does to the splits: only such a pane settles one, the oldest. */
  lemma {:induction false} EventSettles(c: Client, e: Event)
    ensures var c' := OnEvent(c, e);
            if e.WindowPaneChanged? && ShowsUp(c, [e], e.pane) && c.pendingSplits != []
            then c'.resolved == c.resolved + [(c.pendingSplits[0], e.pane)] && c'.pendingSplits == c.pendingSplits[1..]
            else c'.resolved == c.resolved && c'.pendingSplits == c.pendingSplits
    ensures forall w | w in OnEvent(c, e).tabs :: w in c.tabs && OnEvent(c, e).tabs[w] == c.tabs[w]
  {
    if e.WindowPaneChanged? {
      assert e in [e];
    }
  }

  lemma {:induction false} BatchSettles(c: Client, events: seq<Event>, k: nat)
    requires |c.resolved| <= k < |Advance(c, events).resolved|
    ensures ShowsUp(c, events, Advance(c, events).resolved[k].1)
    decreases |events|
  {
    if events != [] && !events[0].ExitEvent? {
      var c' := OnEvent(c, events[0]);
      EventSettles(c, events[0]);
      BatchKeepsResolved(c', events[1..]);
      if k < |c'.resolved| {
        assert events[0] in events;
      } else {
        BatchSettles(c', events[1..], k);
      }
    }
  }

  lemma {:induction false} BatchKeepsResolved(c: Client, events: seq<Event>)
    ensures c.resolved <= Advance(c, events).resolved
    decreases |events|
  {
    if events != [] && !events[0].ExitEvent? {
      EventSettles(c, events[0]);
      BatchKeepsResolved(OnEvent(c, events[0]), events[1..]);
    }
  }

  lemma {:induction false} SyncWindowsSettlesNone(c: Client, windows: seq<Window>, session: nat, newWindow: bool)
    ensures SyncWindows(c, windows, session, newWindow).0.resolved == c.resolved
    decreases |windows|
  {
    if windows != [] {
      var w := windows[0];
      var c' := c.(tabs := c.tabs[w.id := set p | p in w.panes]);
      SyncWindowsSettlesNone(c, windows[1..], session, newWindow);
      SyncWindowsSettlesNone(PushAll(c', WindowCommands(w, newWindow)), windows[1..], session, newWindow);
    }
  }

  lemma {:induction false} OnlyEventsSettle(c: Client, s: Step)
    requires Enabled(c, s)
    ensures c.resolved <= Apply(c, s).resolved
    ensures !s.Events? ==> Apply(c, s).resolved == c.resolved
  {
    match s
    case Events(events) => BatchKeepsResolved(c, events);
    case Scheduled(found, texts, paneFound) => SendSettlesNone(c.(scheduled := c.scheduled - 1), texts, paneFound);
    case WindowsReply(session, only, windows) =>
      if c.session.Some? {
        var c' := Handle(c, ListAllWindows(session, only));
        SyncWindowsSettlesNone(c'.(guiWindow := true), windows, c.session.value, only.Some?);
      }
    case _ =>
  }

  lemma {:induction false} SendSettlesNone(c: Client, texts: seq<string>, paneFound: bool)
    requires |texts| == |c.queue|
    ensures SendNext(c, texts, paneFound).resolved == c.resolved
    decreases |c.queue|
  {
    if c.state.Idle? && c.queue != [] && texts[0] == "" {
      SendSettlesNone(c.(queue := c.queue[1..], retired := c.retired + [Skipped(c.queue[0])]), texts[1..], paneFound);
    }
  }

  /** In every run, the pane that a split got had shown up, when it got it, in a window
      that was known and without having been known to be in it. */
  lemma {:induction false} SettledByNewPane(states: seq<Client>, steps: seq<Step>, i: nat, k: nat) returns (j: nat)
    requires IsRun(states, steps) && i < |states| && k < |states[i].resolved|
    ensures j < i && steps[j].Events? && ShowsUp(states[j], steps[j].events, states[i].resolved[k].1)
  {
    assert i > 0;
    assert StepsTo(states[i - 1], steps[i - 1], states[i - 1 + 1]);
    OnlyEventsSettle(states[i - 1], steps[i - 1]);
    if k < |states[i - 1].resolved| {
      j := SettledByNewPane(states, steps, i - 1, k);
    } else {
      j := i - 1;
      BatchSettles(states[j], steps[j].events, k);
    }
  }

  /** What an event adds to the queue. */
  lemma {:induction false} EventAsks(c: Client, e: Event)
    requires !e.ExitEvent?
    ensures var c' := OnEvent(c, e);
            c'.pushed == c.pushed + match e
              case LayoutChange(window, layout) =>
                [ListAllPanes(window, true, if |layout| < 4 then "" else [layout[0], layout[1], layout[2], layout[3]])]
              case SessionChanged(_) => [ListCommands]
              case WindowAdd(window) =>
                if c.session.Some? && c.guiWindow then [ListAllWindows(c.session.value, Some(window))] else []
              case _ => []
    ensures var c' := OnEvent(c, e);
            && c'.session == (if e.SessionChanged? then Some(e.session) else c.session)
            && (forall w :: w in c'.tabs <==>
                  w in c.tabs && !(e.WindowClose? && e.window == w) && !(e.UnlinkedWindowClose? && e.window == w))
  {
    assert c.pushed + [] == c.pushed;
    if e.LayoutChange? && |e.layout| >= 4 {
      assert e.layout[..4] == [e.layout[0], e.layout[1], e.layout[2], e.layout[3]];
    }
  }

  /** What the producers and the handlers of short replies add to the queue; each
      time they ask once for a send. */
  lemma {:induction false} ProducerAsks(c: Client, s: Step)
    requires Enabled(c, s) && !s.Events? && !s.Scheduled? && !s.WindowsReply?
    ensures var (c', asked) := (Apply(c, s), match s
              case NewTab => [NewWindow]
              case Split(_, Some(pane), horizontal) => [SplitPane(pane, horizontal)]
              case PtyWrite(pane, keys) => [SendKeys(pane, keys)]
              case PtyResize(pane, cols, rows) => [Resize(pane, cols, rows)]
              case PaneFocused(pane) => if c.attachDone then [SelectPane(pane)] else []
              case WindowFocused(window) => if c.attachDone then [SelectWindow(window)] else []
              case CommandsReply => if c.session.Some? then [ListAllWindows(c.session.value, None)] else []
              case _ => []);
            && c'.pushed == c.pushed + asked && c'.queue == c.queue + asked
            && c'.scheduled == c.scheduled + |asked|
            && c'.splits == c.splits + (if s.Split? && s.target.Some? then [s.promise] else [])
            && c'.attachDone == (c.attachDone || s.AttachReply?)
  {
    assert c.pushed + [] == c.pushed && c.queue + [] == c.queue && c.splits + [] == c.splits;
  }

  /** The first active window comes last, whichever session it is in. */
  lemma {:induction false} ActiveIsLast(windows: seq<Window>, i: nat)
    requires i <= |windows| && forall j :: 0 <= j < i ==> !windows[j].active
    ensures i == |windows| ==> ActiveWindow(windows) == []
    ensures i < |windows| && windows[i].active ==>
              ActiveWindow(windows) == [ListAllPanes(windows[i].id, false, windows[i].checksum)]
  {
    if i > 0 {
      ActiveIsLast(windows[1..], i - 1);
    }
  }

  /** A command that one of the windows of the session calls for. */
  predicate CalledFor(cmd: Command, windows: seq<Window>, session: nat, newWindow: bool) {
    exists i :: 0 <= i < |windows| && windows[i].session == session && CalledForBy(cmd, windows[i], newWindow)
  }

  predicate CalledForBy(cmd: Command, w: Window, newWindow: bool) {
    || (cmd.CapturePane? && !newWindow && cmd.pane in w.panes && cmd.history == w.history)
    || (cmd == ListAllPanes(w.id, false, w.checksum) && !w.active)
  }

  lemma {:induction false} CommandsOf(w: Window, newWindow: bool)
    ensures forall cmd :: cmd in WindowCommands(w, newWindow) <==> CalledForBy(cmd, w, newWindow)
  {
    var captures := Captures(w.panes, w.history);
    forall cmd
      ensures cmd in captures <==> cmd.CapturePane? && cmd.pane in w.panes && cmd.history == w.history
    {
      if cmd.CapturePane? && cmd.pane in w.panes && cmd.history == w.history {
        var i :| 0 <= i < |w.panes| && w.panes[i] == cmd.pane;
        assert captures[i] == cmd;
      }
    }
  }

  /** A reply to `list-windows` that does not fail queues the commands that the
      windows of the session call for and no others, and every window of the session
      is known afterwards, and the windows known before still are. */
  lemma {:induction false} SyncedCommands(c: Client, windows: seq<Window>, session: nat, newWindow: bool)
    returns (more: seq<Command>)
    requires SyncWindows(c, windows, session, newWindow).1
    ensures SyncWindows(c, windows, session, newWindow).0.queue == c.queue + more
    ensures forall cmd :: cmd in more <==> CalledFor(cmd, windows, session, newWindow)
    ensures forall id :: id in SyncWindows(c, windows, session, newWindow).0.tabs <==>
              id in c.tabs || exists i :: 0 <= i < |windows| && windows[i].session == session && windows[i].id == id
    decreases |windows|
  {
    if windows == [] {
      more := [];
      assert c.queue + [] == c.queue;
    } else {
      var (w, rest) := (windows[0], windows[1..]);
      assert forall i :: 0 < i < |windows| ==> rest[i - 1] == windows[i];
      if w.session != session {
        more := SyncedCommands(c, rest, session, newWindow);
        CalledForRest([], windows, session, newWindow);
      } else {
        var c' := c.(tabs := c.tabs[w.id := set p | p in w.panes]);
        var first := WindowCommands(w, newWindow);
        var later := SyncedCommands(PushAll(c', first), rest, session, newWindow);
        CommandsOf(w, newWindow);
        CalledForRest(first, windows, session, newWindow);
        more := first + later;
        Assoc(c.queue, first, later);
      }
    }
  }

  lemma {:induction false} CalledForRest(first: seq<Command>, windows: seq<Window>, session: nat, newWindow: bool)
    requires windows != []
    requires forall cmd :: cmd in first <==> windows[0].session == session && CalledForBy(cmd, windows[0], newWindow)
    ensures forall cmd :: CalledFor(cmd, windows, session, newWindow)
              <==> cmd in first || CalledFor(cmd, windows[1..], session, newWindow)
  {
    var rest := windows[1..];
    forall cmd
      ensures CalledFor(cmd, windows, session, newWindow) <==> cmd in first || CalledFor(cmd, rest, session, newWindow)
    {
      if CalledFor(cmd, windows, session, newWindow) {
        var i :| 0 <= i < |windows| && windows[i].session == session && CalledForBy(cmd, windows[i], newWindow);
        assert i > 0 ==> rest[i - 1] == windows[i];
      }
      if CalledFor(cmd, rest, session, newWindow) {
        var i :| 0 <= i < |rest| && rest[i].session == session && CalledForBy(cmd, rest[i], newWindow);
        assert windows[i + 1] == rest[i];
      }
    }
  }

  // ----- After the exit -----

  /** Once the session has ended, nothing is issued or answered any more. */
  predicate Quiet(c: Client, c': Client) {
    c.state.Exited? ==> c'.state.Exited? && c'.issued == c.issued && c'.retired == c.retired
  }

  lemma {:induction false} AdvanceQuiet(c: Client, events: seq<Event>)
    ensures Quiet(c, Advance(c, events))
    decreases |events|
  {
    if events != [] && !events[0].ExitEvent? {
      AdvanceQuiet(OnEvent(c, events[0]), events[1..]);
    }
  }

  lemma {:induction false} SyncWindowsQuiet(c: Client, windows: seq<Window>, session: nat, newWindow: bool)
    ensures var c' := SyncWindows(c, windows, session, newWindow).0;
            c'.state == c.state && c'.issued == c.issued && c'.retired == c.retired && c'.scheduled == c.scheduled
    decreases |windows|
  {
    if windows != [] {
      var w := windows[0];
      var c' := c.(tabs := c.tabs[w.id := set p | p in w.panes]);
      SyncWindowsQuiet(c, windows[1..], session, newWindow);
      SyncWindowsQuiet(PushAll(c', WindowCommands(w, newWindow)), windows[1..], session, newWindow);
    }
  }

  lemma {:induction false} StepQuiet(c: Client, s: Step)
    requires Enabled(c, s)
    ensures Quiet(c, Apply(c, s))
  {
    match s
    case Events(events) => AdvanceQuiet(c, events);
    case WindowsReply(session, only, windows) =>
      if c.session.Some? {
        var c' := Handle(c, ListAllWindows(session, only));
        SyncWindowsQuiet(c'.(guiWindow := true), windows, c.session.value, only.Some?);
      }
    case _ =>
  }

  lemma {:induction false} NothingAfterExit(states: seq<Client>, steps: seq<Step>, i: nat, j: nat)
    requires IsRun(states, steps) && i <= j < |states| && states[i].state.Exited?
    ensures states[j].state.Exited? && states[j].issued == states[i].issued && states[j].retired == states[i].retired
    decreases j - i
  {
    if i < j {
      NothingAfterExit(states, steps, i, j - 1);
      assert StepsTo(states[j - 1], steps[j - 1], states[j - 1 + 1]);
      StepQuiet(states[j - 1], steps[j - 1]);
    }
  }

  // ----- Wakeups -----

  /** A command waits to be sent only while a send is on its way. */
  predicate NoLostWakeup(c: Client) { c.state.Idle? && c.queue != [] ==> c.scheduled > 0 }

  lemma {:induction false} AdvanceWakes(c: Client, events: seq<Event>)
    ensures NoLostWakeup(Advance(c, events))
    decreases |events|
  {
    if events != [] && !events[0].ExitEvent? {
      AdvanceWakes(OnEvent(c, events[0]), events[1..]);
    }
  }

  /** A send that finds its domain leaves the client waiting or with nothing to send. */
  lemma {:induction false} SendNextSettles(c: Client, texts: seq<string>, paneFound: bool)
    requires |texts| == |c.queue|
    ensures var c' := SendNext(c, texts, paneFound); c'.state.Idle? ==> c'.queue == []
    ensures var c' := SendNext(c, texts, paneFound);
            c.state.Idle? && (exists i | 0 <= i < |texts| :: texts[i] != "") ==>
              && c'.state.WaitingForResponse? && |c'.issued| == |c.issued| + 1
              && c'.issued[|c.issued|].written == paneFound
    decreases |c.queue|
  {
    if c.state.Idle? && c.queue != [] && texts[0] == "" {
      assert forall i | 0 < i < |texts| :: texts[1..][i - 1] == texts[i];
      SendNextSettles(c.(queue := c.queue[1..], retired := c.retired + [Skipped(c.queue[0])]), texts[1..], paneFound);
    }
  }

  /** A reply to `list-windows` that queues commands for some windows and then fails. */
  predicate FailsAfterPush(windows: seq<Window>, session: nat, newWindow: bool, pushed: bool) {
    windows != []
    && if windows[0].session != session then FailsAfterPush(windows[1..], session, newWindow, pushed)
    else if windows[0].fails then pushed
    else FailsAfterPush(windows[1..], session, newWindow, pushed || WindowCommands(windows[0], newWindow) != [])
  }

  lemma {:induction false} SyncWindowsPushes(c: Client, windows: seq<Window>, session: nat, newWindow: bool)
    ensures var (c', ok) := SyncWindows(c, windows, session, newWindow);
            && (c.queue != [] ==> c'.queue != [])
            && (!ok && c'.queue != [] <==> FailsAfterPush(windows, session, newWindow, c.queue != []))
    decreases |windows|
  {
    if windows != [] {
      var w := windows[0];
      if w.session != session {
        SyncWindowsPushes(c, windows[1..], session, newWindow);
      } else if !w.fails {
        var c' := c.(tabs := c.tabs[w.id := set p | p in w.panes]);
        SyncWindowsPushes(PushAll(c', WindowCommands(w, newWindow)), windows[1..], session, newWindow);
      }
    }
  }

  /** The steps that can lose a wakeup: a send that comes up when the domain is
      gone and was the last one on its way, and a failing reply to `list-windows`. */
  predicate Loses(c: Client, s: Step) {
    match s
    case Scheduled(domainFound, _, _) => !domainFound && c.state.Idle? && c.queue != [] && c.scheduled == 1
    case WindowsReply(_, only, windows) =>
      && c.state.Idle? && c.scheduled == 0 && c.session.Some?
      && FailsAfterPush(windows, c.session.value, only.Some?, false)
    case _ => false
  }

  /** Exactly those do. */
  lemma {:induction false} StepWakes(c: Client, s: Step)
    requires NoLostWakeup(c) && Enabled(c, s)
    ensures NoLostWakeup(Apply(c, s)) <==> !Loses(c, s)
  {
    match s
    case Events(events) => AdvanceWakes(c, events);
    case Scheduled(found, texts, paneFound) => SendNextSettles(c.(scheduled := c.scheduled - 1), texts, paneFound);
    case WindowsReply(session, only, windows) =>
      if c.session.Some? {
        var c' := Handle(c, ListAllWindows(session, only));
        SyncWindowsPushes(c'.(guiWindow := true), windows, c.session.value, only.Some?);
        SyncWindowsQuiet(c'.(guiWindow := true), windows, c.session.value, only.Some?);
      }
    case _ =>
  }

  /** In a run without such steps no wakeup is ever lost. */
  lemma {:induction false} WakeupsKept(states: seq<Client>, steps: seq<Step>, i: nat)
    requires IsRun(states, steps) && i < |states|
    requires forall j | 0 <= j < |steps| :: !Loses(states[j], steps[j])
    ensures NoLostWakeup(states[i])
  {
    if i > 0 {
      WakeupsKept(states, steps, i - 1);
      assert StepsTo(states[i - 1], steps[i - 1], states[i - 1 + 1]);
      StepWakes(states[i - 1], steps[i - 1]);
    }
  }

  // ----- Two runs -----

  lemma {:induction false} OneEvent(c: Client, e: Event)
    requires !e.ExitEvent?
    ensures Advance(c, [e]) == Advance(OnEvent(c, e), [])
  {
    assert [e][1..] == [];
  }

  lemma {:induction false} TwoEvents(c: Client, e: Event, f: Event)
    requires !e.ExitEvent? && !f.ExitEvent?
    ensures Advance(c, [e, f]) == Advance(OnEvent(OnEvent(c, e), f), [])
  {
    assert [e, f][1..] == [f];
    OneEvent(OnEvent(c, e), f);
  }

  /** A client in session 1 that has issued and answered `done`, handled the replies
      to `handled`, and nothing else. */
  function Served(done: seq<(Command, string)>, handled: seq<Command>): Client {
    Start().(state := Idle, session := Some(1), handled := handled,
             pushed := seq(|done|, i requires 0 <= i < |done| => done[i].0),
             issued := seq(|done|, i requires 0 <= i < |done| => Issue(done[i].0, done[i].1, true)),
             retired := seq(|done|, i requires 0 <= i < |done| => Answered(done[i].0)))
  }

  /** The same client waiting for the response to one more command. */
  function Sent(done: seq<(Command, string)>, handled: seq<Command>, command: Command, text: string, written: bool)
    : Client {
    var c := Push(Served(done, handled), command);
    c.(state := WaitingForResponse, issued := c.issued + [Issue(command, text, written)])
  }

  /** The first batch of events: a session, and the guard that ends the greeting. */
  lemma {:induction false} Greeted()
    ensures StepsTo(Start(), Events([SessionChanged(1), Guarded]), Produce(Served([], []), ListCommands))
  {
    TwoEvents(Start(), SessionChanged(1), Guarded);
  }

  lemma {:induction false} SendsFront(done: seq<(Command, string)>, handled: seq<Command>, command: Command,
                                      text: string, paneFound: bool)
    requires text != ""
    ensures StepsTo(Produce(Served(done, handled), command), Scheduled(true, [text], paneFound),
                    Sent(done, handled, command, text, paneFound))
  {
    assert Served(done, handled).queue + [command] == [command];
  }

  lemma {:induction false} AnswersFront(done: seq<(Command, string)>, handled: seq<Command>, command: Command,
                                        text: string)
    ensures StepsTo(Sent(done, handled, command, text, true), Events([Guarded]),
                    Served(done + [(command, text)], handled))
  {
    var c := Sent(done, handled, command, text, true);
    OneEvent(c, Guarded);
    assert c.queue == [command] && [command][1..] == [];
    var c' := Served(done + [(command, text)], handled);
    assert c'.pushed == c.pushed && c'.issued == c.issued;
    assert c'.retired == c.retired + [Answered(command)];
  }

  /** The answer to the last command served was not handled yet. */
  lemma {:induction false} AnsweredLast(retired: seq<Retired>, command: Command, handled: seq<Command>)
    requires command !in handled
    ensures multiset(handled)[command] < multiset(Answers(retired + [Answered(command)]))[command]
  {
    RetiredSnoc(retired, Answered(command));
    assert multiset(Answers(retired) + [command])[command] >= 1;
  }

  lemma {:induction false} LastUnhandled(done: seq<(Command, string)>, handled: seq<Command>, command: Command,
                                         text: string)
    requires command !in handled
    ensures Unhandled(Served(done + [(command, text)], handled), command)
  {
    var c := Served(done + [(command, text)], handled);
    assert c.retired == Served(done, handled).retired + [Answered(command)];
    AnsweredLast(Served(done, handled).retired, command, handled);
  }

  lemma {:induction false} ListsWindows(text: string)
    ensures StepsTo(Served([(ListCommands, text)], []), CommandsReply,
                    Produce(Served([(ListCommands, text)], [ListCommands]), ListAllWindows(1, None)))
  {
    LastUnhandled([], [], ListCommands, text);
    assert [] + [(ListCommands, text)] == [(ListCommands, text)];
    var c := Served([(ListCommands, text)], []);
    assert c.handled + [ListCommands] == [ListCommands];
    assert Handle(c, ListCommands) == Served([(ListCommands, text)], [ListCommands]);
  }

  function FailingReply(): Step {
    WindowsReply(1, None, [Window(1, 1, true, "", 0, [1], false), Window(1, 2, false, "", 0, [2], true)])
  }

  lemma {:induction false} FailingReplyLoses(done: seq<(Command, string)>, text: string)
    ensures var c := Served(done + [(ListAllWindows(1, None), text)], [ListCommands]);
            Enabled(c, FailingReply()) && !NoLostWakeup(Apply(c, FailingReply()))
  {
    var c := Served(done + [(ListAllWindows(1, None), text)], [ListCommands]);
    LastUnhandled(done, [ListCommands], ListAllWindows(1, None), text);
    var windows := FailingReply().windows;
    assert windows[1..] == [windows[1]];
    assert WindowCommands(windows[0], false)[0] == CapturePane(1, 0);
    StepWakes(c, FailingReply());
  }

  lemma {:induction false} StartReachable()
    ensures Reachable(Start())
  {
    assert IsRun([Start()], []);
  }

  lemma {:induction false} StepReachable(c: Client, s: Step, c': Client)
    requires Reachable(c) && StepsTo(c, s, c')
    ensures Reachable(c')
  {
    var states, steps :| IsRun(states, steps) && states[|steps|] == c;
    var (states', steps') := (states + [c'], steps + [s]);
    forall i | 0 <= i < |steps'|
      ensures StepsTo(states'[i], steps'[i], states'[i + 1])
    {
      if i < |steps| {
        assert StepsTo(states[i], steps[i], states[i + 1]);
      }
    }
    assert IsRun(states', steps') && states'[|steps'|] == c';
  }

  /** A command with a text can be sent and answered. */
  lemma {:induction false} ServesOne(done: seq<(Command, string)>, handled: seq<Command>, command: Command,
                                     text: string)
    requires Reachable(Produce(Served(done, handled), command)) && text != ""
    ensures Reachable(Served(done + [(command, text)], handled))
  {
    var sent := Sent(done, handled, command, text, true);
    SendsFront(done, handled, command, text, true);
    StepReachable(Produce(Served(done, handled), command), Scheduled(true, [text], true), sent);
    AnswersFront(done, handled, command, text);
    StepReachable(sent, Events([Guarded]), Served(done + [(command, text)], handled));
  }

  lemma {:induction false} GreetedReachable()
    ensures Reachable(Produce(Served([], []), ListCommands))
  {
    StartReachable();
    Greeted();
    StepReachable(Start(), Events([SessionChanged(1), Guarded]), Produce(Served([], []), ListCommands));
  }

  lemma {:induction false} ListedReachable(text: string)
    requires Reachable(Served([(ListCommands, text)], []))
    ensures Reachable(Produce(Served([(ListCommands, text)], [ListCommands]), ListAllWindows(1, None)))
  {
    ListsWindows(text);
    StepReachable(Served([(ListCommands, text)], []), CommandsReply,
                  Produce(Served([(ListCommands, text)], [ListCommands]), ListAllWindows(1, None)));
  }

  /** A lost wakeup in a reachable state: a session is entered, its commands and its
      windows are listed, the second window fails after the first has queued its
      captures, and nothing sends them. */
  lemma {:induction false} WakeupLost(text: string) returns (c: Client)
    requires text != ""
    ensures Reachable(c) && !NoLostWakeup(c)
  {
    var first := (ListCommands, "list-commands\n");
    assert [] + [first] == [first];
    GreetedReachable();
    ServesOne([], [], first.0, first.1);
    ListedReachable(first.1);
    ServesOne([first], [ListCommands], ListAllWindows(1, None), text);
    var last := Served([first] + [(ListAllWindows(1, None), text)], [ListCommands]);
    FailingReplyLoses([first], text);
    c := Apply(last, FailingReply());
    StepReachable(last, FailingReply(), c);
  }

  /** The client waits without having written anything exactly when there was
      something to send and the pane to write it to was gone. */
  lemma {:induction false} WaitsUnwrittenIff(c: Client, texts: seq<string>, paneFound: bool)
    requires c.state.Idle? && |texts| == |c.queue|
    ensures var c' := SendNext(c, texts, paneFound);
            (c'.state.WaitingForResponse? && c'.issued != [] && !c'.issued[|c'.issued| - 1].written)
            <==> (!paneFound && exists i | 0 <= i < |texts| :: texts[i] != "")
  {
    SendNextSettles(c, texts, paneFound);
    if forall i | 0 <= i < |texts| :: texts[i] == "" {
      AllSkipped(c, texts, paneFound);
    }
  }

  lemma {:induction false} AllSkipped(c: Client, texts: seq<string>, paneFound: bool)
    requires c.state.Idle? && |texts| == |c.queue| && forall i | 0 <= i < |texts| :: texts[i] == ""
    ensures SendNext(c, texts, paneFound).state.Idle?
    decreases |c.queue|
  {
    if c.queue != [] {
      AllSkipped(c.(queue := c.queue[1..], retired := c.retired + [Skipped(c.queue[0])]), texts[1..], paneFound);
    }
  }

  /** Such a client in a reachable state: the pane is gone when the first command is sent. */
  lemma {:induction false} WaitsUnwritten() returns (c: Client)
    ensures Reachable(c) && c.state.WaitingForResponse?
    ensures c.issued != [] && !c.issued[|c.issued| - 1].written
  {
    var text := "list-commands\n";
    GreetedReachable();
    SendsFront([], [], ListCommands, text, false);
    c := Sent([], [], ListCommands, text, false);
    StepReachable(Produce(Served([], []), ListCommands), Scheduled(true, [text], false), c);
  }
}
