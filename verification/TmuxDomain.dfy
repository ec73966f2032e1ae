/** The tmux domain as an object whose methods change it in place, after
    `mux/src/tmux.rs` and `mux/src/tmux_pty.rs`. Each method does what the
    function of the same step in `TmuxClient` says. */
module TmuxDomain {
  import opened Wrappers
  import opened TmuxClient

  /** Whether some remote pane is shown as the local pane `paneId`. */
  predicate Shown(remotePanes: map<nat, nat>, paneId: nat) { exists p :: p in remotePanes && remotePanes[p] == paneId }

  class TmuxDomainState {
    var state: State
    var cmdQueue: seq<Command>
    var scheduled: nat
    var tmuxSession: Option<nat>
    var guiWindow: bool
    var attachDone: bool
    var guiTabs: map<nat, set<nat>>
    var pendingSplits: seq<nat>
    var remotePanes: map<nat, nat>
    ghost var pushed: seq<Command>
    ghost var issued: seq<Issue>
    ghost var retired: seq<Retired>
    ghost var discarded: seq<Command>
    ghost var splits: seq<nat>
    ghost var resolved: seq<(nat, nat)>
    ghost var handled: seq<Command>

    ghost function View(): Client
      reads this
    {
      Client(state, cmdQueue, scheduled, tmuxSession, guiWindow, attachDone, guiTabs, pendingSplits,
             pushed, issued, retired, discarded, splits, resolved, handled)
    }

    constructor ()
      ensures View() == Start()
    {
      state, cmdQueue, scheduled := WaitForInitialGuard, [], 0;
      tmuxSession, guiWindow, attachDone, guiTabs, pendingSplits, remotePanes := None, false, false, map[], [], map[];
      pushed, issued, retired, discarded, splits, resolved, handled := [], [], [], [], [], [], [];
    }

    method PushBack(command: Command)
      modifies `cmdQueue, `pushed
      ensures View() == Push(old(View()), command)
    {
      cmdQueue := cmdQueue + [command];
      pushed := pushed + [command];
    }

    method ScheduleSendNextCommand()
      modifies `scheduled
      ensures View() == Schedule(old(View()))
    {
      scheduled := scheduled + 1;
    }

    method HandleGuarded()
      modifies `state, `cmdQueue, `retired
      ensures View() == OnGuarded(old(View()))
    {
      match state
      case WaitForInitialGuard =>
        state := Idle;
      case WaitingForResponse =>
        if cmdQueue != [] {
          retired := retired + [Answered(cmdQueue[0])];
          cmdQueue := cmdQueue[1..];
          state := Idle;
        }
      case Idle =>
      case Exited =>
    }

    method HandleExit()
      modifies `state, `cmdQueue, `discarded
      ensures View() == OnExit(old(View()))
    {
      state := Exited;
      discarded := discarded + cmdQueue;
      cmdQueue := [];
    }

    /** A pane that shows up in a known window is the one of the oldest split. */
    method HandlePaneChanged(window: nat, pane: nat)
      modifies `pendingSplits, `resolved
      ensures View() == OnPaneChanged(old(View()), window, pane)
    {
      if window in guiTabs && pane !in guiTabs[window] && pendingSplits != [] {
        resolved := resolved + [(pendingSplits[0], pane)];
        pendingSplits := pendingSplits[1..];
      }
    }

    /** Returns whether the rest of the batch is dropped. */
    method HandleEvent(event: Event) returns (stop: bool)
      modifies this
      ensures View() == OnEvent(old(View()), event)
      ensures stop == event.ExitEvent?
    {
      stop := false;
      match event
      case Guarded =>
        HandleGuarded();
      case ExitEvent =>
        HandleExit();
        stop := true;
      case LayoutChange(window, layout) =>
        PushBack(ListAllPanes(window, true, Checksum(layout)));
      case SessionChanged(session) =>
        tmuxSession := Some(session);
        PushBack(ListCommands);
      case WindowAdd(window) =>
        if guiWindow && tmuxSession.Some? {
          PushBack(ListAllWindows(tmuxSession.value, Some(window)));
        }
      case WindowClose(window) =>
        guiTabs := guiTabs - {window};
      case UnlinkedWindowClose(window) =>
        guiTabs := guiTabs - {window};
      case WindowPaneChanged(window, pane) =>
        HandlePaneChanged(window, pane);
      case OtherEvent =>
    }

    method Advance(events: seq<Event>)
      modifies this
      ensures View() == TmuxClient.Advance(old(View()), events)
    {
      var i := 0;
      while i < |events|
        invariant i <= |events|
        invariant TmuxClient.Advance(View(), events[i..]) == TmuxClient.Advance(old(View()), events)
      {
        assert events[i..][1..] == events[i + 1..];
        var stop := HandleEvent(events[i]);
        if stop { return; }
        i := i + 1;
      }
      if state == Idle && cmdQueue != [] {
        ScheduleSendNextCommand();
      }
    }

    method DropFront()
      requires cmdQueue != []
      modifies `cmdQueue, `retired
      ensures var c := old(View()); View() == c.(queue := c.queue[1..], retired := c.retired + [Skipped(c.queue[0])])
    {
      retired := retired + [Skipped(cmdQueue[0])];
      cmdQueue := cmdQueue[1..];
    }

    method IssueFront(cmd: string, paneFound: bool)
      requires cmdQueue != []
      modifies `state, `issued
      ensures var c := old(View());
              View() == c.(state := WaitingForResponse, issued := c.issued + [Issue(c.queue[0], cmd, paneFound)])
    {
      issued := issued + [Issue(cmdQueue[0], cmd, paneFound)];
      state := WaitingForResponse;
    }

    method SendNextCommand(texts: seq<string>, paneFound: bool)
      requires |texts| == |cmdQueue|
      modifies `state, `cmdQueue, `issued, `retired
      ensures View() == SendNext(old(View()), texts, paneFound)
    {
      if state != Idle { return; }
      var i := 0;
      while cmdQueue != []
        invariant state == Idle && i <= |texts| && |cmdQueue| == |texts| - i
        invariant SendNext(View(), texts[i..], paneFound) == SendNext(old(View()), texts, paneFound)
        decreases |cmdQueue|
      {
        var cmd := texts[i];
        assert texts[i..][1..] == texts[i + 1..];
        if cmd == "" {
          DropFront();
          i := i + 1;
          continue;
        }
        IssueFront(cmd, paneFound);
        return;
      }
    }

    method RunScheduled(domainFound: bool, texts: seq<string>, paneFound: bool)
      requires scheduled > 0 && |texts| == |cmdQueue|
      modifies this
      ensures View() == TmuxClient.RunScheduled(old(View()), domainFound, texts, paneFound)
    {
      scheduled := scheduled - 1;
      if domainFound {
        SendNextCommand(texts, paneFound);
      }
    }

    method CreateTmuxWindow()
      modifies `cmdQueue, `pushed, `scheduled
      ensures View() == Produce(old(View()), NewWindow)
    {
      PushBack(NewWindow);
      ScheduleSendNextCommand();
    }

    /** Asks tmux to split the pane shown as the local pane `paneId`, whichever
        remote pane that is. */
    method SplitTmuxPane(paneId: nat, horizontal: bool) returns (ok: bool, ghost target: Option<nat>)
      modifies `cmdQueue, `pushed, `scheduled
      ensures ok == Shown(remotePanes, paneId)
      ensures target.Some? == ok && (ok ==> target.value in remotePanes && remotePanes[target.value] == paneId)
      ensures View() == if ok then Produce(old(View()), SplitPane(target.value, horizontal)) else old(View())
    {
      ok, target := Shown(remotePanes, paneId), None;
      if ok {
        var id :| id in remotePanes && remotePanes[id] == paneId;
        PushBack(SplitPane(id, horizontal));
        ScheduleSendNextCommand();
        target := Some(id);
      }
    }

    /** The split as the mux asks for it: the promise is queued only after the
        command, and not at all if there is no such pane. */
    method SplitPaneOf(promise: nat, paneId: nat, horizontal: bool) returns (ok: bool, ghost target: Option<nat>)
      modifies `cmdQueue, `pushed, `scheduled, `pendingSplits, `splits
      ensures ok == target.Some? == Shown(remotePanes, paneId)
      ensures View() == RequestSplit(old(View()), promise, target, horizontal)
    {
      ok, target := SplitTmuxPane(paneId, horizontal);
      if ok {
        pendingSplits := pendingSplits + [promise];
        splits := splits + [promise];
      }
    }

    /** `TmuxPty::write` and `TmuxPtyWriter::write` */
    method PtyWrite(pane: nat, buf: seq<nat>) returns (written: nat)
      modifies `cmdQueue, `pushed, `scheduled
      ensures View() == Produce(old(View()), SendKeys(pane, buf)) && written == 0
    {
      PushBack(SendKeys(pane, buf));
      ScheduleSendNextCommand();
      written := 0;
    }

    method PtyResize(pane: nat, cols: nat, rows: nat)
      modifies `cmdQueue, `pushed, `scheduled
      ensures View() == Produce(old(View()), Resize(pane, cols, rows))
    {
      PushBack(Resize(pane, cols, rows));
      ScheduleSendNextCommand();
    }
  }
}
