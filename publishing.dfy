/** The publish workflow (`publish` in automation.py): open the publish window,
    start the publication, then poll the status label once per tick, classify
    its text and react until a terminal status, an abort, an escaped exception,
    or the end of the tick budget. */
module Publishing {
  import opened Base
  import opened Text
  import opened Windows

  const PublishWindow := "publish"
  const ExpectedPopup := "expected_popup"

  /** The publish loop runs for at most this many minutes, one tick per second. */
  const PublishTimeoutMinutes := 720

  const CorruptedMarker := "Publish site database corrupted"
  const WarningsMarker := "Completed with Warnings"
  const SuccessMarker := "Completed successfully"
  const OopsMarker := "oops"

  /** What the stored status becomes after a renderer timeout. */
  const RendererTimeoutNote := "ignoring chrome renderer timeout"

  /** What one status reading calls for. */
  datatype Verdict =
    | DatabaseCorrupted
    | CompletedWithWarnings
    | CompletedSuccessfully
    | UnhandledError
    | DismissPopup
    | KeepPolling

  /** None of the three case-sensitive markers is in the status. */
  ghost predicate NoMarker(status: string)
  {
    !Occurs(CorruptedMarker, status) && !Occurs(WarningsMarker, status) && !Occurs(SuccessMarker, status)
  }

  /** The if/elif chain on the status text: corruption, then warnings, then success
      (all case-sensitive), then "oops" in any case, then more live windows than
      registered names; otherwise keep polling. */
  function Classify(status: string, liveWindows: nat, registered: nat): Verdict
  {
    if Contains(status, CorruptedMarker) then DatabaseCorrupted
    else if Contains(status, WarningsMarker) then CompletedWithWarnings
    else if Contains(status, SuccessMarker) then CompletedSuccessfully
    else if Contains(Lower(status), OopsMarker) then UnhandledError
    else if liveWindows > registered then DismissPopup
    else KeepPolling
  }

  /** Each verdict holds exactly when the status reads as the chain intends: the markers
      are searched in order and case-sensitively, "oops" in any case. */
  lemma ClassifyMeaning(status: string, liveWindows: nat, registered: nat)
    ensures var v := Classify(status, liveWindows, registered);
      && (v == DatabaseCorrupted <==> Occurs(CorruptedMarker, status))
      && (v == CompletedWithWarnings <==> !Occurs(CorruptedMarker, status) && Occurs(WarningsMarker, status))
      && (v == CompletedSuccessfully <==>
          !Occurs(CorruptedMarker, status) && !Occurs(WarningsMarker, status) && Occurs(SuccessMarker, status))
      && (v == UnhandledError <==> NoMarker(status) && OccursIgnoringCase(OopsMarker, status))
      && (v == DismissPopup <==> NoMarker(status) && !OccursIgnoringCase(OopsMarker, status) && liveWindows > registered)
      && (v == KeepPolling <==> NoMarker(status) && !OccursIgnoringCase(OopsMarker, status) && liveWindows <= registered)
  {
    ContainsIffOccurs(status, CorruptedMarker);
    ContainsIffOccurs(status, WarningsMarker);
    ContainsIffOccurs(status, SuccessMarker);
    LowerContainsIgnoresCase(status, OopsMarker);
    assert Lower(OopsMarker) == OopsMarker;
  }

  /** How `publish` ends when it returns normally. */
  datatype PublishOutcome =
    | Corrupted          // 'Publication ERROR.'
    | Warning            // 'Publication WARNING.'
    | Completed          // 'Publication Completed.'
    | Unhandled          // 'Publication UNHANDLED ERROR.'
    | StatusUnavailable  // "Can't find span#lblPublishStatus: ABORT"
    | TimedOut           // 'Publication TIMEOUT ERROR.'

  /** The browser's side of dismissing an unexpected window: the handles seen while
      naming it, and whether the click on #OKButton went through. */
  datatype Popup = Popup(polls: Polls, okClicked: bool)

  /** What the browser does at one tick of the publish loop. */
  datatype Tick =
    | RendererTimeout  // switching to the publish window raised TimeoutException
    | Fault            // switching to the publish window raised any other exception
    | LabelRaised      // the lookup of span#lblPublishStatus raised
    | LabelMissing     // `find` gave up and returned False, so reading `.text` raised
    | Label(status: string, liveWindows: nat, popup: Popup)

  /** What one tick decides: go on (with the new stored status) or leave the loop. */
  datatype Step =
    | Continue(stored: string, logged: seq<string>)
    | Break(logged: seq<string>, result: Result<PublishOutcome>)

  datatype TickEffect = TickEffect(reg: Registry, step: Step)

  /** How the loop reacts to a status it has read: the registry afterwards, and
      `Some` result when the loop ends, `None` when it goes on. */
  datatype Reaction = Reaction(reg: Registry, ending: Option<Result<PublishOutcome>>)

  /** The reaction to one status, with the publish window focused: the four terminal
      verdicts end the loop, a surplus window is named, dismissed and closed (an exception
      there escapes `publish`), anything else goes on. */
  function ReactStep(focused: Registry, status: string, live: nat, popup: Popup): Reaction
  {
    match Classify(status, live, |focused.activated|)
    case DatabaseCorrupted => Reaction(focused, Some(Ok(Corrupted)))
    case CompletedWithWarnings => Reaction(focused, Some(Ok(Warning)))
    case CompletedSuccessfully => Reaction(focused, Some(Ok(Completed)))
    case UnhandledError => Reaction(focused, Some(Ok(Unhandled)))
    case KeepPolling => Reaction(focused, None)
    case DismissPopup => Dismiss(focused, popup)
  }

  /** The surplus window is named `expected_popup` and focused, its #OKButton clicked, and
      it is closed again with the focus back on `publish`. */
  function Dismiss(focused: Registry, popup: Popup): Reaction
  {
    var named := NewWindowStep(focused, ExpectedPopup, popup.polls, true);
    if named.outcome.Fail? then Reaction(named.reg, Some(Err(named.outcome.error)))
    else if !popup.okClicked then Reaction(named.reg, Some(Err(DriverError)))
    else
      var closed := CloseStep(named.reg, ExpectedPopup, PublishWindow);
      if closed.outcome.Fail? then Reaction(closed.reg, Some(Err(closed.outcome.error)))
      else Reaction(closed.reg, None)
  }

  /** One pass of the loop body, from the registry and the stored status `_status`.
      A status read is logged when it differs from the stored one, and then stored. */
  function TickStep(reg: Registry, stored: string, t: Tick): TickEffect
  {
    if PublishWindow !in reg.activated then
      // activate_window raises KeyError, caught by the generic handler
      TickEffect(reg, Continue(stored, []))
    else match t
      case RendererTimeout => TickEffect(reg, Continue(RendererTimeoutNote, []))
      case Fault => TickEffect(reg, Continue(stored, []))
      case LabelRaised => TickEffect(reg.(active := PublishWindow), Break([], Ok(StatusUnavailable)))
      case LabelMissing => TickEffect(reg.(active := PublishWindow), Continue(stored, []))
      case Label(status, live, popup) =>
        var logged := if status != stored then [status] else [];
        var r := ReactStep(reg.(active := PublishWindow), status, live, popup);
        TickEffect(r.reg, if r.ending.Some? then Break(logged, r.ending.value) else Continue(status, logged))
  }

  /** The end of a publish run: the registry, the statuses logged, the result and the ticks used. */
  datatype Run = Run(reg: Registry, log: seq<string>, result: Result<PublishOutcome>, ticks: nat)

  function Prepend(logged: seq<string>, ticks: nat, run: Run): Run
  {
    Run(run.reg, logged + run.log, run.result, ticks + run.ticks)
  }

  /** The polling loop over the remaining ticks; running out of ticks is the timeout. */
  function Poll(reg: Registry, stored: string, ticks: seq<Tick>): Run
    decreases |ticks|
  {
    if ticks == [] then Run(reg, [], Ok(TimedOut), 0)
    else
      var e := TickStep(reg, stored, ticks[0]);
      match e.step
      case Break(logged, result) => Run(e.reg, logged, result, 1)
      case Continue(next, logged) => Prepend(logged, 1, Poll(e.reg, next, ticks[1..]))
  }

  /** One more pass of the polling loop: if the run from `start` has reached `reg` with
      `log` after `used` ticks, the next tick either ends it or carries it to the next state. */
  lemma PollAdvance(start: Registry, ticks: seq<Tick>, log: seq<string>, used: nat, reg: Registry, stored: string, e: TickEffect)
    requires used < |ticks| && e == TickStep(reg, stored, ticks[used])
    requires Poll(start, "", ticks) == Prepend(log, used, Poll(reg, stored, ticks[used..]))
    ensures e.step.Break? ==> Poll(start, "", ticks) == Run(e.reg, log + e.step.logged, e.step.result, used + 1)
    ensures e.step.Continue? ==>
      Poll(start, "", ticks) == Prepend(log + e.step.logged, used + 1, Poll(e.reg, e.step.stored, ticks[used + 1..]))
  {
    var rest := ticks[used..];
    assert rest[0] == ticks[used] && rest[1..] == ticks[used + 1..];
    if e.step.Continue? {
      var later := Poll(e.reg, e.step.stored, ticks[used + 1..]);
      assert log + (e.step.logged + later.log) == (log + e.step.logged) + later.log;
    }
  }

  /** What the browser does during `publish`: the set-up steps, then one entry per tick. */
  datatype PublishOracle = PublishOracle(
    tabOpened: bool,           // login, the publish tab, the #PublishSites frame and #PublishButton_0
    publishPolls: Polls,    // handles while waiting for the publish window
    started: bool,          // #NextButton, #BackupPublishSite and #PublishButton
    passwordPolls: Polls,   // handles while waiting for the password window
    passwordEntered: bool,  // typing the password and clicking #OK
    ticks: seq<Tick>)

  /** The set-up steps of `publish`, up to the polling loop: focus `main`, open the
      publish tab and name the publish window, then start the publication. */
  function SetUp(reg: Registry, o: PublishOracle): Transition
  {
    var a := ActivateStep(reg, Main);
    if a.outcome.Fail? then a
    else if !o.tabOpened then Transition(a.reg, Fail(DriverError))
    else
      var w := NewWindowStep(a.reg, PublishWindow, o.publishPolls, true);
      if w.outcome.Fail? then w
      else if !o.started then Transition(w.reg, Fail(DriverError))
      else EnterPassword(w.reg, o)
  }

  /** The password prompt that starting the publication opens: name it, type the
      password, close it and go back to the publish window. */
  function EnterPassword(reg: Registry, o: PublishOracle): Transition
  {
    var p := NewWindowStep(reg, PasswordWindow, o.passwordPolls, true);
    if p.outcome.Fail? then p
    else if !o.passwordEntered then Transition(p.reg, Fail(DriverError))
    else CloseStep(p.reg, PasswordWindow, PublishWindow)
  }

  /** `publish(site)` as a whole: an exception during set-up escapes, otherwise the loop runs. */
  function PublishSpec(reg: Registry, o: PublishOracle): Run
  {
    var s := SetUp(reg, o);
    if s.outcome.Fail? then Run(s.reg, [], Err(s.outcome.error), 0)
    else Poll(s.reg, "", o.ticks)
  }

  /** The set-up keeps the registry invariant and raises no IndexError; when it passes,
      `publish` is bound and is the one name it added. */
  lemma SetUpKeepsRegistry(reg: Registry, o: PublishOracle)
    requires Valid(reg)
    requires PublishWindow !in reg.activated && PasswordWindow !in reg.activated && ExpectedPopup !in reg.activated
    ensures Valid(SetUp(reg, o).reg)
    ensures SetUp(reg, o).outcome != Fail(IndexError)
    ensures SetUp(reg, o).outcome.Pass? ==>
      SetUp(reg, o).reg.activated.Keys == reg.activated.Keys + {PublishWindow}
  {
    var a := ActivateStep(reg, Main);
    if a.outcome.Pass? && o.tabOpened {
      NewWindowKeepsValid(a.reg, PublishWindow, o.publishPolls, true);
      var w := NewWindowStep(a.reg, PublishWindow, o.publishPolls, true);
      if w.outcome.Pass? && o.started {
        assert w.reg.activated.Keys == reg.activated.Keys + {PublishWindow};
        EnterPasswordKeepsRegistry(w.reg, o);
      }
    }
  }

  /** The password prompt leaves the bindings as it found them when it passes. */
  lemma EnterPasswordKeepsRegistry(reg: Registry, o: PublishOracle)
    requires Valid(reg) && PublishWindow in reg.activated && PasswordWindow !in reg.activated
    ensures Valid(EnterPassword(reg, o).reg)
    ensures EnterPassword(reg, o).outcome != Fail(IndexError)
    ensures EnterPassword(reg, o).outcome.Pass? ==> EnterPassword(reg, o).reg.activated == reg.activated
  {
    NewWindowKeepsValid(reg, PasswordWindow, o.passwordPolls, true);
    var p := NewWindowStep(reg, PasswordWindow, o.passwordPolls, true);
    if p.outcome.Pass? && o.passwordEntered {
      CloseKeepsValid(p.reg, PasswordWindow, PublishWindow);
    }
  }

  /** The tick ends the loop whatever the registry holds, as long as `publish` is bound. */
  predicate Breaks(t: Tick)
  {
    t.LabelRaised? || (t.Label? && Classify(t.status, 0, 0) in {DatabaseCorrupted, CompletedWithWarnings, CompletedSuccessfully, UnhandledError})
  }

  /** The tick neither ends the loop nor opens the popup branch when `registered` names are bound. */
  predicate Quiet(t: Tick, registered: nat)
  {
    !t.LabelRaised? && (t.Label? ==> Classify(t.status, t.liveWindows, registered) == KeepPolling)
  }

  /** Reacting to a status keeps the registry invariant and raises no IndexError; unless
      an exception escapes, the bindings are as before (a dismissed popup is unbound again). */
  lemma ReactKeepsRegistry(focused: Registry, status: string, live: nat, popup: Popup)
    requires Valid(focused) && PublishWindow in focused.activated && ExpectedPopup !in focused.activated
    ensures var r := ReactStep(focused, status, live, popup);
      && Valid(r.reg)
      && r.ending != Some(Err(IndexError))
      && (r.ending.None? || r.ending.value.Ok? ==> r.reg.activated == focused.activated)
  {
    if Classify(status, live, |focused.activated|) == DismissPopup {
      DismissKeepsRegistry(focused, popup);
    }
  }

  /** Dismissing a popup keeps the registry invariant, raises no IndexError and, when
      it passes, leaves the bindings as before. */
  lemma DismissKeepsRegistry(focused: Registry, popup: Popup)
    requires Valid(focused) && PublishWindow in focused.activated && ExpectedPopup !in focused.activated
    ensures var r := Dismiss(focused, popup);
      && Valid(r.reg)
      && r.ending != Some(Err(IndexError))
      && (r.ending.None? ==> r.reg.activated == focused.activated)
      && (r.ending.Some? ==> r.ending.value.Err?)
  {
    NewWindowKeepsValid(focused, ExpectedPopup, popup.polls, true);
    var named := NewWindowStep(focused, ExpectedPopup, popup.polls, true);
    if named.outcome.Pass? {
      CloseKeepsValid(named.reg, ExpectedPopup, PublishWindow);
    }
  }

  /** A tick that goes on keeps `publish` bound, never grows the registry for good,
      and keeps the registry invariant. */
  lemma TickKeepsRegistry(reg: Registry, stored: string, t: Tick)
    requires Valid(reg) && PublishWindow in reg.activated && ExpectedPopup !in reg.activated
    ensures Valid(TickStep(reg, stored, t).reg)
    ensures TickStep(reg, stored, t).step.Continue? ==> TickStep(reg, stored, t).reg.activated == reg.activated
    ensures TickStep(reg, stored, t).step.Break? ==> TickStep(reg, stored, t).step.result != Err(IndexError)
    ensures TickStep(reg, stored, t).step.Break? && TickStep(reg, stored, t).step.result.Ok? ==>
      TickStep(reg, stored, t).reg.activated == reg.activated
  {
    if t.Label? {
      ReactKeepsRegistry(reg.(active := PublishWindow), t.status, t.liveWindows, t.popup);
    }
  }

  /** The loop keeps the registry invariant, raises no IndexError, and when it returns
      normally leaves the bindings as it found them. */
  lemma {:induction false} PollKeepsRegistry(reg: Registry, stored: string, ticks: seq<Tick>)
    requires Valid(reg) && PublishWindow in reg.activated && ExpectedPopup !in reg.activated
    ensures Valid(Poll(reg, stored, ticks).reg)
    ensures Poll(reg, stored, ticks).result != Err(IndexError)
    ensures Poll(reg, stored, ticks).result.Ok? ==> Poll(reg, stored, ticks).reg.activated == reg.activated
    decreases |ticks|
  {
    if ticks != [] {
      TickKeepsRegistry(reg, stored, ticks[0]);
      var e := TickStep(reg, stored, ticks[0]);
      if e.step.Continue? {
        PollKeepsRegistry(e.reg, e.step.stored, ticks[1..]);
      }
    }
  }

  /** While `publish` is bound, a tick that `Breaks` ends the loop, and no tick ends it
      with the timeout. */
  lemma TickEnds(reg: Registry, stored: string, t: Tick)
    requires PublishWindow in reg.activated
    ensures Breaks(t) ==> TickStep(reg, stored, t).step.Break?
    ensures TickStep(reg, stored, t).step.Break? ==> TickStep(reg, stored, t).step.result != Ok(TimedOut)
  {
  }

  /** The loop uses at most one tick per entry; it reports a timeout only after using
      every tick, and only when no tick carried a terminal status or a failed lookup. */
  lemma {:induction false} PollTimesOutOnlyWithoutBreak(reg: Registry, stored: string, ticks: seq<Tick>)
    requires Valid(reg) && PublishWindow in reg.activated && ExpectedPopup !in reg.activated
    ensures Poll(reg, stored, ticks).ticks <= |ticks|
    ensures Poll(reg, stored, ticks).result == Ok(TimedOut) ==>
      Poll(reg, stored, ticks).ticks == |ticks| && forall k :: 0 <= k < |ticks| ==> !Breaks(ticks[k])
    decreases |ticks|
  {
    if ticks != [] {
      TickKeepsRegistry(reg, stored, ticks[0]);
      TickEnds(reg, stored, ticks[0]);
      var e := TickStep(reg, stored, ticks[0]);
      if e.step.Continue? {
        PollTimesOutOnlyWithoutBreak(e.reg, e.step.stored, ticks[1..]);
        assert forall k :: 1 <= k < |ticks| ==> ticks[k] == ticks[1..][k - 1];
      }
    }
  }

  /** When every tick is quiet the loop runs out the whole budget and reports a timeout,
      with the bindings unchanged. */
  lemma {:induction false} QuietTicksTimeOut(reg: Registry, stored: string, ticks: seq<Tick>)
    requires PublishWindow in reg.activated
    requires forall k :: 0 <= k < |ticks| ==> Quiet(ticks[k], |reg.activated|)
    ensures Poll(reg, stored, ticks).result == Ok(TimedOut)
    ensures Poll(reg, stored, ticks).ticks == |ticks|
    ensures Poll(reg, stored, ticks).reg.activated == reg.activated
    decreases |ticks|
  {
    if ticks != [] {
      assert Quiet(ticks[0], |reg.activated|);
      var e := TickStep(reg, stored, ticks[0]);
      assert e.step.Continue? && e.reg.activated == reg.activated;
      assert forall k :: 0 <= k < |ticks[1..]| ==> ticks[1..][k] == ticks[k + 1];
      QuietTicksTimeOut(e.reg, e.step.stored, ticks[1..]);
    }
  }

  /** Apart from a renderer timeout, a tick logs at most the status it reads, only when
      that differs from the stored one, and then stores it; a status read with `publish`
      bound is logged exactly when it changed, and a tick that goes on stores it. */
  lemma TickLogsChange(reg: Registry, stored: string, t: Tick)
    requires !t.RendererTimeout?
    ensures var s := TickStep(reg, stored, t).step;
      s.logged == [] || (|s.logged| == 1 && s.logged[0] != stored)
    ensures var s := TickStep(reg, stored, t).step;
      s.Continue? ==> if s.logged == [] then s.stored == stored else s.logged == [s.stored]
    ensures t.Label? && PublishWindow in reg.activated ==>
      TickStep(reg, stored, t).step.logged == (if t.status != stored then [t.status] else [])
    ensures t.Label? && PublishWindow in reg.activated && TickStep(reg, stored, t).step.Continue? ==>
      TickStep(reg, stored, t).step.stored == t.status
  {
  }

  /** No entry of `log` repeats the one before it, and the first differs from `stored`. */
  ghost predicate LogsChanges(stored: string, log: seq<string>)
  {
    (log != [] ==> log[0] != stored) && forall j :: 0 <= j < |log| - 1 ==> log[j] != log[j + 1]
  }

  /** Putting in front either nothing (the stored status stays) or one new status
      (which becomes the stored one) keeps `LogsChanges`. */
  lemma LogsChangesPrepend(stored: string, logged: seq<string>, next: string, rest: seq<string>)
    requires (logged == [] && next == stored) || (logged == [next] && next != stored)
    requires LogsChanges(next, rest)
    ensures LogsChanges(stored, logged + rest)
  {
    var log := logged + rest;
    if logged != [] {
      forall j | 0 <= j < |log| - 1
        ensures log[j] != log[j + 1]
      {
        if j == 0 {
          assert log[1] == rest[0];
        } else {
          assert log[j] == rest[j - 1] && log[j + 1] == rest[j];
        }
      }
    }
  }

  /** Without renderer timeouts a status is logged only when it differs from the one
      logged before it: no two neighbouring log entries are equal, and the first
      differs from the status stored on entry. */
  lemma {:induction false} PollLogsOnlyChanges(reg: Registry, stored: string, ticks: seq<Tick>)
    requires forall k :: 0 <= k < |ticks| ==> !ticks[k].RendererTimeout?
    ensures LogsChanges(stored, Poll(reg, stored, ticks).log)
    decreases |ticks|
  {
    if ticks != [] {
      TickLogsChange(reg, stored, ticks[0]);
      var e := TickStep(reg, stored, ticks[0]);
      var s := e.step;
      if s.Continue? {
        assert forall k :: 0 <= k < |ticks[1..]| ==> ticks[1..][k] == ticks[k + 1];
        PollLogsOnlyChanges(e.reg, s.stored, ticks[1..]);
        LogsChangesPrepend(stored, s.logged, s.stored, Poll(e.reg, s.stored, ticks[1..]).log);
      }
    }
  }

  /** `publish` keeps the registry invariant and never raises IndexError; when it returns
      normally, `publish` is the one binding it added. */
  lemma PublishKeepsRegistry(reg: Registry, o: PublishOracle)
    requires Valid(reg)
    requires PublishWindow !in reg.activated && PasswordWindow !in reg.activated && ExpectedPopup !in reg.activated
    ensures Valid(PublishSpec(reg, o).reg)
    ensures PublishSpec(reg, o).result != Err(IndexError)
    ensures PublishSpec(reg, o).result.Ok? ==>
      PublishSpec(reg, o).reg.activated.Keys == reg.activated.Keys + {PublishWindow}
  {
    SetUpKeepsRegistry(reg, o);
    var s := SetUp(reg, o);
    if s.outcome.Pass? {
      assert PublishWindow in s.reg.activated;
      PollKeepsRegistry(s.reg, "", o.ticks);
    }
  }

  /** The reaction to one status read, on the site. */
  method React(site: Site, status: string, live: nat, popup: Popup) returns (ending: Option<Result<PublishOutcome>>)
    modifies site
    ensures Reaction(site.Model(), ending) == ReactStep(old(site.Model()), status, live, popup)
  {
    var verdict := Classify(status, live, |site.activated|);
    match verdict {
      case DatabaseCorrupted => return Some(Ok(Corrupted));
      case CompletedWithWarnings => return Some(Ok(Warning));
      case CompletedSuccessfully => return Some(Ok(Completed));
      case UnhandledError => return Some(Ok(Unhandled));
      case KeepPolling => return None;
      case DismissPopup =>
        var named := site.NameNewWindow(ExpectedPopup, popup.polls, true);
        if named.Fail? {
          return Some(Err(named.error));
        }
        if !popup.okClicked {
          return Some(Err(DriverError));
        }
        var closed := site.CloseWindow(ExpectedPopup, PublishWindow);
        if closed.Fail? {
          return Some(Err(closed.error));
        }
        return None;
    }
  }

  /** One pass of the loop body of `publish`, on the site. */
  method RunTick(site: Site, stored: string, t: Tick) returns (step: Step)
    modifies site
    ensures TickEffect(site.Model(), step) == TickStep(old(site.Model()), stored, t)
  {
    if PublishWindow !in site.activated {
      return Continue(stored, []);
    }
    match t {
      case RendererTimeout =>
        return Continue(RendererTimeoutNote, []);
      case Fault =>
        return Continue(stored, []);
      case LabelRaised =>
        var focused := site.ActivateWindow(PublishWindow);
        return Break([], Ok(StatusUnavailable));
      case LabelMissing =>
        var focused := site.ActivateWindow(PublishWindow);
        return Continue(stored, []);
      case Label(status, live, popup) =>
        var focused := site.ActivateWindow(PublishWindow);
        var logged := if status != stored then [status] else [];
        var ending := React(site, status, live, popup);
        if ending.Some? {
          return Break(logged, ending.value);
        }
        return Continue(status, logged);
    }
  }

  /** The `for i in range(publish_timeout_minutes * 60)` loop, one entry of `ticks` per pass. */
  method PollStatus(site: Site, ticks: seq<Tick>) returns (log: seq<string>, result: Result<PublishOutcome>, used: nat)
    modifies site
    ensures Run(site.Model(), log, result, used) == Poll(old(site.Model()), "", ticks)
  {
    var stored := "";
    log, used := [], 0;
    while used < |ticks|
      invariant used <= |ticks|
      invariant Poll(old(site.Model()), "", ticks) == Prepend(log, used, Poll(site.Model(), stored, ticks[used..]))
    {
      ghost var before := site.Model();
      var step := RunTick(site, stored, ticks[used]);
      PollAdvance(old(site.Model()), ticks, log, used, before, stored, TickEffect(site.Model(), step));
      match step {
        case Break(logged, res) =>
          return log + logged, res, used + 1;
        case Continue(next, logged) =>
          log, stored, used := log + logged, next, used + 1;
      }
    }
    assert ticks[used..] == [];
    assert log + [] == log;
    result := Ok(TimedOut);
  }

  /** `publish(site)`: set-up on the site, then the polling loop for `timeoutMinutes` minutes. */
  method Publish(site: Site, o: PublishOracle, timeoutMinutes: nat) returns (log: seq<string>, result: Result<PublishOutcome>, used: nat)
    requires |o.ticks| == timeoutMinutes * 60
    modifies site
    ensures Run(site.Model(), log, result, used) == PublishSpec(old(site.Model()), o)
  {
    log, used := [], 0;
    var a := site.ActivateWindow(Main);
    if a.Fail? {
      return log, Err(a.error), used;
    }
    if !o.tabOpened {
      return log, Err(DriverError), used;
    }
    var w := site.NameNewWindow(PublishWindow, o.publishPolls, true);
    if w.Fail? {
      return log, Err(w.error), used;
    }
    if !o.started {
      return log, Err(DriverError), used;
    }
    var p := site.NameNewWindow(PasswordWindow, o.passwordPolls, true);
    if p.Fail? {
      return log, Err(p.error), used;
    }
    if !o.passwordEntered {
      return log, Err(DriverError), used;
    }
    var c := site.CloseWindow(PasswordWindow, PublishWindow);
    if c.Fail? {
      // `publish` was bound above and is not the window being closed
      assert false;
    }
    log, result, used := PollStatus(site, o.ticks);
  }
}
