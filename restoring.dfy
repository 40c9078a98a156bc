/** The restore workflow (`restore_backup(site, url, index)` and the `Site`
    methods it calls): log in from the main window, open the Backup & Restore
    window, pick the backup at `index`, confirm with the password, wait for the
    page to report success, then close both windows again. */
module Restoring {
  import opened Base
  import opened Text
  import opened Retry
  import opened Windows

  const BackupWindow := "backup_and_restore"

  /** `restore_timeout_minutes`. */
  const RestoreTimeoutMinutes := 10

  /** `wait_for_restore_success` is given `restore_timeout_minutes * 60` retries, one check per second. */
  const RestoreChecks := RestoreTimeoutMinutes * 60

  /** The text the page shows when the restore succeeded. */
  const RestoreMarker := "Completed successfully"

  /** What the browser does during one restore. */
  datatype RestoreOracle = RestoreOracle(
    loggedIn: bool,         // loading the admin page, typing the credentials, clicking #Button1
    dialogOpened: bool,     // clicking a.button
    dialogPolls: Polls,     // handles while waiting for the Backup & Restore window
    restoreTab: bool,       // `select_restore_tab`: the RestoreDB link, #NextButton and the prompt text
    listFrame: bool,        // switching into the Main frame before listing the backups
    listing: seq<Lookup>,   // the lookups of select#lstDBBackupFiles
    selected: bool,         // selecting the chosen label, #NextButton and #RestoreButton
    passwordPolls: Polls,   // handles while waiting for the password window
    passwordEntered: bool,  // typing the password and clicking #OK
    markerFrame: bool,      // switching into the Main frame before waiting
    pages: seq<PageRead>)   // the page sources read while waiting for the marker

  /** The oracle has an answer for every lookup and every check the workflow can make. */
  predicate Complete(o: RestoreOracle)
  {
    FindAttempts(0) <= |o.listing| && PageAttempts(RestoreChecks) <= |o.pages|
  }

  /** `Site.restore_backup(index)`: list the options of the backup drop-down and select
      the one at `index`. The label selected, or the exception raised. */
  function BackupChoice(index: nat, o: RestoreOracle): (r: Result<string>)
    requires Complete(o)
    ensures r == Err(IndexError) <==>
      && o.listFrame
      && FindSpec(o.listing, 0).Ok? && FindSpec(o.listing, 0).value.Dropdown?
      && index >= |FindSpec(o.listing, 0).value.element.options|
    ensures o.listFrame && FindSpec(o.listing, 0).Ok? && !FindSpec(o.listing, 0).value.Dropdown? ==>
      r == Err(AttributeError)
    ensures r.Ok? ==>
      && o.listFrame && o.selected
      && FindSpec(o.listing, 0).Ok? && FindSpec(o.listing, 0).value.Dropdown?
      && index < |FindSpec(o.listing, 0).value.element.options|
      && r.value == FindSpec(o.listing, 0).value.element.options[index]
  {
    if !o.listFrame then Err(DriverError)
    else match FindSpec(o.listing, 0)
      case Err(e) => Err(e)
      case Ok(found) =>
        match ListOptions(found)
        case Err(e) => Err(e)
        case Ok(options) =>
          if index >= |options| then Err(IndexError)
          else if !o.selected then Err(DriverError)
          else Ok(options[index])
  }

  /** `wait_for_restore_success` as written: only an exception escaping `page_contains_text`
      fails the restore; the falsy value it returns when the marker never shows is ignored. */
  function WaitAsWritten(o: RestoreOracle): (r: Outcome)
    requires Complete(o)
    ensures r.Fail? <==> (!o.markerFrame ||
      exists j :: 0 <= j < RestoreChecks && o.pages[j].OtherFault? &&
        forall i :: 0 <= i < j ==> !Shows(o.pages[i], RestoreMarker))
    ensures r.Fail? ==> r.error == (if o.markerFrame then RestoreFailed else DriverError)
  {
    PageFromRaises(RestoreMarker, o.pages, 0, RestoreChecks);
    if !o.markerFrame then Fail(DriverError)
    else match PageSpec(RestoreMarker, o.pages, RestoreChecks)
      case Err(_) => Fail(RestoreFailed)
      case Ok(_) => Pass
  }

  /** `wait_for_restore_success` as its message intends: the restore passes exactly when
      some page read shows "Completed successfully" before any read raises an exception
      other than a `WebDriverException`. */
  function WaitForRestore(o: RestoreOracle): (r: Outcome)
    requires Complete(o)
    ensures r.Pass? <==> (o.markerFrame &&
      exists j :: 0 <= j < RestoreChecks && Shows(o.pages[j], RestoreMarker) &&
        forall i :: 0 <= i < j ==> !o.pages[i].OtherFault?)
    ensures r.Fail? ==> r.error == (if o.markerFrame then RestoreFailed else DriverError)
  {
    PageFromFinds(RestoreMarker, o.pages, 0, RestoreChecks);
    if !o.markerFrame then Fail(DriverError)
    else if PageSpec(RestoreMarker, o.pages, RestoreChecks) == Ok(true) then Pass
    else Fail(RestoreFailed)
  }

  /** When every check reads a page source without the marker, the code as written lets
      the restore pass, although it never completed. */
  lemma AsWrittenPassesWithoutMarker(o: RestoreOracle)
    requires Complete(o) && o.markerFrame
    requires forall j :: 0 <= j < RestoreChecks ==> o.pages[j].Source? && !Occurs(RestoreMarker, o.pages[j].html)
    ensures WaitAsWritten(o) == Pass
    ensures WaitForRestore(o) == Fail(RestoreFailed)
  {
    PageFromFinds(RestoreMarker, o.pages, 0, RestoreChecks);
  }

  /** Which reading of `wait_for_restore_success` a restore runs: the code as written, or
      the corrected check that fails when the marker never showed. */
  datatype WaitRule = AsWritten | Corrected

  function Wait(rule: WaitRule, o: RestoreOracle): (r: Outcome)
    requires Complete(o)
    ensures r.Fail? ==> r.error == (if o.markerFrame then RestoreFailed else DriverError)
  {
    match rule
    case AsWritten => WaitAsWritten(o)
    case Corrected => WaitForRestore(o)
  }

  /** The corrected check passes only where the code as written passes, and the two
      differ exactly when the frame switch passes and `page_contains_text` returns falsy. */
  lemma WaitCorrectionIsStricter(o: RestoreOracle)
    requires Complete(o)
    ensures WaitForRestore(o).Pass? ==> WaitAsWritten(o).Pass?
    ensures WaitForRestore(o) != WaitAsWritten(o) <==>
      o.markerFrame && PageSpec(RestoreMarker, o.pages, RestoreChecks) == Ok(false)
  {
    var seen := PageSpec(RestoreMarker, o.pages, RestoreChecks);
    if o.markerFrame {
      match seen {
        case Err(_) =>
        case Ok(b) =>
          if b {
            assert WaitForRestore(o) == Pass == WaitAsWritten(o);
          } else {
            assert WaitForRestore(o) == Fail(RestoreFailed);
          }
      }
    }
  }

  /** The steps up to the Backup & Restore window: focus `main`, log in, click the
      button and name the window that opens. */
  function OpenDialog(reg: Registry, o: RestoreOracle): (t: Transition)
    ensures t.outcome != Fail(IndexError) && t.outcome != Fail(RestoreFailed)
  {
    var a := ActivateStep(reg, Main);
    if a.outcome.Fail? then a
    else if !o.loggedIn || !o.dialogOpened then Transition(a.reg, Fail(DriverError))
    else NewWindowStep(a.reg, BackupWindow, o.dialogPolls, true)
  }

  /** The steps after the backup is chosen, up to the wait: name the password window,
      type the password, then focus the Backup & Restore window again. */
  function AwaitPassword(reg: Registry, o: RestoreOracle): (t: Transition)
    ensures t.outcome != Fail(IndexError) && t.outcome != Fail(RestoreFailed)
  {
    var p := NewWindowStep(reg, PasswordWindow, o.passwordPolls, true);
    if p.outcome.Fail? then p
    else if !o.passwordEntered then Transition(p.reg, Fail(DriverError))
    else ActivateStep(p.reg, BackupWindow)
  }

  /** The steps after the wait: close the password window, then the Backup & Restore
      window, each time falling back to `main`. */
  function CloseDialog(reg: Registry): Transition
  {
    var c := CloseStep(reg, PasswordWindow, "");
    if c.outcome.Fail? then c
    else CloseStep(c.reg, BackupWindow, "")
  }

  /** The steps after the backup is chosen: the password prompt, the wait for the marker,
      then closing both windows. */
  function ConfirmRestore(reg: Registry, o: RestoreOracle, rule: WaitRule): (t: Transition)
    requires Complete(o)
    ensures t.outcome != Fail(IndexError)
  {
    var b := AwaitPassword(reg, o);
    if b.outcome.Fail? then b
    else
      var w := Wait(rule, o);
      if w.Fail? then Transition(b.reg, w)
      else CloseDialog(b.reg)
  }

  /** `restore_backup(site, url, index)` as a whole, under either reading of the wait. */
  function RestoreSpec(reg: Registry, index: nat, o: RestoreOracle, rule: WaitRule): Transition
    requires Complete(o)
  {
    var d := OpenDialog(reg, o);
    if d.outcome.Fail? then d
    else if !o.restoreTab then Transition(d.reg, Fail(DriverError))
    else match BackupChoice(index, o)
      case Err(e) => Transition(d.reg, Fail(e))
      case Ok(_) => ConfirmRestore(d.reg, o, rule)
  }

  /** Opening the dialog keeps the registry invariant; when it passes, the Backup & Restore
      window is the one name added, and it is active. */
  lemma OpenDialogKeepsValid(reg: Registry, o: RestoreOracle)
    requires Valid(reg)
    ensures Valid(OpenDialog(reg, o).reg)
    ensures OpenDialog(reg, o).outcome.Pass? ==>
      && BackupWindow !in reg.activated
      && OpenDialog(reg, o).reg.activated - {BackupWindow} == reg.activated
      && BackupWindow in OpenDialog(reg, o).reg.activated
      && OpenDialog(reg, o).reg.active == BackupWindow
  {
    var a := ActivateStep(reg, Main);
    NewWindowKeepsValid(a.reg, BackupWindow, o.dialogPolls, true);
  }

  /** Confirming keeps the registry invariant; when it passes, the password window and
      the Backup & Restore window are unbound again and `main` is active. */
  lemma ConfirmRestoreKeepsRegistry(reg: Registry, o: RestoreOracle, rule: WaitRule)
    requires Valid(reg) && Complete(o)
    requires BackupWindow in reg.activated && BackupWindow != Main && PasswordWindow !in reg.activated
    ensures Valid(ConfirmRestore(reg, o, rule).reg)
    ensures ConfirmRestore(reg, o, rule).outcome.Pass? ==>
      && ConfirmRestore(reg, o, rule).reg.activated == reg.activated - {BackupWindow}
      && ConfirmRestore(reg, o, rule).reg.active == Main
  {
    AwaitPasswordFocusesDialog(reg, o);
    var b := AwaitPassword(reg, o);
    if b.outcome.Pass? {
      CloseDialogPasses(b.reg);
    }
  }

  /** A restore keeps the registry invariant; when it returns normally it leaves the
      bindings as it found them, with `main` active. */
  lemma RestoreKeepsRegistry(reg: Registry, index: nat, o: RestoreOracle, rule: WaitRule)
    requires Valid(reg) && Complete(o)
    requires BackupWindow !in reg.activated && PasswordWindow !in reg.activated
    ensures Valid(RestoreSpec(reg, index, o, rule).reg)
    ensures RestoreSpec(reg, index, o, rule).outcome.Pass? ==>
      RestoreSpec(reg, index, o, rule).reg.activated == reg.activated && RestoreSpec(reg, index, o, rule).reg.active == Main
  {
    OpenDialogKeepsValid(reg, o);
    var d := OpenDialog(reg, o);
    if d.outcome.Pass? && o.restoreTab && BackupChoice(index, o).Ok? {
      ConfirmRestoreKeepsRegistry(d.reg, o, rule);
    }
  }

  /** The only IndexError a restore raises is the one from an index past the end of the
      backup list, once the dialog is open and the restore tab selected. */
  lemma RestoreIndexError(reg: Registry, index: nat, o: RestoreOracle, rule: WaitRule)
    requires Complete(o)
    ensures RestoreSpec(reg, index, o, rule).outcome == Fail(IndexError) <==>
      OpenDialog(reg, o).outcome.Pass? && o.restoreTab && BackupChoice(index, o) == Err(IndexError)
  {
    var d := OpenDialog(reg, o);
    if d.outcome.Pass? && o.restoreTab && BackupChoice(index, o).Ok? {
      assert RestoreSpec(reg, index, o, rule) == ConfirmRestore(d.reg, o, rule);
    }
  }

  /** With the corrected wait, a restore returns normally only after the backup at `index`
      was selected and the page showed "Completed successfully". */
  lemma RestorePassesOnlyWithMarker(reg: Registry, index: nat, o: RestoreOracle)
    requires Complete(o)
    ensures RestoreSpec(reg, index, o, Corrected).outcome.Pass? ==>
      && BackupChoice(index, o).Ok?
      && exists j :: 0 <= j < RestoreChecks && Shows(o.pages[j], RestoreMarker)
  {
    var d := OpenDialog(reg, o);
    if d.outcome.Pass? && o.restoreTab && BackupChoice(index, o).Ok? {
      var p := NewWindowStep(d.reg, PasswordWindow, o.passwordPolls, true);
      if ConfirmRestore(d.reg, o, Corrected).outcome.Pass? {
        assert WaitForRestore(o).Pass?;
      }
    }
  }

  /** With the Backup & Restore window open and no password window, the password prompt
      that passes adds only the password window and leaves the dialog focused. */
  lemma AwaitPasswordFocusesDialog(reg: Registry, o: RestoreOracle)
    requires Valid(reg) && BackupWindow in reg.activated && BackupWindow != Main && PasswordWindow !in reg.activated
    ensures var b := AwaitPassword(reg, o);
      && Valid(b.reg)
      && (b.outcome.Pass? ==>
        && b.reg.activated - {PasswordWindow} == reg.activated
        && PasswordWindow in b.reg.activated
        && b.reg.active == BackupWindow)
  {
    NewWindowKeepsValid(reg, PasswordWindow, o.passwordPolls, true);
  }

  /** With both dialog windows bound, closing them passes, unbinds exactly them and leaves
      `main` focused. */
  lemma CloseDialogPasses(reg: Registry)
    requires Valid(reg) && BackupWindow in reg.activated && PasswordWindow in reg.activated
    ensures var c := CloseDialog(reg);
      && c.outcome == Pass && Valid(c.reg)
      && c.reg.activated == reg.activated - {PasswordWindow, BackupWindow}
      && c.reg.active == Main
  {
    CloseKeepsValid(reg, PasswordWindow, "");
    var c := CloseStep(reg, PasswordWindow, "");
    CloseKeepsValid(c.reg, BackupWindow, "");
  }

  /** The two readings of the wait give the same restore wherever the corrected one passes;
      they differ only where the corrected restore fails for want of the marker. */
  lemma RestoreCorrectionIsStricter(reg: Registry, index: nat, o: RestoreOracle)
    requires Complete(o)
    ensures RestoreSpec(reg, index, o, Corrected).outcome.Pass? ==>
      RestoreSpec(reg, index, o, AsWritten) == RestoreSpec(reg, index, o, Corrected)
    ensures RestoreSpec(reg, index, o, AsWritten) != RestoreSpec(reg, index, o, Corrected) ==>
      && RestoreSpec(reg, index, o, Corrected).outcome == Fail(RestoreFailed)
      && PageSpec(RestoreMarker, o.pages, RestoreChecks) == Ok(false)
  {
    WaitCorrectionIsStricter(o);
    var d := OpenDialog(reg, o);
    if d.outcome.Pass? && o.restoreTab && BackupChoice(index, o).Ok? {
      assert RestoreSpec(reg, index, o, AsWritten) == ConfirmRestore(d.reg, o, AsWritten);
      assert RestoreSpec(reg, index, o, Corrected) == ConfirmRestore(d.reg, o, Corrected);
    }
  }

  /** Where no check shows the marker and none raises, `restore_backup` as written
      returns normally exactly where the corrected restore fails for want of the marker:
      it closes both windows and reports success for a restore that never completed. */
  lemma RestoreAsWrittenIgnoresMissingMarker(reg: Registry, index: nat, o: RestoreOracle)
    requires Valid(reg) && Complete(o) && o.markerFrame
    requires BackupWindow !in reg.activated && PasswordWindow !in reg.activated
    requires PageSpec(RestoreMarker, o.pages, RestoreChecks) == Ok(false)
    ensures RestoreSpec(reg, index, o, Corrected).outcome != Pass
    ensures RestoreSpec(reg, index, o, AsWritten).outcome == Pass <==>
      RestoreSpec(reg, index, o, Corrected).outcome == Fail(RestoreFailed)
    ensures RestoreSpec(reg, index, o, AsWritten).outcome == Pass ==>
      RestoreSpec(reg, index, o, AsWritten).reg.activated == reg.activated
  {
    RestoreKeepsRegistry(reg, index, o, AsWritten);
    assert WaitAsWritten(o) == Pass && WaitForRestore(o) == Fail(RestoreFailed);
    OpenDialogKeepsValid(reg, o);
    var d := OpenDialog(reg, o);
    if d.outcome.Fail? {
      assert RestoreSpec(reg, index, o, AsWritten) == d == RestoreSpec(reg, index, o, Corrected);
    } else if !o.restoreTab {
      assert RestoreSpec(reg, index, o, AsWritten) == RestoreSpec(reg, index, o, Corrected);
    } else if BackupChoice(index, o).Err? {
      assert BackupChoice(index, o) != Err(RestoreFailed) by {
        FindRaisesDriverError(o.listing, 0, FindAttempts(0));
      }
      assert RestoreSpec(reg, index, o, AsWritten) == RestoreSpec(reg, index, o, Corrected);
    } else {
      ConfirmIgnoresMissingMarker(d.reg, o);
    }
  }

  /** Where no check shows the marker, confirming as written passes, closing both windows,
      exactly where the corrected confirmation fails for want of the marker. */
  lemma ConfirmIgnoresMissingMarker(reg: Registry, o: RestoreOracle)
    requires Valid(reg) && Complete(o) && o.markerFrame
    requires BackupWindow in reg.activated && BackupWindow != Main && PasswordWindow !in reg.activated
    requires WaitAsWritten(o) == Pass && WaitForRestore(o) == Fail(RestoreFailed)
    ensures ConfirmRestore(reg, o, Corrected).outcome != Pass
    ensures ConfirmRestore(reg, o, AsWritten).outcome == Pass <==>
      ConfirmRestore(reg, o, Corrected).outcome == Fail(RestoreFailed)
  {
    AwaitPasswordFocusesDialog(reg, o);
    var b := AwaitPassword(reg, o);
    if b.outcome.Pass? {
      CloseDialogPasses(b.reg);
    }
  }

  /** `Site.restore_backup(index)` on the browser oracle. */
  method ChooseBackup(index: nat, o: RestoreOracle) returns (r: Result<string>)
    requires Complete(o)
    ensures r == BackupChoice(index, o)
  {
    if !o.listFrame {
      return Err(DriverError);
    }
    var found, calls, sleeps := Find(o.listing, 0);
    if found.Err? {
      return Err(found.error);
    }
    var options := ListOptions(found.value);
    if options.Err? {
      return Err(options.error);
    }
    if index >= |options.value| {
      return Err(IndexError);
    }
    if !o.selected {
      return Err(DriverError);
    }
    r := Ok(options.value[index]);
  }

  /** `Site.wait_for_restore_success(restore_timeout_minutes * 60)`: an exception from
      `page_contains_text` fails the restore; its falsy result is ignored as written, and
      treated as the failure it reports under the corrected reading. */
  method WaitForRestoreSuccess(o: RestoreOracle, rule: WaitRule) returns (r: Outcome)
    requires Complete(o)
    ensures r == Wait(rule, o)
  {
    if !o.markerFrame {
      return Fail(DriverError);
    }
    var shown, checks, sleeps := PageContainsText(RestoreMarker, o.pages, RestoreChecks);
    if shown.Err? {
      r := Fail(RestoreFailed);
    } else if shown == Ok(true) || rule == AsWritten {
      r := Pass;
    } else {
      r := Fail(RestoreFailed);
    }
  }

  /** `restore_backup(site, url, index)` on the site. */
  method RestoreBackup(site: Site, index: nat, o: RestoreOracle, rule: WaitRule) returns (outcome: Outcome)
    requires Complete(o)
    modifies site
    ensures Transition(site.Model(), outcome) == RestoreSpec(old(site.Model()), index, o, rule)
  {
    outcome := site.ActivateWindow(Main);
    if outcome.Fail? {
      return;
    }
    if !o.loggedIn || !o.dialogOpened {
      return Fail(DriverError);
    }
    outcome := site.NameNewWindow(BackupWindow, o.dialogPolls, true);
    if outcome.Fail? {
      return;
    }
    if !o.restoreTab {
      return Fail(DriverError);
    }
    var chosen := ChooseBackup(index, o);
    if chosen.Err? {
      return Fail(chosen.error);
    }
    outcome := site.NameNewWindow(PasswordWindow, o.passwordPolls, true);
    if outcome.Fail? {
      return;
    }
    if !o.passwordEntered {
      return Fail(DriverError);
    }
    outcome := site.ActivateWindow(BackupWindow);
    if outcome.Fail? {
      return;
    }
    outcome := WaitForRestoreSuccess(o, rule);
    if outcome.Fail? {
      return;
    }
    outcome := site.CloseWindow(PasswordWindow, "");
    if outcome.Fail? {
      return;
    }
    outcome := site.CloseWindow(BackupWindow, "");
  }
}
