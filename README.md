# Publish automation: a Dafny model

`automation.py` drives a vendor web admin console through Selenium. It
restores a "design" site and a "live" site from backups, then publishes, once
per cycle. The design backup ordinal advances every cycle until it runs off
the end of the backup list. This project models the logic under that script
and proves properties of the model:

- **Window registry** (`windows.dfy`). This covers `Site.activated`, the map
  from logical window names to browser handles, and `Site.active_window`.
  - Each operation (`__init__`, `activate_window`, `name_new_window`,
    `close_window`) is first a function on a `Registry` value.
  - The class `Site` holds the two fields. Its methods are proved to make
    exactly those transitions.
  - The registry invariant holds throughout: the map is injective, `main` is
    bound, and the active name is bound.
- **Retry primitives** (`retry.dfy`): `find`, `finds`, `page_contains_text`,
  `list_options` and `send_keys`. The browser is an oracle that gives one
  recorded answer per attempt, and sleeps are counted.
- **Substring tests** (`text.dfy`). Python's `sub in s` and ASCII
  `s.lower()` are modelled and related to their meaning.
- **Publish** (`publishing.dfy`). This covers the set-up steps, the status
  classifier (a pure function), and the per-tick polling loop, written both as
  a function and as a method on the site.
- **Restore** (`restoring.dfy`). This covers `restore_backup` and the `Site`
  methods it calls, among them the backup choice and the wait for the success
  marker.
- **Driver** (`driver.dfy`): the `main` loop over design indices, with a
  fresh `Site` per cycle.

Browser answers are oracle values:

- `Lookup` for an element lookup;
- `PageRead` for a read of the page source;
- `Polls` for the window-handle lists seen by `name_new_window`;
- `Tick` for one pass of the publish loop;
- booleans for the clicks and form entries that either go through or raise.

A falsy `retries` or `then_focus` argument is written as `0` or `""`.

Where the code and its written design disagree, the model follows the code:

- `find` and `finds` make at most `retries - 1` lookups, because they loop
  over `range(1, retries)`.
- `find` and `page_contains_text` sleep after every miss, the last one
  included.
- A duplicate window name raises a RuntimeError. `main`'s
  `except Exception` catches it and the loop goes on, so it is not fatal.
- Any IndexError in a cycle ends `main`, including one from the live restore
  (backup 0 missing), not only the design index running out.
- The restore wait does not fail when the success text never appears (see
  Findings). The restore and the driver therefore take a `WaitRule`:
  `AsWritten` runs `wait_for_restore_success` as the code does, and
  `Corrected` runs the check that fails when the marker never showed. Every
  property of a restore or of a cycle is stated under both readings, except
  where a row names one of them.

## Model

| member | source | states |
|---|---|---|
| Text.ContainsIffOccurs | automation.py:176-191 | the scan behind `sub in s` answers true exactly when `sub` occurs at some position of `s` |
| Text.LowerContainsIgnoresCase | automation.py:193 | `'oops' in status.lower()` holds exactly when "oops" occurs in the status with letter case ignored |
| Retry.FindFromFirstAnswer | automation.py:423-433 | `find` reports not-found exactly when every lookup is absent, otherwise it returns what the first non-absent lookup gives |
| Retry.Find | automation.py:423-433 | at most `retries - 1` lookups (9 by default); a sleep after each absent lookup; `False` only after all of them; a `select` element comes back wrapped; the result is the first non-absent answer |
| Retry.Finds | automation.py:435-443 | at most `retries - 1` lookups; `[]` only when every lookup was empty; otherwise the first non-empty list, or the exception of the lookup that raised |
| Retry.FindRaisesDriverError | automation.py:423-433 | the only exception `find` lets through is the one a lookup raised |
| Retry.PageFromFinds | automation.py:408-417 | the text is reported found exactly when some read shows it before any read raises a non-WebDriver exception; the falsy result exactly when no read shows it and none raises |
| Retry.PageFromRaises | automation.py:408-417 | an exception escapes exactly when some read raises a non-WebDriver exception before any read shows the text |
| Retry.PageContainsText | automation.py:408-417 | at most `retries` checks (10 by default); WebDriverExceptions are swallowed; true on the first hit; a sleep after every miss, the last one included |
| Retry.StrokesTyped | automation.py:384-390 | one key sequence types its characters in order, with one `clear()` when asked |
| Retry.AllStrokesTypeJoin | automation.py:376-379 | a list of sequences types their concatenation, with one `clear()` per sequence when asked |
| Retry.SendKeys | automation.py:368-382 | when the target is not found, RuntimeError and nothing is typed; an exception while finding escapes; a plain element receives exactly the keystrokes of every sequence in order; a `Select` wrapper raises AttributeError at the first keystroke, so only an empty key list gets through |
| Windows.FirstNonEmpty | automation.py:234-237 | the handle kept is non-empty, and it is the first non-empty read of the current window handle |
| Windows.Initial | automation.py:233-237 | the new registry satisfies the invariant, binds only `main`, and makes `main` active |
| Windows.Unbound | automation.py:265 | the list holds exactly the handles not yet bound, and its head is the earliest such handle |
| Windows.AwaitNewWindow | automation.py:263-272 | a handle found by the bounded wait is never one already bound |
| Windows.AwaitNoWindow | automation.py:263-272 | no window appears exactly when every handle of all 5 attempts is already bound |
| Windows.AwaitNewWindowFirst | automation.py:263-268 | the handle taken is the first unbound handle of the first attempt that shows one |
| Windows.ActivateStep | automation.py:278-282 | bindings unchanged; KeyError exactly when the name is unbound; otherwise the name becomes active |
| Windows.NewWindowStep | automation.py:257-276 | a bound name raises "used twice" with the registry unchanged; a failure leaves the registry unchanged; "did not appear" exactly when every handle seen is bound; success binds the name, and only it, to a previously unbound handle (the first of the first attempt showing one) |
| Windows.CloseStep | automation.py:284-295 | the name is always unbound afterwards, other bindings untouched; it passes exactly when the name and the fallback (`then_focus`, else `main`) were bound and differ, and the fallback becomes active; otherwise KeyError with the active name unchanged |
| Windows.NewWindowKeepsValid | automation.py:257-276 | binding a new window keeps the map injective, `main` bound and the active name bound |
| Windows.CloseKeepsValid | automation.py:284-295 | closing any window but `main` keeps the invariant when it passes, and the closed name can no longer be activated |
| Windows.Site.constructor | automation.py:233-237 | the fields hold the initial registry |
| Windows.Site.ActivateWindow | automation.py:278-282 | the fields change exactly as `ActivateStep` says |
| Windows.Site.NameNewWindow | automation.py:257-276 | the fields change exactly as `NewWindowStep` says |
| Windows.Site.CloseWindow | automation.py:284-295 | the fields change exactly as `CloseStep` says |
| Publishing.Classify | automation.py:176-204 | the status classifier, defined by its body (the `if`/`elif` chain); its meaning is stated by `Publishing.ClassifyMeaning` |
| Publishing.ClassifyMeaning | automation.py:175-204 | each verdict holds exactly when the status reads so. The precedence is corrupted, then warnings, then success (case-sensitive), then "oops" in any case, then more live windows than names, else keep polling |
| Publishing.ReactStep | automation.py:175-204 | the reaction to one status, defined by its body (the four terminal verdicts end the loop, a surplus window is dismissed, anything else goes on); its properties are stated by `Publishing.ReactKeepsRegistry` and `Publishing.ClassifyMeaning` |
| Publishing.Dismiss | automation.py:199-204 | the dismissal of a surplus window, defined by its body (name it `expected_popup`, click #OKButton, close it back to `publish`); its properties are stated by `Publishing.DismissKeepsRegistry` |
| Publishing.TickStep | automation.py:150-204 | one pass of the polling loop, defined by its body; its properties are stated by `Publishing.TickKeepsRegistry`, `Publishing.TickEnds` and `Publishing.TickLogsChange` |
| Publishing.Poll | automation.py:150-207 | the polling loop, defined by its body; its properties are stated by `Publishing.PollKeepsRegistry`, `Publishing.PollTimesOutOnlyWithoutBreak`, `Publishing.QuietTicksTimeOut` and `Publishing.PollLogsOnlyChanges` |
| Publishing.PollAdvance | automation.py:150-204 | proof helper for `Publishing.PollStatus`: one more tick either ends the run with the statuses logged so far, or carries it to the next stored status |
| Publishing.SetUp | automation.py:123-144 | the set-up of `publish` up to the polling loop, defined by its body; its properties are stated by `Publishing.SetUpKeepsRegistry` |
| Publishing.EnterPassword | automation.py:139-144 | the password prompt of `publish`, defined by its body (name it, type the password, close it back to `publish`); its properties are stated by `Publishing.EnterPasswordKeepsRegistry` |
| Publishing.PublishSpec | automation.py:121-207 | `publish` as a whole, defined by its body (an exception in the set-up escapes, otherwise the polling loop runs from an empty stored status); its properties are stated by `Publishing.PublishKeepsRegistry` and the `Publishing.Poll…` rows |
| Publishing.SetUpKeepsRegistry | automation.py:123-144 | the set-up keeps the invariant and raises no IndexError; when it passes, `publish` is the one name added |
| Publishing.EnterPasswordKeepsRegistry | automation.py:139-144 | the password prompt leaves the bindings as it found them when it passes |
| Publishing.ReactKeepsRegistry | automation.py:175-204 | reacting to a status keeps the invariant and raises no IndexError; a normal ending leaves the bindings unchanged |
| Publishing.DismissKeepsRegistry | automation.py:199-204 | dismissing the surplus window keeps the invariant; when it passes, `expected_popup` is unbound again |
| Publishing.TickKeepsRegistry | automation.py:150-204 | a tick keeps the invariant; a tick that goes on leaves the bindings unchanged |
| Publishing.PollKeepsRegistry | automation.py:150-207 | the loop keeps the invariant, raises no IndexError and, when it returns normally, leaves the bindings unchanged |
| Publishing.TickEnds | automation.py:155-197 | with `publish` bound, a failed status lookup or a terminal status ends the loop, and no tick ends it with the timeout |
| Publishing.PollTimesOutOnlyWithoutBreak | automation.py:150-207 | at most one tick per pass; TIMEOUT only after every tick was used and none carried a terminal status or a failed lookup |
| Publishing.QuietTicksTimeOut | automation.py:150-207 | when every tick is quiet, the loop uses the whole budget, reports TIMEOUT and leaves the bindings unchanged |
| Publishing.TickLogsChange | automation.py:162-170 | apart from a renderer timeout, a tick logs at most one status, only one that differs from the stored one, and then stores it; with `publish` bound, a status read is logged exactly when it differs from the stored one, and a tick that goes on stores it |
| Publishing.LogsChangesPrepend | automation.py:164-166 | adding either nothing or one new status in front keeps the log free of repeats |
| Publishing.PollLogsOnlyChanges | automation.py:149-171 | without renderer timeouts, no two neighbouring log entries are equal, and the first differs from the status stored on entry |
| Publishing.PublishKeepsRegistry | automation.py:121-207 | `publish` keeps the invariant and never raises IndexError; when it returns normally, `publish` is the one name it added |
| Publishing.React | automation.py:175-204 | the site changes, and the loop ends or goes on, exactly as `ReactStep` says |
| Publishing.RunTick | automation.py:150-204 | the site and the next step are exactly those of `TickStep` |
| Publishing.PollStatus | automation.py:149-207 | the final site, log, result and ticks used are exactly those of `Poll` from an empty stored status |
| Publishing.Publish | automation.py:121-207 | the final site and run are exactly those of `PublishSpec` |
| Restoring.BackupChoice | automation.py:314-321 | IndexError exactly when the drop-down was found and `index` is not below its option count; AttributeError when `find` returned something other than a `select` (no `.options`); on success the label selected is the option at `index` |
| Restoring.WaitAsWritten | automation.py:327-337 | as written, the wait fails exactly when the frame switch fails (DriverError) or a read raises a non-WebDriver exception before any read shows "Completed successfully" (RestoreFailed); 600 checks without the marker pass |
| Restoring.WaitForRestore | automation.py:327-337 | corrected: the restore passes exactly when some read within 600 checks shows "Completed successfully" before any read raises a non-WebDriver exception; otherwise RestoreFailed (DriverError when the frame switch fails) |
| Restoring.AsWrittenPassesWithoutMarker | automation.py:327-337 | when every check reads a page source without the marker, the code as written passes while the corrected wait fails |
| Restoring.WaitCorrectionIsStricter | automation.py:327-337 | the corrected wait passes only where the code as written passes; the two differ exactly when the frame switch passes and `page_contains_text` returns falsy |
| Restoring.Wait | automation.py:327-337 | under either reading, the wait fails only with DriverError (the frame switch) or RestoreFailed |
| Restoring.OpenDialog | automation.py:100-106 | opening the Backup & Restore window never raises IndexError, nor the restore failure |
| Restoring.AwaitPassword | automation.py:112-115 | naming the password window, typing the password and focusing the dialog again never raise IndexError, nor the restore failure |
| Restoring.ConfirmRestore | automation.py:112-118 | the confirmation steps never raise IndexError, under either reading of the wait |
| Restoring.CloseDialog | automation.py:117-118 | closing the password window and then the Backup & Restore window, each back to `main`, defined by its body; its properties are stated by `Restoring.CloseDialogPasses` |
| Restoring.RestoreSpec | automation.py:98-118 | `restore_backup` as a whole, defined by its body (the steps in order, the first exception ending it); its properties are stated by the `Restoring.Restore…` lemma rows below |
| Restoring.AwaitPasswordFocusesDialog | automation.py:112-115 | with the dialog open and no password window, a prompt that passes adds only the password window and leaves the dialog focused |
| Restoring.CloseDialogPasses | automation.py:117-118 | with both dialog windows bound, closing them passes, unbinds exactly them and focuses `main` |
| Restoring.OpenDialogKeepsValid | automation.py:100-106 | opening the dialog keeps the invariant; when it passes, `backup_and_restore` is the one name added, and it is active |
| Restoring.ConfirmRestoreKeepsRegistry | automation.py:112-118 | confirming keeps the invariant; when it passes, both dialog windows are unbound again and `main` is active |
| Restoring.RestoreKeepsRegistry | automation.py:98-118 | a restore keeps the invariant; a successful restore leaves the bindings as it found them, with `main` active |
| Restoring.RestoreIndexError | automation.py:98-118 | a restore raises IndexError exactly when, with the dialog open and the restore tab selected, the backup index is past the end of the backup list |
| Restoring.RestorePassesOnlyWithMarker | automation.py:98-118 | with the corrected wait, a restore returns normally only after selecting the backup at `index` and seeing "Completed successfully" |
| Restoring.RestoreCorrectionIsStricter | automation.py:98-118 | the two readings give the same restore wherever the corrected one passes; where they differ, the corrected restore fails with RestoreFailed and the marker never showed |
| Restoring.RestoreAsWrittenIgnoresMissingMarker | automation.py:98-118 | when `page_contains_text` returns falsy (no check shows the marker and none raises), the corrected restore does not pass, while the restore as written passes exactly where the corrected one fails for want of the marker; a restore that passes so leaves the bindings as it found them, both dialog windows closed |
| Restoring.ConfirmIgnoresMissingMarker | automation.py:112-118 | proof helper for `Restoring.RestoreAsWrittenIgnoresMissingMarker`: with the wait as written passing and the corrected one failing, confirming as written passes exactly where the corrected confirmation fails with RestoreFailed |
| Restoring.ChooseBackup | automation.py:314-321 | the label selected, or the exception, is exactly that of `BackupChoice` |
| Restoring.WaitForRestoreSuccess | automation.py:327-337 | the outcome is exactly that of `Wait` under the reading chosen: the code as written, or the corrected check |
| Restoring.RestoreBackup | automation.py:98-118 | the site and outcome are exactly those of `RestoreSpec` under the reading chosen |
| Driver.CycleSpec | automation.py:73-89 | the design restore uses the cycle's index; the live restore runs exactly when the design restore passed; `publish` runs exactly when both passed |
| Driver.CycleEndsOnlyOnBackupIndex | automation.py:73-89 | a cycle ends the loop exactly when one of its restores raised IndexError; `publish` never does |
| Driver.Reports | automation.py:70-88 | the report each cycle would give, defined by its body; the report of cycle `j` carries design index `j` |
| Driver.PublicationsCount | automation.py:86-88 | proof helper for `Driver.DriveUntilBackupsRunOut`: when all reports but the last show a publication and the last shows none, there is one publication fewer than reports |
| Driver.RunsCount | automation.py:71-90 | proof helper for `Driver.DriveUntilBackupsRunOut`: if `n` cycles go on and publish and cycle `n` ends without publishing, the loop keeps `n + 1` reports and `n` publications |
| Driver.CyclesGoOn | automation.py:73-90 | proof helper for `Driver.DriveUntilBackupsRunOut`: a cycle that restores both sites neither ends the loop nor skips `publish` |
| Driver.RunStopsOnlyOnBackupIndex | automation.py:70-90 | the reports kept carry design indices 0, 1, 2, ... in order; the loop stops before the oracle runs out only after a restore ran past the end of the backup list |
| Driver.DriveUntilBackupsRunOut | automation.py:69-95 | when cycles 0..n-1 restore both sites and cycle n finds no design backup, exactly n+1 cycles run and `publish` runs n times |
| Driver.RunCycle | automation.py:72-88 | the report of one cycle on a fresh site is exactly `CycleSpec` under the reading chosen |
| Driver.DriveCycles | automation.py:69-95 | the reports are those of cycles 0, 1, 2, ... in order, up to and including the first that raised IndexError, or all of them when none did |

## Left out

- Browser construction and options, `driver.get`, `driver.quit` and the `getattr(webdriver, ...)` fallback. These are foreign library calls.
- Screenshots and all logging. The only log kept is the list of publish statuses, because which statuses get logged is itself a property.
- `time.sleep`. Time is counted in attempts, sleeps and ticks.
- CSS selectors, frame switching, clicks, `login`, `select_restore_tab`, `enter_popup_password` and the Selenium calls inside `send_keys`. Each becomes an oracle answer: a boolean, a `Lookup`, or a keystroke list.
- `_send_keys`'s `expect`/`unexpect` checks. They only log warnings.
- Usernames, passwords and URLs, which are configuration.
- `main` has no bound on the number of cycles: it stops only at the first IndexError. `Driver.DriveCycles` runs over the finite list of cycles its oracle supplies and also stops when that list is exhausted.
- `select_option` selects by visible text. With two backups carrying the same label it may pick an earlier one than `options[index]`. The model records the label chosen, not which backup the browser selects.
- A `TimeoutException` or other exception in a publish tick is modelled as raised before `publish` is focused. One raised after the focus moved would also change `active_window`.
- Restoring.RestorePassesOnlyWithMarker: holds only under the corrected wait (see Findings). The code as written also passes without the marker, as `Restoring.RestoreAsWrittenIgnoresMissingMarker` shows.
- Windows.ActivateStep: `switch_to.window` (automation.py:279) is assumed never to raise. In the code a failed switch escapes with `active_window` unchanged; the model reports Pass. The same holds where the step is reused: the activation in `name_new_window` and the refocus in `close_window`.
- Windows.NewWindowStep: the reads of `driver.window_handles` (automation.py:264) are the `Polls` oracle and are assumed never to raise.
- Publishing.Dismiss: the `driver.window_handles` read of the surplus-window test (automation.py:199) and `switch_to_default_content` after the dismissal (automation.py:203) are assumed never to raise.
- Windows.FirstNonEmpty: requires some non-empty handle among the reads of `current_window_handle`, as do `Windows.Initial`, `Windows.Site.constructor` and `Driver.Ready`. The source's `while not self.activated.get('main')` (automation.py:234-237) has no bound and would spin forever on falsy reads; that non-terminating run is not modelled.
- Restoring.WaitAsWritten: the `switch_to_default_content` inside the `try` (automation.py:331) is assumed never to raise. If it did, the source would raise the restore failure at once, where `WaitAsWritten` (and `WaitForRestore`, when the marker shows) reports Pass.
- `find`'s `interval` argument and `click`'s retries. Only the default retry count is used by the workflows.

## Findings

| source | as written | input that shows it | evidently intended | confidence | as-written member | corrected member |
|---|---|---|---|---|---|---|
| automation.py:327-337 | `wait_for_restore_success` raises only when `page_contains_text` raises; its falsy result after 600 checks without the marker is ignored, so the restore is reported as completed | every page read during the 600 checks reads "Restore in progress" | raise 'Restore Failed ("Completed Successfully" not found)' when the marker never shows | high, not executed | Restoring.AsWrittenPassesWithoutMarker | Restoring.WaitForRestore |
