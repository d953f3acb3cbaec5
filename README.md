# Valorant account switcher: a Dafny model

The account switcher (`main.py`) keeps game-account credentials in a local
SQLite file and logs into the Riot Client with them. It does this by pasting
the username and the password through the clipboard, with synthetic
keystrokes. This project models the parts with logic, on Dafny values and
objects, and proves the properties the program relies on.

- **The store** (`accounts.dfy`, module `Accounts`). The `accounts` table is a
  map from id to `Account`. A counter beside it plays the table's
  `sqlite_sequence` entry.
  - `SimpleDB` is a class whose `Add`, `Update` and `Delete` change those two
    fields. `All` builds the listing ordered by `nickname COLLATE NOCASE`.
  - Each write is specified by a function on the table value: `TableInsert`,
    `TableUpdate` or `TableDelete`.
  - The append import is `Merge`, a left fold of inserts over the source rows.
- **The main window** (`app.dfy`, module `Switcher`). `App` holds the form's
  entry fields, the listed rows, the selected id and the Launch button state.
  Its methods are the button handlers: add, update, delete, select, clear,
  import and launch. Each one returns the message box it ends with.
- **The copy panel's autofill** (`autofill.dfy`, module `Autofill`).
  `CopyPanel` is a class that records every OS-level effect in a `trace`: the
  clipboard writes, the keystrokes, window activation, always-on-top, the
  scheduling delays and the final teardown. `AutofillTrace` gives that trace
  as a function of four inputs:
  - which optional libraries loaded;
  - what the window search sees;
  - which step, if any, raises;
  - the panel's username and password.
- **String helpers** (`strings.dfy`, module `Strings`):
  - Python's `str.strip()`, with the full `str.isspace` set;
  - the panel's `sanitize_text`;
  - the password mask;
  - SQLite's NOCASE ordering;
  - the substring test behind the window search.

Behaviour of the code worth knowing, which the model follows:

- A nickname clash is checked exactly, with BINARY collation, so "Bob" and
  "bob" can coexist.
- An update of a missing id is a silent no-op.
- The append import counts every rejected insert as skipped. That includes a
  source row with a NULL field, although the message calls them all duplicate
  nicknames.
- Launch takes the fixed client path and starts it with no arguments. It
  fails with a message if the file is missing; it never prompts for a path.
- The copy panel receives the entries as they stand in the form (unstripped,
  and possibly edited since selection), not the stored row.
- The handlers test the selection as `not self.current_id`. An account with
  id 0 therefore counts as not selected (`App.Selected`).
- `getWindowsWithTitle("Riot Client")` is tried only when
  `getWindowsWithTitle("Riot")` found nothing. Under substring matching it
  can never find anything then, which `FallbackSearchFindsNothingNew` proves.
- `clear_form` leaves the Launch button enabled. `launch_riot` guards on the
  selection itself, which `LaunchRiot` models.

## Model

| member | source | states |
|---|---|---|
| Strings.TrimStart | main.py:263-265 | the result is a suffix of the input, what was removed is all whitespace, and the result does not start with whitespace |
| Strings.TrimEnd | main.py:263-265 | the result is a prefix of the input, what was removed is all whitespace, and the result does not end with whitespace |
| Strings.Strip | main.py:263-265 | `strip()` returns the input with a whitespace-only prefix and suffix cut off, and neither end of the result is whitespace |
| Strings.StripEmptyIffBlank | main.py:263-267 | a field strips to "" exactly when it is empty or all whitespace, which is when the form rejects it |
| Strings.IsSpace | main.py:263-265 | the characters `strip()` removes: Python's `str.isspace` set |
| Strings.ReplaceCrRemovesCr | main.py:540 | `replace("\r", "\n")` keeps the length and leaves no carriage return |
| Strings.ReplaceCrLfLength | main.py:540 | `replace("\r\n", "\n")` shortens the text by one per CR LF pair |
| Strings.NoCrFixesReplacements | main.py:540 | both replacements leave a text without carriage returns unchanged |
| Strings.ReplaceCrLf | main.py:540 | `replace("\r\n", "\n")` as a left-to-right scan |
| Strings.ReplaceCr | main.py:540 | `replace("\r", "\n")` character by character |
| Strings.Sanitize | main.py:538-540 | `sanitize_text`: the CR LF pass followed by the CR pass |
| Strings.SanitizeRemovesCr | main.py:538-540 | sanitised text holds no carriage return |
| Strings.SanitizeKeepsCrFree | main.py:538-540 | a text with no carriage return is sanitised to itself |
| Strings.SanitizeIdempotent | main.py:538-540 | sanitising twice gives what sanitising once gives |
| Strings.SanitizeLength | main.py:538-540 | the sanitised length is the input length minus the number of CR LF pairs |
| Strings.Masked | main.py:438 | the mask is all '*', as long as the value but never shorter than 4 |
| Strings.DisplayText | main.py:438 | the password row shows exactly the mask `"*" * max(4, len(value))`, and other rows show the value itself |
| Strings.MaskedRevealsOnlyLength | main.py:438 | two masks are equal exactly when `max(4, len)` is equal, so the mask shows nothing but a length |
| Strings.LexLeTotal | main.py:88 | code-point lexicographic order is total |
| Strings.LexLeTransitive | main.py:88 | code-point lexicographic order is transitive |
| Strings.LexLeAntisymmetric | main.py:88 | code-point lexicographic order is antisymmetric |
| Strings.NoCaseLeTotal | main.py:88 | any two nicknames are comparable under NOCASE |
| Strings.NoCaseLeTransitive | main.py:88 | the NOCASE order is transitive |
| Strings.NoCaseTieIffSameFold | main.py:88 | two nicknames tie under NOCASE exactly when they differ only in the case of ASCII letters |
| Strings.FoldCase | main.py:88 | NOCASE folds the 26 ASCII capitals to lower case and leaves every other character |
| Strings.FoldString | main.py:88 | NOCASE folding of a whole nickname |
| Strings.NoCaseLe | main.py:88 | `ORDER BY nickname COLLATE NOCASE`: code-point order of the folded nicknames |
| Strings.Contains | main.py:476-478 | the title test of the window search: the query occurs somewhere in the title |
| Strings.ContainsPrefixOf | main.py:476-478 | a title containing "Riot Client" contains "Riot" |
| Accounts.WellFormed | main.py:63-64 | the schema's invariants: no id above the AUTOINCREMENT counter, and no two rows share a nickname |
| Accounts.InsertOutcome | main.py:60-75 | an insert fails exactly on a NULL field (NOT NULL is checked first) or a nickname already present; otherwise it adds one row under a fresh id above every existing id, advances the counter, and keeps the table well formed |
| Accounts.InsertDuplicateRejected | main.py:60-75 | adding a nickname already in the table raises an integrity error and changes nothing |
| Accounts.CaseVariantsCoexist | main.py:64 | "bob" can be added beside "Bob", because uniqueness is exact |
| Accounts.UpdateOutcome | main.py:77-80 | an update of an existing row fails exactly when another row holds the new nickname; otherwise it replaces all three fields of that row, leaves every other row, the id set and the counter alone, and keeps the table well formed |
| Accounts.UpdateKeepingNickname | main.py:77-80 | a row may be updated under its own nickname |
| Accounts.UpdateStealingNickname | main.py:60-80 | taking another row's nickname raises a uniqueness error |
| Accounts.MissingIdIsNoOp | main.py:77-84 | an update or delete of an absent id succeeds and changes nothing |
| Accounts.DeleteOutcome | main.py:82-84 | a delete removes exactly that id, leaving the other rows and the counter alone |
| Accounts.TableInsert | main.py:71-75 | the INSERT: NOT NULL first, then exact UNIQUE, else a new row under `lastId + 1` |
| Accounts.TableUpdate | main.py:77-80 | the UPDATE: no-op on a missing id, UNIQUE against the other rows, else the three fields replaced |
| Accounts.TableDelete | main.py:82-84 | the DELETE: the row with that id removed, the counter kept |
| Accounts.Apply | main.py:71-84 | one write of a history, committed or rejected on its own |
| Accounts.Replay | main.py:71-84 | the table after a history of writes |
| Accounts.ApplyWellFormed | main.py:60-84 | each write keeps the schema's invariants and never lowers the counter |
| Accounts.ReplayWellFormed | main.py:60-84 | any history of writes keeps the schema's invariants |
| Accounts.ReplayPrefixCounter | main.py:63 | the counter after part of a history is at most the counter after all of it |
| Accounts.ReplayKeepsCounterGrowing | main.py:63 | the AUTOINCREMENT counter never decreases over any history of writes |
| Accounts.IdsNeverReused | main.py:63 | after any history of writes, a new row's id exceeds the starting counter and every id the table held at any point of the history, including ids added and deleted within it |
| Accounts.MergeStep | main.py:338-342 | one turn of the import loop: an insert that adds one, or an integrity error that skips one |
| Accounts.Merge | main.py:335-342 | the import loop over the source rows, from zero counts |
| Accounts.MergeAccounting | main.py:335-342 | added + skipped equals the number of source rows; the table gains exactly `added` rows, keeps every earlier row unchanged, and stays well formed (no rollback) |
| Accounts.TakenAfterInsert | main.py:339-342 | after one insert attempt, a nickname is present exactly when it was before or the row was complete and carried it |
| Accounts.MergeTakenIff | main.py:337-342 | after the first i source rows, a nickname is present exactly when it was before or an earlier complete source row carried it |
| Accounts.MergeSkipsExactly | main.py:337-342 | a source row is skipped exactly when it has a NULL field, its nickname was in the table, or an earlier source row added it |
| Accounts.MergeCoversSource | main.py:337-342 | afterwards every complete source row's nickname is in the table |
| Accounts.MergeAllPresent | main.py:337-342 | importing rows whose nicknames are all present adds 0, skips all of them, and leaves the table as it was |
| Accounts.IsListing | main.py:88 | a result of the listing query: every row of the table exactly once, in NOCASE nickname order |
| Accounts.InsertByNickname | main.py:88 | placing a row into a NOCASE-sorted listing keeps it sorted and adds exactly that row |
| Accounts.ListingRowsAreCurrent | main.py:86-89 | every row of a listing is the table's current row under its id |
| Accounts.ListingOrderExample | main.py:88 | "banana", "Apple" and "cherry" are listed as Apple, banana, cherry |
| Accounts.SimpleDB.Open | main.py:56-69 | opening a store file yields its table, which satisfies the schema |
| Accounts.SimpleDB.Add | main.py:71-75 | the new state is the insert's result, or the old state when the insert raises, in which case the integrity error is returned |
| Accounts.SimpleDB.Update | main.py:77-80 | the new state is the update's result, or the old state with the uniqueness error returned |
| Accounts.SimpleDB.Delete | main.py:82-84 | the new state is the table without that id |
| Accounts.SimpleDB.All | main.py:86-89 | the result lists every row of the table exactly once, sorted by NOCASE nickname |
| Autofill.WindowsWithTitle | main.py:476-478 | the windows returned, in title order, are exactly the open windows whose title contains the query |
| Autofill.FallbackSearchFindsNothingNew | main.py:476-478 | the "Riot Client" retry finds nothing when "Riot" found nothing, and a window is found exactly when some title contains "Riot" |
| Autofill.FirstWindowIsFirstMatch | main.py:476-480 | the first window returned is the first title, in order, that contains the query |
| Autofill.SearchTarget | main.py:476-480 | `candidates[0]`: the first "Riot" hit, else the first "Riot Client" hit |
| Autofill.SearchTargetIsFirstRiotWindow | main.py:476-480 | the window activated is the first, in order, whose title contains "Riot" |
| Autofill.Focused | main.py:473-484 | `focused` is set exactly when window control is available, the search raises nothing, finds a window and activating it raises nothing |
| Autofill.FocusPhase | main.py:473-497 | activate and wait 400 ms, or show the hint, drop always-on-top and wait 2000 ms |
| Autofill.MissingKeystrokesInjectsNothing | main.py:468-470 | without pyautogui the button only shows an error: no clipboard write, no keystroke, no teardown |
| Autofill.FocusDelay | main.py:472-497 | the injection is scheduled after 400 ms when a window was activated; otherwise the panel shows the hint, drops always-on-top and waits 2000 ms, and it drops always-on-top only then |
| Autofill.InjectionsAppend | main.py:508-531 | the injected events of a concatenation are those of each part, in order |
| Autofill.InjectionsFrom | main.py:508-531 | the injected events from step i on are step i, if it is an injection, followed by those after it |
| Autofill.InjectionStep | main.py:508-531 | the fourteen steps of do_autofill's `try` body, by index |
| Autofill.InjectionSteps | main.py:508-531 | the fourteen steps in order |
| Autofill.InjectionRun | main.py:499-535 | the steps before the one that raises, then the error box if one raised |
| Autofill.AutofillTrace | main.py:467-535 | the error box alone without pyautogui; otherwise the focus phase followed by the injection run |
| Autofill.PasswordHalfInjections | main.py:519-527 | from step 6 on, the run clears the clipboard, puts the sanitised password on it, pastes, then presses Enter |
| Autofill.StepInjections | main.py:508-527 | the full step list injects the username paste, Tab, the password paste and Enter, and nothing else |
| Autofill.CompletedRunInjections | main.py:467-531 | a run where nothing raises sends exactly clear, sanitised username, paste, Tab, clear, sanitised password, paste, Enter, in that order |
| Autofill.ClipboardAtEachPaste | main.py:509-523 | at the first paste the clipboard holds the sanitised username, at the second the sanitised password, and afterwards still the password |
| Autofill.DestroyedOnlyOnSuccess | main.py:499-535 | the application is torn down exactly when pyautogui is present and no step raised; the "Autofill failed" error appears exactly when a step raised, and the panel stays open |
| Autofill.CopyPanel.constructor | main.py:400-406 | the panel starts always-on-top, not destroyed, holding the given credentials and clipboard |
| Autofill.CopyPanel.Emit | main.py:488-531 | one OS call extends the trace and updates the clipboard, always-on-top flag and teardown flag to match it |
| Autofill.CopyPanel.Perform | main.py:508-531 | injection step i either raises (when it is the faulting step) or completes and extends the trace by that step |
| Autofill.CopyPanel.Paste | main.py:509-523 | clear the clipboard, put the text on it, send the paste hotkey, stopping at the step that raises |
| Autofill.CopyPanel.TypeCredentials | main.py:508-523 | steps 0 to 8 run in order up to the first that raises |
| Autofill.CopyPanel.Submit | main.py:525-531 | steps 9 to 13 run in order up to the first that raises |
| Autofill.CopyPanel.InjectCredentials | main.py:500-531 | the `try` body completes exactly when no step raises, and the trace grows by the steps before the first that raises |
| Autofill.CopyPanel.DoAutofill | main.py:499-535 | do_autofill's effect is the completed steps followed, on a failure, by the error box |
| Autofill.CopyPanel.FocusRiotWindow | main.py:472-497 | the trace grows by the focus phase: activate and 400 ms, or hint, drop always-on-top and 2000 ms |
| Autofill.CopyPanel.AutofocusAndAutofill | main.py:467-535 | on an application not yet torn down, one press of the autofill button, run without interleaving, adds exactly `AutofillTrace` to the trace, keeping clipboard, always-on-top and teardown consistent with it |
| Switcher.Submitted | main.py:263-267 | the form is rejected exactly when some entry is blank; otherwise the account is the three entries, each `strip()`ped, every field is non-empty and no longer than the entry, and the nickname has no surrounding whitespace |
| Switcher.App.Selected | main.py:280 | `not self.current_id` is false: an id is held and it is not 0 |
| Switcher.App.constructor | main.py:93-107 | start-up opens the store, lists all its rows in order, and starts with an empty form, no selection and Launch disabled |
| Switcher.App.RefreshList | main.py:241-245 | the list becomes the store's full NOCASE-ordered listing |
| Switcher.App.OnSelect | main.py:247-260 | selecting row i fills the form with that row's stored values, selects its id and enables Launch; an empty selection drops the id and disables Launch, leaving the entries as they were |
| Switcher.App.ClearForm | main.py:306-313 | the entries become empty, the password is hidden and nothing is selected |
| Switcher.App.AddAccount | main.py:262-275 | a blank entry changes nothing; a duplicate nickname changes nothing but the notice; otherwise the stripped account is inserted, the form cleared and the list reloaded |
| Switcher.App.SaveNew | main.py:269-275 | the store takes the insert's result; on success the form is cleared and the list reloaded, and on an integrity error nothing changes |
| Switcher.App.UpdateAccount | main.py:279-294 | with no selection or a blank entry nothing changes; otherwise the selected row takes all three stripped fields unless another row holds the nickname; the entries stay as typed |
| Switcher.App.SaveEdit | main.py:289-294 | the store takes the update's result; it fails exactly when another row holds the nickname, and on success the row holds the submitted account under the same id set |
| Switcher.App.DeleteAccount | main.py:296-304 | with no selection or no confirmation nothing changes; otherwise exactly the selected row goes, the form is cleared, Launch disabled and the list reloaded |
| Switcher.App.ImportDb | main.py:315-358 | Cancel changes nothing; append leaves the store equal to the merge of the source rows (or of those before the failing row, with the list not reloaded) and reports the merge's counts; override replaces the store, clears the form and reloads the list |
| Switcher.App.AppendRows | main.py:330-346 | the loop keeps the store equal to the merge of the rows processed so far, with the added and skipped counters equal to the merge's |
| Switcher.App.KeepsSelection | main.py:337-343 | an append import keeps the selected id and every listed row current |
| Switcher.App.LaunchRiot | main.py:376-397 | the panel opens, with the form's current entries, exactly when an account is selected, the client exists and it starts; otherwise the matching message is shown and the main window stays |

## Left out

- The Tk presentation is not modelled: layout, styles, icons, the status label and the list box widget. The list is modelled by the rows behind it.
- The "Show password" checkbox and `_toggle_pw` are not modelled; only `clear_form`'s reset of the flag is.
- The SQLite engine, the connection, its commits and the store file's location (`get_default_db_path`) are abstracted to the table value.
- A write that fails for a reason other than an integrity error is modelled only in the append import (`failAt`).
- Row ids are unbounded integers. SQLite's 64-bit limit, where AUTOINCREMENT stops at 2^63-1, is not modelled.
- An imported source value is NULL or text. Integers, reals and blobs in a foreign file are not modelled.
- A source file that cannot be read, or has no `accounts` table or columns, is one case: `source` is None. Rows of the wrong shape are not modelled separately.
- Switcher.App.ImportDb: override requires the copied file's table to satisfy the schema. Closing the old connection and copying the file are not modelled, so a copy that fails after the close is not modelled either; in the program it leaves the application on a closed connection.
- The import messages' wording and pluralisation are not modelled; only the counts they report are.
- `export_db` is a file copy with no logic and is not modelled.
- Starting the client (`os.path.exists`, `subprocess.Popen`) is modelled by two booleans. The process itself is not modelled.
- `PASTE_MOD` is fixed to the non-macOS choice, "ctrl".
- The copy panel's Copy buttons (`copy_value`), its close handler and the toast label's 1400 ms clearing timer are not modelled.
- The unused `restore_top` helper is not modelled.
- The `self.update()` calls between injection steps are not modelled as steps that can raise.
- Autofill.AutofillTrace: a step that raises is given by its index among the fourteen modelled steps. Any of them may be chosen, including the sleeps, which in practice do not raise.
- Autofill.CopyPanel.AutofocusAndAutofill: a press is modelled as atomic, its focus phase followed directly by the do_autofill it schedules. In the program the press only schedules do_autofill and the button stays enabled, so a second press during the 400 ms or 2000 ms wait adds its own focus events first, and the `self.update()` calls inside do_autofill can run a due do_autofill nested between the paste and the Tab. Overlapping presses and handlers run inside `self.update()` are not modelled.
- Delays are recorded as events, not waited for. Whether the operator clicks the client window during the 2000 ms is not modelled, and neither is whether activation really moved the focus.
- Autofill.WindowsWithTitle: the window library's matching is taken to be a case-sensitive substring test on window titles. The library is not part of this model; PyGetWindow's Windows backend is believed to compare upper-cased titles, and if so the program also finds a window titled "RIOT CLIENT", which the model does not. `FallbackSearchFindsNothingNew` holds under either matching.
