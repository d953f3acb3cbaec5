/**
 * The switcher's main window: the account form, the list of saved accounts,
 * and the buttons that add, update, delete, import and launch.
 *
 * Tk widgets are abstracted to the values they hold: the three entry fields,
 * the "Show password" box, the listed rows, the selected account's id and
 * whether the Launch button is enabled. Each dialog answer, and each outcome
 * decided outside the program (a file that cannot be read, a client that is
 * not installed), is a parameter. Each handler returns the message box it
 * ends with.
 */
module Switcher {
  import opened Wrappers
  import opened Strings
  import opened Accounts

  /** The message box a handler ends with, or none. */
  datatype Notice =
    | Silent
    | MissingFields                            // "All fields are required."
    | DuplicateNickname                        // "Nickname already exists."
    | SelectFirst                              // "Select an account first." (or "... to delete.")
    | ImportComplete(added: nat, skipped: nat) // append finished: counts of inserted and rejected rows
    | Overridden                               // "Database overridden from: ..."
    | ImportFailed                             // "Could not import DB: ..."
    | ClientNotFound                           // "Riot Client not found at: ..."
    | LaunchFailed                             // "Could not launch Riot Client: ..."

  /**
   * What Import DB is asked to do. `Cancel` covers both a dismissed file
   * dialog and the Cancel answer. For Append, `source` is the other file's
   * accounts (None when it cannot be read) and `failAt` the source row, if
   * any, whose insert raises an error other than an integrity error.
   * For Override, `replacement` is the table of the copied file.
   */
  datatype ImportChoice =
    | Cancel
    | Append(source: Option<seq<SourceRow>>, failAt: Option<nat>)
    | Override(replacement: Table)

  /**
   * The three entries as the form submits them: each stripped of surrounding
   * whitespace, or None when any of them is left blank.
   */
  function Submitted(nickname: string, username: string, password: string): (r: Option<Account>)
    ensures r.None? <==> Blank(nickname) || Blank(username) || Blank(password)
    ensures r.Some? ==> r.value == Account(Strip(nickname), Strip(username), Strip(password))
    ensures r.Some? ==>
      && r.value.nickname != [] && r.value.username != [] && r.value.password != []
      && !IsSpace(r.value.nickname[0]) && !IsSpace(r.value.nickname[|r.value.nickname| - 1])
      && |r.value.nickname| <= |nickname| && |r.value.username| <= |username| && |r.value.password| <= |password|
  {
    StripEmptyIffBlank(nickname);
    StripEmptyIffBlank(username);
    StripEmptyIffBlank(password);
    var nick, user, pw := Strip(nickname), Strip(username), Strip(password);
    if nick == [] || user == [] || pw == [] then None else Some(Account(nick, user, pw))
  }

  class App {
    var db: SimpleDB
    /** The entry fields of the form. */
    var nickname: string
    var username: string
    var password: string
    var showPassword: bool
    /** The rows behind the list box, in display order. */
    var rows: seq<Row>
    /** The id of the account last selected in the list; None when none is. */
    var currentId: Option<int>
    var launchEnabled: bool
    /** The main window is hidden while the copy panel is shown. */
    var withdrawn: bool

    /**
     * The handlers' guard `if not self.current_id`: an id of 0 is as good as
     * no selection.
     */
    predicate Selected()
      reads this
    {
      currentId.Some? && currentId.value != 0
    }

    /**
     * The store is well formed, every listed row is the store's current row
     * under its id (the list may miss rows an interrupted import added), and
     * the selected id is in the store.
     */
    ghost predicate Valid()
      reads this, db
    {
      && db.Valid()
      && SortedByNickname(rows)
      && (forall r | r in rows :: r.id in db.rows && db.rows[r.id] == r.account)
      && (currentId.Some? ==> currentId.value in db.rows)
    }

    predicate FormCleared()
      reads this
    {
      nickname == "" && username == "" && password == "" && !showPassword && currentId.None?
    }

    twostate predicate FormUnchanged()
      reads this
    {
      && nickname == old(nickname) && username == old(username) && password == old(password)
      && showPassword == old(showPassword) && currentId == old(currentId)
    }

    /** Start-up on a store file whose table holds `stored`. */
    constructor (stored: Table)
      requires WellFormed(stored)
      ensures Valid() && fresh(db)
      ensures db.Snapshot() == stored && IsListing(db.rows, rows)
      ensures FormCleared() && !launchEnabled && !withdrawn
    {
      db := new SimpleDB.Open(stored);
      nickname, username, password := "", "", "";
      showPassword := false;
      rows := [];
      currentId := None;
      launchEnabled := false;
      withdrawn := false;
      new;
      RefreshList();
    }

    /** `_refresh_list`: reload the list from the store. */
    method RefreshList()
      requires db.Valid() && (currentId.Some? ==> currentId.value in db.rows)
      modifies this`rows
      ensures Valid()
      ensures IsListing(db.rows, rows)
    {
      rows := db.All();
      ListingRowsAreCurrent(db.rows, rows);
    }

    /** `on_select`: `selection` is the index of the selected list entry, if any. */
    method OnSelect(selection: Option<nat>)
      requires Valid()
      requires selection.Some? ==> selection.value < |rows|
      modifies this`currentId, this`nickname, this`username, this`password, this`launchEnabled
      ensures Valid()
      ensures selection.None? ==>
        && currentId.None? && !launchEnabled
        && nickname == old(nickname) && username == old(username) && password == old(password)
      ensures selection.Some? ==>
        var r := rows[selection.value];
        && currentId == Some(r.id) && launchEnabled
        && Account(nickname, username, password) == r.account
        && db.rows[r.id] == r.account
    {
      if selection.None? {
        launchEnabled := false;
        currentId := None;
        return;
      }
      var r := rows[selection.value];
      currentId := Some(r.id);
      nickname, username, password := r.account.nickname, r.account.username, r.account.password;
      launchEnabled := true;
    }

    /** `clear_form`: empty the entries, hide the password and drop the selection. */
    method ClearForm()
      modifies this`nickname, this`username, this`password, this`showPassword, this`currentId
      ensures FormCleared()
    {
      nickname, username, password := "", "", "";
      showPassword := false;
      currentId := None;
    }

    /** `add_account`. */
    method AddAccount() returns (notice: Notice)
      requires Valid()
      modifies this`rows, this`nickname, this`username, this`password, this`showPassword, this`currentId, db
      ensures Valid()
      ensures var s := Submitted(old(nickname), old(username), old(password));
        && (s.None? ==> notice == MissingFields && db.Snapshot() == old(db.Snapshot()) && rows == old(rows) && FormUnchanged())
        && (s.Some? ==>
              var w := TableInsert(old(db.Snapshot()), Text(s.value.nickname), Text(s.value.username), Text(s.value.password));
              && (w.Rejected? ==> notice == DuplicateNickname && db.Snapshot() == old(db.Snapshot()) && rows == old(rows) && FormUnchanged())
              && (w.Committed? ==> notice == Silent && db.Snapshot() == w.table && FormCleared() && IsListing(db.rows, rows)))
    {
      var s := Submitted(nickname, username, password);
      if s.None? {
        return MissingFields;
      }
      notice := SaveNew(s.value);
    }

    /** The write half of `add_account`: insert the submitted entries, then clear the form and reload the list. */
    method SaveNew(a: Account) returns (notice: Notice)
      requires Valid()
      modifies this`rows, this`nickname, this`username, this`password, this`showPassword, this`currentId, db
      ensures Valid()
      ensures var w := TableInsert(old(db.Snapshot()), Text(a.nickname), Text(a.username), Text(a.password));
        && (w.Rejected? <==> Taken(old(db.Snapshot()), a.nickname))
        && (w.Rejected? ==> notice == DuplicateNickname && db.Snapshot() == old(db.Snapshot()) && rows == old(rows) && FormUnchanged())
        && (w.Committed? ==> notice == Silent && db.Snapshot() == w.table && FormCleared() && IsListing(db.rows, rows))
    {
      var r := db.Add(Text(a.nickname), Text(a.username), Text(a.password));
      if r.Fail? {
        return DuplicateNickname;
      }
      ClearForm();
      RefreshList();
      notice := Silent;
    }

    /** `update_account`: the selected row takes the stripped entries; the entries themselves stay as typed. */
    method UpdateAccount() returns (notice: Notice)
      requires Valid()
      modifies this`rows, db
      ensures Valid()
      ensures !old(Selected()) ==> notice == SelectFirst && db.Snapshot() == old(db.Snapshot()) && rows == old(rows)
      ensures old(Selected()) ==>
        var s := Submitted(old(nickname), old(username), old(password));
        var id := old(currentId).value;
        && (s.None? ==> notice == MissingFields && db.Snapshot() == old(db.Snapshot()) && rows == old(rows))
        && (s.Some? ==>
              var w := TableUpdate(old(db.Snapshot()), id, s.value.nickname, s.value.username, s.value.password);
              && (w.Rejected? ==> notice == DuplicateNickname && db.Snapshot() == old(db.Snapshot()) && rows == old(rows))
              && (w.Committed? ==>
                    && notice == Silent && db.Snapshot() == w.table && IsListing(db.rows, rows)
                    && db.rows[id] == s.value && db.rows.Keys == old(db.rows.Keys)))
    {
      if !Selected() {
        return SelectFirst;
      }
      var s := Submitted(nickname, username, password);
      if s.None? {
        return MissingFields;
      }
      notice := SaveEdit(currentId.value, s.value);
    }

    /** The write half of `update_account`: store the submitted entries under the selected id, then reload the list. */
    method SaveEdit(id: int, a: Account) returns (notice: Notice)
      requires Valid() && currentId == Some(id)
      modifies this`rows, db
      ensures Valid()
      ensures var w := TableUpdate(old(db.Snapshot()), id, a.nickname, a.username, a.password);
        && (w.Rejected? <==> TakenByOther(old(db.Snapshot()), id, a.nickname))
        && (w.Rejected? ==> notice == DuplicateNickname && db.Snapshot() == old(db.Snapshot()) && rows == old(rows))
        && (w.Committed? ==>
              && notice == Silent && db.Snapshot() == w.table && IsListing(db.rows, rows)
              && db.rows[id] == a && db.rows.Keys == old(db.rows.Keys))
    {
      UpdateOutcome(db.Snapshot(), id, a.nickname, a.username, a.password);
      var r := db.Update(id, a.nickname, a.username, a.password);
      if r.Fail? {
        return DuplicateNickname;
      }
      RefreshList();
      notice := Silent;
    }

    /** `delete_account`: `confirmed` is the answer to "Delete this account?". */
    method DeleteAccount(confirmed: bool) returns (notice: Notice)
      requires Valid()
      modifies this`rows, this`nickname, this`username, this`password, this`showPassword, this`currentId
      modifies this`launchEnabled, db
      ensures Valid()
      ensures !old(Selected()) ==>
        notice == SelectFirst && db.Snapshot() == old(db.Snapshot()) && rows == old(rows)
        && FormUnchanged() && launchEnabled == old(launchEnabled)
      ensures old(Selected()) && !confirmed ==>
        notice == Silent && db.Snapshot() == old(db.Snapshot()) && rows == old(rows)
        && FormUnchanged() && launchEnabled == old(launchEnabled)
      ensures old(Selected()) && confirmed ==>
        && notice == Silent
        && db.Snapshot() == TableDelete(old(db.Snapshot()), old(currentId).value)
        && old(currentId).value !in db.rows
        && FormCleared() && !launchEnabled && IsListing(db.rows, rows)
    {
      if !Selected() {
        return SelectFirst;
      }
      notice := Silent;
      if confirmed {
        db.Delete(currentId.value);
        ClearForm();
        RefreshList();
        launchEnabled := false;
      }
    }

    /**
     * `import_db`. Append inserts the source rows one by one, committing each;
     * an integrity error skips the row, any other error abandons the import
     * with the rows before it kept and the list not reloaded. Override
     * replaces the store file and reopens it.
     */
    method ImportDb(choice: ImportChoice) returns (notice: Notice)
      requires Valid()
      requires choice.Override? ==> WellFormed(choice.replacement)
      modifies this, db
      ensures Valid() && launchEnabled == old(launchEnabled) && withdrawn == old(withdrawn)
      ensures choice.Cancel? || (choice.Append? && choice.source.None?) ==>
        && notice == (if choice.Cancel? then Silent else ImportFailed)
        && db == old(db) && db.Snapshot() == old(db.Snapshot()) && rows == old(rows) && FormUnchanged()
      ensures choice.Append? && choice.source.Some? ==>
        var source := choice.source.value;
        var failAt := choice.failAt;
        && db == old(db) && FormUnchanged()
        && (failAt.Some? && failAt.value < |source| ==>
              && notice == ImportFailed && rows == old(rows)
              && db.Snapshot() == Merge(old(db.Snapshot()), source[..failAt.value]).table)
        && (!(failAt.Some? && failAt.value < |source|) ==>
              var m := Merge(old(db.Snapshot()), source);
              && notice == ImportComplete(m.added, m.skipped)
              && db.Snapshot() == m.table && IsListing(db.rows, rows))
      ensures choice.Override? ==>
        && notice == Overridden && fresh(db)
        && db.Snapshot() == choice.replacement && FormCleared() && IsListing(db.rows, rows)
    {
      if choice.Cancel? {
        return Silent;
      } else if choice.Append? {
        if choice.source.None? {
          return ImportFailed;
        }
        notice := AppendRows(choice.source.value, choice.failAt);
      } else {
        db := new SimpleDB.Open(choice.replacement);
        ClearForm();
        RefreshList();
        notice := Overridden;
      }
    }

    /** The append branch of `import_db`, after the source rows were read. */
    method AppendRows(source: seq<SourceRow>, failAt: Option<nat>) returns (notice: Notice)
      requires Valid()
      modifies this`rows, db
      ensures Valid()
      ensures failAt.Some? && failAt.value < |source| ==>
        && notice == ImportFailed && rows == old(rows)
        && db.Snapshot() == Merge(old(db.Snapshot()), source[..failAt.value]).table
      ensures !(failAt.Some? && failAt.value < |source|) ==>
        var m := Merge(old(db.Snapshot()), source);
        && notice == ImportComplete(m.added, m.skipped)
        && db.Snapshot() == m.table && IsListing(db.rows, rows)
    {
      ghost var t0 := db.Snapshot();
      var added, skipped := 0, 0;
      var i := 0;
      while i < |source|
        invariant 0 <= i <= |source|
        invariant !(failAt.Some? && failAt.value < i)
        invariant db.Valid()
        invariant Merge(t0, source[..i]) == MergeResult(db.Snapshot(), added, skipped)
        modifies db
      {
        if failAt == Some(i) {
          KeepsSelection(t0, source[..i]);
          return ImportFailed;
        }
        var r := db.Add(source[i].nickname, source[i].username, source[i].password);
        if r.Pass? {
          added := added + 1;
        } else {
          skipped := skipped + 1;
        }
        assert source[..i + 1][..i] == source[..i];
        i := i + 1;
      }
      assert source[..i] == source;
      KeepsSelection(t0, source);
      RefreshList();
      notice := ImportComplete(added, skipped);
    }

    /** An append import keeps every row, and so the selected one and every listed one. */
    lemma KeepsSelection(t0: Table, done: seq<SourceRow>)
      requires WellFormed(t0) && db.Snapshot() == Merge(t0, done).table
      requires currentId.Some? ==> currentId.value in t0.rows
      requires forall r | r in rows :: r.id in t0.rows && t0.rows[r.id] == r.account
      ensures currentId.Some? ==> currentId.value in db.rows
      ensures forall r | r in rows :: r.id in db.rows && db.rows[r.id] == r.account
    {
      MergeAccounting(t0, done);
      assert db.rows == Merge(t0, done).table.rows;
      if currentId.Some? {
        var id := currentId.value;
        assert db.rows[id] == t0.rows[id];
      }
    }

    /**
     * `launch_riot`: `clientInstalled` is whether the client executable
     * exists, `spawnSucceeds` whether starting it succeeds. On success the
     * main window hides and the copy panel opens with the entries as they
     * stand in the form.
     */
    method LaunchRiot(clientInstalled: bool, spawnSucceeds: bool) returns (notice: Notice, panel: Option<Account>)
      requires Valid()
      modifies this`withdrawn
      ensures Valid()
      ensures panel.Some? <==> old(Selected()) && clientInstalled && spawnSucceeds
      ensures panel.Some? ==> panel.value == Account(nickname, username, password) && withdrawn && notice == Silent
      ensures panel.None? ==> withdrawn == old(withdrawn)
      ensures !Selected() ==> notice == SelectFirst
      ensures Selected() && !clientInstalled ==> notice == ClientNotFound
      ensures Selected() && clientInstalled && !spawnSucceeds ==> notice == LaunchFailed
    {
      if !Selected() {
        return SelectFirst, None;
      }
      if !clientInstalled {
        return ClientNotFound, None;
      }
      if !spawnSucceeds {
        return LaunchFailed, None;
      }
      withdrawn := true;
      notice, panel := Silent, Some(Account(nickname, username, password));
    }
  }
}
