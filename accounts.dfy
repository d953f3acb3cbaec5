/**
 * The `accounts` table of the switcher's SQLite file and the data layer over it.
 *
 * The table is `accounts(id INTEGER PRIMARY KEY AUTOINCREMENT, nickname TEXT NOT
 * NULL UNIQUE, username TEXT NOT NULL, password TEXT NOT NULL)`. Its state is a
 * map from id to row plus `lastId`, the table's entry in `sqlite_sequence`: the
 * largest id ever issued. UNIQUE compares nicknames exactly (BINARY collation);
 * only the listing order folds case.
 */
module Accounts {
  import opened Wrappers
  import opened Strings

  datatype Account = Account(nickname: string, username: string, password: string)

  /** One result row of `SELECT id, nickname, username, password`. */
  datatype Row = Row(id: int, account: Account)

  /** A value bound to a column: the form always binds text, a foreign file may hold NULL. */
  datatype Cell = Null | Text(value: string)

  /** The `sqlite3.IntegrityError` cases the schema can raise. */
  datatype IntegrityError = NotNullConstraint | UniqueConstraint

  datatype Table = Table(rows: map<int, Account>, lastId: int)

  /** Outcome of one committed-or-rejected write statement. */
  datatype WriteResult = Committed(table: Table) | Rejected(error: IntegrityError)

  /** The schema's invariants: no id above the sequence counter, nicknames unique. */
  ghost predicate WellFormed(t: Table) {
    && (forall id | id in t.rows :: id <= t.lastId)
    && (forall i, j | i in t.rows && j in t.rows && t.rows[i].nickname == t.rows[j].nickname :: i == j)
  }

  predicate Taken(t: Table, nickname: string) {
    exists id | id in t.rows :: t.rows[id].nickname == nickname
  }

  predicate TakenByOther(t: Table, id: int, nickname: string) {
    exists other | other in t.rows && other != id :: t.rows[other].nickname == nickname
  }

  predicate Complete(nickname: Cell, username: Cell, password: Cell) {
    nickname.Text? && username.Text? && password.Text?
  }

  // ---------------------------------------------------------------------------
  // The three write statements, as functions of the table
  // ---------------------------------------------------------------------------

  /** `INSERT INTO accounts (nickname, username, password) VALUES (?, ?, ?)`. */
  function TableInsert(t: Table, nickname: Cell, username: Cell, password: Cell): WriteResult {
    if !Complete(nickname, username, password) then Rejected(NotNullConstraint)
    else if Taken(t, nickname.value) then Rejected(UniqueConstraint)
    else
      var id := t.lastId + 1;
      Committed(Table(t.rows[id := Account(nickname.value, username.value, password.value)], id))
  }

  /** `UPDATE accounts SET nickname=?, username=?, password=? WHERE id=?`. */
  function TableUpdate(t: Table, id: int, nickname: string, username: string, password: string): WriteResult {
    if id !in t.rows then Committed(t)
    else if TakenByOther(t, id, nickname) then Rejected(UniqueConstraint)
    else Committed(t.(rows := t.rows[id := Account(nickname, username, password)]))
  }

  /** `DELETE FROM accounts WHERE id=?`. */
  function TableDelete(t: Table, id: int): Table {
    t.(rows := t.rows - {id})
  }

  /** A rejected write leaves the table as it was. */
  function After(t: Table, w: WriteResult): Table {
    if w.Committed? then w.table else t
  }

  // ---------------------------------------------------------------------------
  // Properties of the writes
  // ---------------------------------------------------------------------------

  /**
   * An insert fails exactly on a NULL field (NOT NULL is checked first) or a
   * nickname already present; otherwise it adds exactly one row, under an id
   * greater than every id in the table and than the previous counter.
   */
  lemma InsertOutcome(t: Table, nickname: Cell, username: Cell, password: Cell)
    requires WellFormed(t)
    ensures var w := TableInsert(t, nickname, username, password);
      && (w.Rejected? <==> !Complete(nickname, username, password) || Taken(t, nickname.value))
      && (w == Rejected(NotNullConstraint) <==> !Complete(nickname, username, password))
      && (w.Committed? ==>
            var id := t.lastId + 1;
            && WellFormed(w.table)
            && w.table.lastId == id
            && id !in t.rows
            && (forall old_id | old_id in t.rows :: old_id < id)
            && w.table.rows == t.rows[id := Account(nickname.value, username.value, password.value)]
            && |w.table.rows| == |t.rows| + 1)
  {
    var w := TableInsert(t, nickname, username, password);
    if w.Committed? {
      assert t.lastId + 1 !in t.rows;
    }
  }

  /** Adding a nickname that is already in the table fails and changes nothing. */
  lemma InsertDuplicateRejected(t: Table, id: int, username: Cell, password: Cell)
    requires id in t.rows
    ensures TableInsert(t, Text(t.rows[id].nickname), username, password) == Rejected(
      if username.Null? || password.Null? then NotNullConstraint else UniqueConstraint)
  {
    assert Taken(t, t.rows[id].nickname);
  }

  /** Uniqueness is exact: a nickname differing only in letter case is accepted. */
  lemma CaseVariantsCoexist()
    ensures var t := Table(map[1 := Account("Bob", "u", "p")], 1);
      TableInsert(t, Text("bob"), Text("v"), Text("q"))
        == Committed(Table(map[1 := Account("Bob", "u", "p"), 2 := Account("bob", "v", "q")], 2))
  {
    var t := Table(map[1 := Account("Bob", "u", "p")], 1);
    assert "Bob"[0] != "bob"[0];
    assert !Taken(t, "bob");
  }

  /**
   * Updating an existing row replaces all three fields and nothing else; it fails
   * without change exactly when another row holds the new nickname.
   */
  lemma UpdateOutcome(t: Table, id: int, nickname: string, username: string, password: string)
    requires WellFormed(t)
    requires id in t.rows
    ensures var w := TableUpdate(t, id, nickname, username, password);
      && (w.Rejected? <==> TakenByOther(t, id, nickname))
      && (w.Committed? ==>
            && WellFormed(w.table)
            && w.table.lastId == t.lastId
            && w.table.rows.Keys == t.rows.Keys
            && w.table.rows[id] == Account(nickname, username, password)
            && (forall other | other in t.rows && other != id :: w.table.rows[other] == t.rows[other]))
  {
  }

  /** A row may keep its own nickname when its other fields change. */
  lemma UpdateKeepingNickname(t: Table, id: int, username: string, password: string)
    requires WellFormed(t)
    requires id in t.rows
    ensures TableUpdate(t, id, t.rows[id].nickname, username, password)
      == Committed(t.(rows := t.rows[id := Account(t.rows[id].nickname, username, password)]))
  {
  }

  /** Taking another row's nickname is rejected. */
  lemma UpdateStealingNickname(t: Table, id: int, other: int, username: string, password: string)
    requires id in t.rows && other in t.rows && other != id
    ensures TableUpdate(t, id, t.rows[other].nickname, username, password) == Rejected(UniqueConstraint)
  {
  }

  /** Update and delete of an id not in the table succeed silently and change nothing. */
  lemma MissingIdIsNoOp(t: Table, id: int, nickname: string, username: string, password: string)
    requires id !in t.rows
    ensures TableUpdate(t, id, nickname, username, password) == Committed(t)
    ensures TableDelete(t, id) == t
  {
    assert t.rows - {id} == t.rows;
  }

  /** Delete removes the row with that id and leaves every other row and the counter alone. */
  lemma DeleteOutcome(t: Table, id: int)
    requires WellFormed(t)
    ensures var d := TableDelete(t, id);
      && WellFormed(d)
      && d.lastId == t.lastId
      && d.rows.Keys == t.rows.Keys - {id}
      && (forall other | other in d.rows :: d.rows[other] == t.rows[other])
  {
  }

  // ---------------------------------------------------------------------------
  // AUTOINCREMENT: ids are never reused
  // ---------------------------------------------------------------------------

  datatype Op =
    | AddOp(cells: SourceRow)
    | UpdateOp(id: int, nickname: string, username: string, password: string)
    | DeleteOp(id: int)

  function Apply(t: Table, op: Op): Table {
    match op
    case AddOp(c) => After(t, TableInsert(t, c.nickname, c.username, c.password))
    case UpdateOp(id, n, u, p) => After(t, TableUpdate(t, id, n, u, p))
    case DeleteOp(id) => TableDelete(t, id)
  }

  /** The table after a history of writes, each committed or rejected on its own. */
  function Replay(t: Table, ops: seq<Op>): Table
    decreases |ops|
  {
    if ops == [] then t else Apply(Replay(t, ops[..|ops| - 1]), ops[|ops| - 1])
  }

  lemma {:induction false} ReplayKeepsCounterGrowing(t: Table, ops: seq<Op>)
    ensures Replay(t, ops).lastId >= t.lastId
    decreases |ops|
  {
    if ops != [] {
      ReplayKeepsCounterGrowing(t, ops[..|ops| - 1]);
    }
  }

  /** Every write statement keeps the schema's invariants and never lowers the counter. */
  lemma ApplyWellFormed(t: Table, op: Op)
    requires WellFormed(t)
    ensures WellFormed(Apply(t, op)) && Apply(t, op).lastId >= t.lastId
  {
    match op
    case AddOp(c) =>
      InsertOutcome(t, c.nickname, c.username, c.password);
    case UpdateOp(id, n, u, p) =>
      if id in t.rows {
        UpdateOutcome(t, id, n, u, p);
      }
    case DeleteOp(id) =>
      DeleteOutcome(t, id);
  }

  /** Any history of writes from a table satisfying the schema ends in one that satisfies it. */
  lemma {:induction false} ReplayWellFormed(t: Table, ops: seq<Op>)
    requires WellFormed(t)
    ensures WellFormed(Replay(t, ops))
    decreases |ops|
  {
    if ops != [] {
      ReplayWellFormed(t, ops[..|ops| - 1]);
      ApplyWellFormed(Replay(t, ops[..|ops| - 1]), ops[|ops| - 1]);
    }
  }

  /** The counter after part of a history is at most the counter after all of it. */
  lemma {:induction false} ReplayPrefixCounter(t: Table, ops: seq<Op>, k: nat)
    requires k <= |ops|
    ensures Replay(t, ops[..k]).lastId <= Replay(t, ops).lastId
    decreases |ops|
  {
    if k == |ops| {
      assert ops[..k] == ops;
    } else {
      var front := ops[..|ops| - 1];
      assert ops[..k] == front[..k];
      ReplayPrefixCounter(t, front, k);
    }
  }

  /**
   * Whatever happened since (adds, updates, deletes), the id of the next
   * successful insert exceeds every id the table held at any point of the
   * history, including ids issued and deleted within it.
   */
  lemma IdsNeverReused(t: Table, ops: seq<Op>, nickname: Cell, username: Cell, password: Cell)
    requires WellFormed(t)
    ensures var w := TableInsert(Replay(t, ops), nickname, username, password);
      w.Committed? ==>
        && w.table.lastId > t.lastId
        && (forall id | id in t.rows :: id < w.table.lastId)
        && (forall k | 0 <= k <= |ops| :: forall id | id in Replay(t, ops[..k]).rows :: id < w.table.lastId)
  {
    ReplayKeepsCounterGrowing(t, ops);
    forall k | 0 <= k <= |ops|
      ensures forall id | id in Replay(t, ops[..k]).rows :: id <= Replay(t, ops).lastId
    {
      ReplayPrefixCounter(t, ops, k);
      ReplayWellFormed(t, ops[..k]);
    }
  }

  // ---------------------------------------------------------------------------
  // Append import: one insert per source row, duplicates skipped
  // ---------------------------------------------------------------------------

  datatype SourceRow = SourceRow(nickname: Cell, username: Cell, password: Cell)

  datatype MergeResult = MergeResult(table: Table, added: nat, skipped: nat)

  function MergeStep(m: MergeResult, r: SourceRow): MergeResult {
    match TableInsert(m.table, r.nickname, r.username, r.password)
    case Committed(t) => MergeResult(t, m.added + 1, m.skipped)
    case Rejected(_) => m.(skipped := m.skipped + 1)
  }

  /** Inserting the source rows in order, counting the inserts that commit and those rejected. */
  function Merge(t: Table, source: seq<SourceRow>): MergeResult
    decreases |source|
  {
    if source == [] then MergeResult(t, 0, 0)
    else MergeStep(Merge(t, source[..|source| - 1]), source[|source| - 1])
  }

  /** Source row `i` is skipped: its insert, after the rows before it, is rejected. */
  predicate SkippedAt(t: Table, source: seq<SourceRow>, i: nat)
    requires i < |source|
  {
    var r := source[i];
    TableInsert(Merge(t, source[..i]).table, r.nickname, r.username, r.password).Rejected?
  }

  /** A complete source row before position `i` carries `nickname`. */
  predicate EarlierSourceHas(source: seq<SourceRow>, i: nat, nickname: string)
    requires i <= |source|
  {
    exists j | 0 <= j < i :: Complete(source[j].nickname, source[j].username, source[j].password)
                             && source[j].nickname == Text(nickname)
  }

  /**
   * Every source row is either added or skipped; the table keeps every row it
   * had, gains exactly `added` rows, and stays well formed.
   */
  lemma {:induction false} MergeAccounting(t: Table, source: seq<SourceRow>)
    requires WellFormed(t)
    ensures var m := Merge(t, source);
      && m.added + m.skipped == |source|
      && WellFormed(m.table)
      && |m.table.rows| == |t.rows| + m.added
      && m.table.lastId == t.lastId + m.added
      && (forall id | id in t.rows :: id in m.table.rows && m.table.rows[id] == t.rows[id])
    decreases |source|
  {
    if source != [] {
      var prefix := source[..|source| - 1];
      var r := source[|source| - 1];
      MergeAccounting(t, prefix);
      InsertOutcome(Merge(t, prefix).table, r.nickname, r.username, r.password);
    }
  }

  /** One insert adds its own nickname, if it commits, and no other. */
  lemma TakenAfterInsert(t: Table, r: SourceRow, nickname: string)
    requires WellFormed(t)
    ensures Taken(After(t, TableInsert(t, r.nickname, r.username, r.password)), nickname)
      <==> Taken(t, nickname) || (Complete(r.nickname, r.username, r.password) && r.nickname == Text(nickname))
  {
    var w := TableInsert(t, r.nickname, r.username, r.password);
    InsertOutcome(t, r.nickname, r.username, r.password);
    if w.Committed? {
      var id := t.lastId + 1;
      assert w.table.rows[id].nickname == r.nickname.value;
      if Taken(t, nickname) {
        var k :| k in t.rows && t.rows[k].nickname == nickname;
        assert k in w.table.rows && w.table.rows[k].nickname == nickname;
      }
      if Taken(w.table, nickname) {
        var k :| k in w.table.rows && w.table.rows[k].nickname == nickname;
        if k != id {
          assert t.rows[k].nickname == nickname;
        }
      }
    }
  }

  /** After the first `i` source rows, a nickname is present iff it was before or an earlier complete row had it. */
  lemma {:induction false} MergeTakenIff(t: Table, source: seq<SourceRow>, i: nat, nickname: string)
    requires WellFormed(t)
    requires i <= |source|
    ensures Taken(Merge(t, source[..i]).table, nickname) <==> Taken(t, nickname) || EarlierSourceHas(source, i, nickname)
    decreases i
  {
    if i > 0 {
      var prefix := source[..i - 1];
      var r := source[i - 1];
      assert source[..i][..i - 1] == prefix;
      assert Merge(t, source[..i]) == MergeStep(Merge(t, prefix), r);
      MergeTakenIff(t, source, i - 1, nickname);
      MergeAccounting(t, prefix);
      TakenAfterInsert(Merge(t, prefix).table, r, nickname);
      if EarlierSourceHas(source, i, nickname) && !(Complete(r.nickname, r.username, r.password) && r.nickname == Text(nickname)) {
        var j :| 0 <= j < i && Complete(source[j].nickname, source[j].username, source[j].password)
                 && source[j].nickname == Text(nickname);
        assert j < i - 1;
      }
    }
  }

  /**
   * A source row is skipped exactly when one of its fields is NULL or its
   * nickname is already present, having been in the table or added by an
   * earlier source row.
   */
  lemma MergeSkipsExactly(t: Table, source: seq<SourceRow>, i: nat)
    requires WellFormed(t)
    requires i < |source|
    ensures var r := source[i];
      SkippedAt(t, source, i) <==>
        || !Complete(r.nickname, r.username, r.password)
        || Taken(t, r.nickname.value)
        || EarlierSourceHas(source, i, r.nickname.value)
  {
    var r := source[i];
    if r.nickname.Text? {
      MergeTakenIff(t, source, i, r.nickname.value);
    }
  }

  /** Afterwards, the nickname of every complete source row is in the table. */
  lemma MergeCoversSource(t: Table, source: seq<SourceRow>, i: nat)
    requires WellFormed(t)
    requires i < |source|
    requires Complete(source[i].nickname, source[i].username, source[i].password)
    ensures Taken(Merge(t, source).table, source[i].nickname.value)
  {
    assert source[..|source|] == source;
    MergeTakenIff(t, source, |source|, source[i].nickname.value);
  }

  /** Importing rows whose nicknames are all present already adds nothing and skips them all. */
  lemma {:induction false} MergeAllPresent(t: Table, source: seq<SourceRow>)
    requires forall r | r in source :: r.nickname.Text? && Taken(t, r.nickname.value)
    ensures Merge(t, source) == MergeResult(t, 0, |source|)
    decreases |source|
  {
    if source != [] {
      var prefix := source[..|source| - 1];
      assert forall r | r in prefix :: r in source;
      MergeAllPresent(t, prefix);
    }
  }

  // ---------------------------------------------------------------------------
  // SELECT ... ORDER BY nickname COLLATE NOCASE
  // ---------------------------------------------------------------------------

  function TableRows(rows: map<int, Account>): set<Row> {
    RowsOf(rows, rows.Keys)
  }

  function RowsOf(rows: map<int, Account>, ids: set<int>): set<Row> {
    set id | id in ids && id in rows :: Row(id, rows[id])
  }

  lemma RowsOfSplit(rows: map<int, Account>, ids: set<int>, id: int)
    requires id in ids && id in rows
    ensures multiset(RowsOf(rows, ids)) == multiset(RowsOf(rows, ids - {id})) + multiset{Row(id, rows[id])}
  {
    var later := RowsOf(rows, ids - {id});
    assert RowsOf(rows, ids) == later + {Row(id, rows[id])};
    assert Row(id, rows[id]) !in later;
  }

  ghost predicate SortedByNickname(rs: seq<Row>) {
    forall i, j | 0 <= i < j < |rs| :: NoCaseLe(rs[i].account.nickname, rs[j].account.nickname)
  }

  /** `rs` is a result of the listing query: the table's rows, each once, in NOCASE nickname order. */
  ghost predicate IsListing(rows: map<int, Account>, rs: seq<Row>) {
    SortedByNickname(rs) && multiset(rs) == multiset(TableRows(rows))
  }

  ghost predicate NicknamesFrom(nickname: string, rs: seq<Row>) {
    forall k | 0 <= k < |rs| :: NoCaseLe(nickname, rs[k].account.nickname)
  }

  lemma LowerBoundOfPermutation(nickname: string, a: seq<Row>, b: seq<Row>)
    requires multiset(a) == multiset(b)
    requires NicknamesFrom(nickname, b)
    ensures NicknamesFrom(nickname, a)
  {
    forall k | 0 <= k < |a|
      ensures NoCaseLe(nickname, a[k].account.nickname)
    {
      assert a[k] in multiset(b);
      var m :| 0 <= m < |b| && b[m] == a[k];
    }
  }

  /** Places one row into a listing ordered by nickname, before the first row it does not follow. */
  function InsertByNickname(rs: seq<Row>, r: Row): (out: seq<Row>)
    requires SortedByNickname(rs)
    ensures SortedByNickname(out)
    ensures multiset(out) == multiset(rs) + multiset{r}
  {
    if rs == [] then [r]
    else if NoCaseLe(r.account.nickname, rs[0].account.nickname) then
      assert forall k | 0 <= k < |rs| :: NoCaseLe(r.account.nickname, rs[k].account.nickname) by {
        forall k | 0 <= k < |rs| ensures NoCaseLe(r.account.nickname, rs[k].account.nickname) {
          if k > 0 {
            NoCaseLeTransitive(r.account.nickname, rs[0].account.nickname, rs[k].account.nickname);
          }
        }
      }
      [r] + rs
    else
      NoCaseLeTotal(r.account.nickname, rs[0].account.nickname);
      var tail := InsertByNickname(rs[1..], r);
      assert NicknamesFrom(rs[0].account.nickname, rs[1..] + [r]);
      assert rs == [rs[0]] + rs[1..];
      LowerBoundOfPermutation(rs[0].account.nickname, tail, rs[1..] + [r]);
      [rs[0]] + tail
  }

  /** Every row a listing shows is the table's current row under that id. */
  lemma ListingRowsAreCurrent(rows: map<int, Account>, rs: seq<Row>)
    requires IsListing(rows, rs)
    ensures forall r | r in rs :: r.id in rows && rows[r.id] == r.account
  {
    forall r | r in rs ensures r.id in rows && rows[r.id] == r.account {
      assert r in multiset(TableRows(rows));
    }
  }

  /** The ordering example: "banana", "Apple", "cherry" are listed as "Apple", "banana", "cherry". */
  lemma ListingOrderExample(rs: seq<Row>)
    requires IsListing(map[1 := Account("banana", "u1", "p1"),
                           2 := Account("Apple", "u2", "p2"),
                           3 := Account("cherry", "u3", "p3")], rs)
    ensures |rs| == 3
    ensures rs[0].account.nickname == "Apple"
    ensures rs[1].account.nickname == "banana"
    ensures rs[2].account.nickname == "cherry"
  {
    var rows := map[1 := Account("banana", "u1", "p1"), 2 := Account("Apple", "u2", "p2"), 3 := Account("cherry", "u3", "p3")];
    var a, b, c := Row(2, rows[2]), Row(1, rows[1]), Row(3, rows[3]);
    assert TableRows(rows) == {a, b, c};
    assert |multiset(rs)| == 3;
    assert FoldString("Apple")[0] == 'a' && FoldString("banana")[0] == 'b' && FoldString("cherry")[0] == 'c';
    assert !NoCaseLe("banana", "Apple") && !NoCaseLe("cherry", "Apple") && !NoCaseLe("cherry", "banana");
    assert a in multiset(rs) && b in multiset(rs) && c in multiset(rs);
    forall k | 0 <= k < 3 ensures rs[k] in {a, b, c} {
      assert rs[k] in multiset(rs);
    }
    var ia :| 0 <= ia < 3 && rs[ia] == a;
    var ib :| 0 <= ib < 3 && rs[ib] == b;
    var ic :| 0 <= ic < 3 && rs[ic] == c;
    assert ia < ib && ib < ic;
  }

  // ---------------------------------------------------------------------------
  // SimpleDB: the connection object, whose methods write and commit one statement each
  // ---------------------------------------------------------------------------

  class SimpleDB {
    var rows: map<int, Account>
    var lastId: int

    function Snapshot(): Table
      reads this
    {
      Table(rows, lastId)
    }

    ghost predicate Valid()
      reads this
    {
      WellFormed(Snapshot())
    }

    /** Opens a store file whose table holds `stored` (an empty table for a new file). */
    constructor Open(stored: Table)
      requires WellFormed(stored)
      ensures Valid() && Snapshot() == stored
    {
      rows := stored.rows;
      lastId := stored.lastId;
    }

    method Add(nickname: Cell, username: Cell, password: Cell) returns (r: Outcome<IntegrityError>)
      requires Valid()
      modifies this
      ensures Valid()
      ensures var w := TableInsert(old(Snapshot()), nickname, username, password);
        && (r.Pass? <==> w.Committed?)
        && (w.Rejected? ==> r == Fail(w.error))
        && Snapshot() == After(old(Snapshot()), w)
    {
      InsertOutcome(Snapshot(), nickname, username, password);
      if nickname.Null? || username.Null? || password.Null? {
        return Fail(NotNullConstraint);
      }
      if exists id | id in rows :: rows[id].nickname == nickname.value {
        return Fail(UniqueConstraint);
      }
      lastId := lastId + 1;
      rows := rows[lastId := Account(nickname.value, username.value, password.value)];
      r := Pass;
    }

    method Update(id: int, nickname: string, username: string, password: string) returns (r: Outcome<IntegrityError>)
      requires Valid()
      modifies this
      ensures Valid()
      ensures var w := TableUpdate(old(Snapshot()), id, nickname, username, password);
        && (r.Pass? <==> w.Committed?)
        && (w.Rejected? ==> r == Fail(w.error))
        && Snapshot() == After(old(Snapshot()), w)
    {
      if id !in rows {
        return Pass;
      }
      UpdateOutcome(Snapshot(), id, nickname, username, password);
      if exists other | other in rows && other != id :: rows[other].nickname == nickname {
        return Fail(UniqueConstraint);
      }
      rows := rows[id := Account(nickname, username, password)];
      r := Pass;
    }

    method Delete(id: int)
      requires Valid()
      modifies this
      ensures Valid()
      ensures Snapshot() == TableDelete(old(Snapshot()), id)
    {
      DeleteOutcome(Snapshot(), id);
      rows := rows - {id};
    }

    /** `all()`: every row of the table, once each, in NOCASE nickname order. */
    method All() returns (listing: seq<Row>)
      ensures IsListing(rows, listing)
    {
      listing := [];
      var pending := rows.Keys;
      while pending != {}
        invariant pending <= rows.Keys
        invariant SortedByNickname(listing)
        invariant multiset(listing) + multiset(RowsOf(rows, pending)) == multiset(TableRows(rows))
        decreases pending
      {
        if forall id :: id !in pending {
          assert false;
        }
        var id :| id in pending;
        var row := Row(id, rows[id]);
        RowsOfSplit(rows, pending, id);
        listing := InsertByNickname(listing, row);
        pending := pending - {id};
      }
      assert RowsOf(rows, pending) == {};
    }
  }
}
