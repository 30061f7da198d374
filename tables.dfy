/**
 * The three tables of the lending ledger (files, users, transactions), the
 * SQLite rowid rule that numbers new rows, and the primary-key lookups the
 * joins use.
 */
module Tables {

  datatype Option<T> = None | Some(value: T)

  /** A row of `files(id, file_name, unique_number)`. */
  datatype FileRow = FileRow(id: nat, fileName: string, uniqueNumber: string)

  /** A row of `users(id, first_name, last_name, department)`. */
  datatype UserRow = UserRow(id: nat, firstName: string, lastName: string, department: string)

  /**
   * A row of `transactions`. `dateReturned` and `condition` are the two
   * nullable columns; `None` stands for SQL NULL.
   */
  datatype TransactionRow = TransactionRow(
    id: nat,
    fileId: nat,
    userId: nat,
    dateTaken: string,
    dateReturned: Option<string>,
    condition: Option<string>)
  {
    /** A loan is outstanding while `date_returned IS NULL`. */
    predicate IsOutstanding() { dateReturned.None? }
  }

  function FileIds(files: seq<FileRow>): seq<nat> {
    seq(|files|, i requires 0 <= i < |files| => files[i].id)
  }

  function UserIds(users: seq<UserRow>): seq<nat> {
    seq(|users|, i requires 0 <= i < |users| => users[i].id)
  }

  function TransactionIds(txs: seq<TransactionRow>): seq<nat> {
    seq(|txs|, i requires 0 <= i < |txs| => txs[i].id)
  }

  /** The `INTEGER PRIMARY KEY` constraint: no two rows share an id. */
  ghost predicate UniqueIds(ids: seq<nat>) {
    forall i, j :: 0 <= i < j < |ids| ==> ids[i] != ids[j]
  }

  /** The largest id in use, 0 for an empty table. */
  function MaxId(ids: seq<nat>): (m: nat)
    ensures forall i :: 0 <= i < |ids| ==> ids[i] <= m
    ensures ids != [] ==> m in ids
    ensures ids == [] ==> m == 0
  {
    if ids == [] then 0
    else
      var m' := MaxId(ids[..|ids| - 1]);
      if ids[|ids| - 1] <= m' then m' else ids[|ids| - 1]
  }

  /**
   * The id SQLite gives a row inserted without one: one more than the
   * largest rowid in the table, or 1 when the table is empty.
   */
  function NextRowid(ids: seq<nat>): (r: nat)
    ensures r !in ids
    ensures forall i :: 0 <= i < |ids| ==> ids[i] < r
    ensures ids == [] ==> r == 1
    ensures ids != [] ==> r - 1 in ids
  {
    MaxId(ids) + 1
  }

  /** Appending a row whose id is fresh keeps the primary key unique. */
  lemma AppendFreshId(ids: seq<nat>, x: nat)
    requires UniqueIds(ids)
    requires x !in ids
    ensures UniqueIds(ids + [x])
  {
  }

  /** `f JOIN files ON id = ?` for one id: the first row with that id. */
  function FindFile(files: seq<FileRow>, id: nat): (r: Option<FileRow>)
    ensures r.Some? ==> r.value in files && r.value.id == id
    ensures r.None? <==> forall f :: f in files ==> f.id != id
  {
    if files == [] then None
    else if files[0].id == id then Some(files[0])
    else FindFile(files[1..], id)
  }

  /** `u JOIN users ON id = ?` for one id: the first row with that id. */
  function FindUser(users: seq<UserRow>, id: nat): (r: Option<UserRow>)
    ensures r.Some? ==> r.value in users && r.value.id == id
    ensures r.None? <==> forall u :: u in users ==> u.id != id
  {
    if users == [] then None
    else if users[0].id == id then Some(users[0])
    else FindUser(users[1..], id)
  }

  /** Under the primary key, the lookup finds the one row with that id. */
  lemma FindFileUnique(files: seq<FileRow>, f: FileRow)
    requires UniqueIds(FileIds(files))
    requires f in files
    ensures FindFile(files, f.id) == Some(f)
  {
    var g := FindFile(files, f.id).value;
    var i :| 0 <= i < |files| && files[i] == f;
    var j :| 0 <= j < |files| && files[j] == g;
    assert FileIds(files)[i] == FileIds(files)[j];
  }

  /** Under the primary key, the lookup finds the one row with that id. */
  lemma FindUserUnique(users: seq<UserRow>, u: UserRow)
    requires UniqueIds(UserIds(users))
    requires u in users
    ensures FindUser(users, u.id) == Some(u)
  {
    var g := FindUser(users, u.id).value;
    var i :| 0 <= i < |users| && users[i] == u;
    var j :| 0 <= j < |users| && users[j] == g;
    assert UserIds(users)[i] == UserIds(users)[j];
  }

  /**
   * The two nullable columns are written together: `date_returned` and
   * `condition` are both NULL on an outstanding loan and both set on a
   * returned one.
   */
  ghost predicate ReturnsPaired(txs: seq<TransactionRow>) {
    forall t :: t in txs ==> (t.IsOutstanding() <==> t.condition.None?)
  }

  /**
   * `UPDATE transactions SET date_returned = ?, condition = ? WHERE id = ?`.
   * There is no `date_returned IS NULL` condition, so a returned row is
   * overwritten, and an unknown id changes nothing.
   */
  function ApplyReturn(txs: seq<TransactionRow>, id: nat, date: string, cond: string): (r: seq<TransactionRow>)
    ensures |r| == |txs| && TransactionIds(r) == TransactionIds(txs)
    ensures forall i :: 0 <= i < |txs| && txs[i].id != id ==> r[i] == txs[i]
    ensures forall i :: 0 <= i < |txs| && txs[i].id == id ==>
              r[i].dateReturned == Some(date) && r[i].condition == Some(cond) && Persists(txs[i], r[i])
    ensures (forall i :: 0 <= i < |txs| ==> txs[i].id != id) ==> r == txs
    ensures ReturnsPaired(txs) ==> ReturnsPaired(r)
  {
    seq(|txs|, i requires 0 <= i < |txs| =>
      if txs[i].id == id then txs[i].(dateReturned := Some(date), condition := Some(cond)) else txs[i])
  }

  /**
   * From `a` to `b` a transaction keeps its id, file, user and date taken,
   * and once returned it is never outstanding again.
   */
  predicate Persists(a: TransactionRow, b: TransactionRow) {
    && b.id == a.id && b.fileId == a.fileId && b.userId == a.userId && b.dateTaken == a.dateTaken
    && (!a.IsOutstanding() ==> !b.IsOutstanding())
  }

  /**
   * The transactions table moved forward from `before` to `after`: no row
   * was deleted, and every existing row persists (the only statements on
   * the table are INSERT and an UPDATE that writes a date).
   */
  ghost predicate Evolves(before: seq<TransactionRow>, after: seq<TransactionRow>) {
    |before| <= |after| && forall i :: 0 <= i < |before| ==> Persists(before[i], after[i])
  }

  /** Along any run of operations that each evolve the table, the table evolves. */
  lemma {:induction false} EvolvesAlong(history: seq<seq<TransactionRow>>)
    requires |history| > 0
    requires forall k :: 0 <= k < |history| - 1 ==> Evolves(history[k], history[k + 1])
    ensures Evolves(history[0], history[|history| - 1])
  {
    if |history| > 1 {
      var prefix := history[..|history| - 1];
      EvolvesAlong(prefix);
      var a, b, c := history[0], history[|history| - 2], history[|history| - 1];
      assert Evolves(a, b) && Evolves(b, c);
      forall i | 0 <= i < |a| ensures Persists(a[i], c[i]) {
        assert Persists(a[i], b[i]) && Persists(b[i], c[i]);
      }
    }
  }
}
