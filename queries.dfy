/**
 * The two read queries over the ledger: the outstanding loans that fill
 * the return combobox, and the rows of the transaction report. Both are
 * inner joins of `transactions` with `users` and `files`; neither has an
 * `ORDER BY`, so nothing below promises a row order.
 */
module Queries {
  import opened Tables

  /** One result of `transactions t JOIN users u ON t.user_id = u.id JOIN files f ON t.file_id = f.id`. */
  datatype Joined = Joined(t: TransactionRow, u: UserRow, f: FileRow)

  /** `j` combines rows of the three tables that satisfy both join conditions. */
  ghost predicate InTables(files: seq<FileRow>, users: seq<UserRow>, txs: seq<TransactionRow>, j: Joined) {
    j.t in txs && j.u in users && j.f in files && j.t.userId == j.u.id && j.t.fileId == j.f.id
  }

  /**
   * The inner join. A transaction whose file or user id matches no row
   * (the foreign keys are declared but never enforced) drops out.
   */
  function Join(files: seq<FileRow>, users: seq<UserRow>, txs: seq<TransactionRow>): (r: seq<Joined>)
    ensures |r| <= |txs|
    ensures forall j :: j in r ==> InTables(files, users, txs, j)
  {
    if txs == [] then []
    else
      var rest := Join(files, users, txs[1..]);
      match (FindUser(users, txs[0].userId), FindFile(files, txs[0].fileId))
      case (Some(u), Some(f)) => [Joined(txs[0], u, f)] + rest
      case _ => rest
  }

  /** Every combination that meets the join conditions is in the join. */
  lemma {:induction false} JoinComplete(files: seq<FileRow>, users: seq<UserRow>, txs: seq<TransactionRow>, j: Joined)
    requires UniqueIds(FileIds(files)) && UniqueIds(UserIds(users))
    requires InTables(files, users, txs, j)
    ensures j in Join(files, users, txs)
  {
    if txs[0] == j.t {
      FindUserUnique(users, j.u);
      FindFileUnique(files, j.f);
    } else {
      JoinComplete(files, users, txs[1..], j);
    }
  }

  /** No two joined rows come from the same transaction. */
  ghost predicate OneRowPerTransaction(r: seq<Joined>) {
    forall a, b :: 0 <= a < b < |r| ==> r[a].t.id != r[b].t.id
  }

  /** Each transaction yields at most one joined row. */
  lemma {:induction false} JoinIdsDistinct(files: seq<FileRow>, users: seq<UserRow>, txs: seq<TransactionRow>)
    requires UniqueIds(TransactionIds(txs))
    ensures OneRowPerTransaction(Join(files, users, txs))
  {
    if txs != [] {
      var rest := Join(files, users, txs[1..]);
      assert UniqueIds(TransactionIds(txs[1..])) by {
        forall a, b | 0 <= a < b < |txs| - 1
          ensures TransactionIds(txs[1..])[a] != TransactionIds(txs[1..])[b]
        {
          assert TransactionIds(txs)[a + 1] != TransactionIds(txs)[b + 1];
        }
      }
      JoinIdsDistinct(files, users, txs[1..]);
      forall k | 0 <= k < |rest| ensures rest[k].t.id != txs[0].id {
        assert rest[k] in rest;
        var i :| 0 <= i < |txs[1..]| && txs[1..][i] == rest[k].t;
        assert TransactionIds(txs)[0] != TransactionIds(txs)[i + 1];
      }
      match (FindUser(users, txs[0].userId), FindFile(files, txs[0].fileId))
      case (Some(u), Some(f)) =>
        var r := [Joined(txs[0], u, f)] + rest;
        assert r == Join(files, users, txs);
        forall a, b | 0 <= a < b < |r| ensures r[a].t.id != r[b].t.id {
          if a == 0 {
            assert r[b] == rest[b - 1];
          } else {
            assert r[a] == rest[a - 1] && r[b] == rest[b - 1];
          }
        }
      case _ =>
        assert rest == Join(files, users, txs);
    }
  }

  /** Appending a transaction appends its own join result and changes nothing before it. */
  lemma {:induction false} JoinAppend(files: seq<FileRow>, users: seq<UserRow>, txs: seq<TransactionRow>, t: TransactionRow)
    ensures Join(files, users, txs + [t]) == Join(files, users, txs) + Join(files, users, [t])
  {
    if txs == [] {
      assert txs + [t] == [t];
    } else {
      assert (txs + [t])[1..] == txs[1..] + [t];
      JoinAppend(files, users, txs[1..], t);
    }
  }

  /** The join of a single transaction: one row when both its file and its user exist. */
  lemma JoinSingle(files: seq<FileRow>, users: seq<UserRow>, t: TransactionRow)
    ensures Join(files, users, [t]) ==
      match (FindUser(users, t.userId), FindFile(files, t.fileId))
      case (Some(u), Some(f)) => [Joined(t, u, f)]
      case _ => []
  {
  }

  /** `WHERE t.date_returned IS NULL`. */
  function Unreturned(txs: seq<TransactionRow>): (r: seq<TransactionRow>)
    ensures |r| <= |txs|
    ensures forall t :: t in r <==> t in txs && t.IsOutstanding()
  {
    if txs == [] then []
    else if txs[0].IsOutstanding() then [txs[0]] + Unreturned(txs[1..])
    else Unreturned(txs[1..])
  }

  /** Filtering keeps the primary key unique. */
  lemma {:induction false} UnreturnedIdsUnique(txs: seq<TransactionRow>)
    requires UniqueIds(TransactionIds(txs))
    ensures UniqueIds(TransactionIds(Unreturned(txs)))
  {
    if txs != [] {
      assert UniqueIds(TransactionIds(txs[1..])) by {
        forall a, b | 0 <= a < b < |txs| - 1
          ensures TransactionIds(txs[1..])[a] != TransactionIds(txs[1..])[b]
        {
          assert TransactionIds(txs)[a + 1] != TransactionIds(txs)[b + 1];
        }
      }
      UnreturnedIdsUnique(txs[1..]);
      var rest := Unreturned(txs[1..]);
      if txs[0].IsOutstanding() {
        var r := [txs[0]] + rest;
        forall a, b | 0 <= a < b < |r| ensures TransactionIds(r)[a] != TransactionIds(r)[b] {
          if a == 0 {
            assert r[b] in rest;
            var i :| 0 <= i < |txs[1..]| && txs[1..][i] == r[b];
            assert TransactionIds(txs)[0] != TransactionIds(txs)[i + 1];
          } else {
            assert TransactionIds(rest)[a - 1] != TransactionIds(rest)[b - 1];
          }
        }
      }
    }
  }

  /** Appending a transaction to the table appends it to the filter when it is outstanding. */
  lemma {:induction false} UnreturnedAppend(txs: seq<TransactionRow>, t: TransactionRow)
    ensures Unreturned(txs + [t]) == Unreturned(txs) + (if t.IsOutstanding() then [t] else [])
  {
    if txs == [] {
      assert txs + [t] == [t] && [t][1..] == [];
    } else {
      assert (txs + [t])[1..] == txs[1..] + [t];
      UnreturnedAppend(txs[1..], t);
    }
  }

  /** A row of the outstanding-loans query: `t.id, u.first_name, u.last_name, f.file_name, t.date_taken`. */
  datatype LoanRow = LoanRow(id: nat, firstName: string, lastName: string, fileName: string, dateTaken: string)

  function LoanRowOf(j: Joined): LoanRow {
    LoanRow(j.t.id, j.u.firstName, j.u.lastName, j.f.fileName, j.t.dateTaken)
  }

  /** `row` comes from an outstanding transaction whose user and file both exist. */
  ghost predicate IsOutstandingLoan(files: seq<FileRow>, users: seq<UserRow>, txs: seq<TransactionRow>, row: LoanRow) {
    exists j :: InTables(files, users, txs, j) && j.t.IsOutstanding() && row == LoanRowOf(j)
  }

  /** The outstanding-loans query. */
  function OutstandingLoans(files: seq<FileRow>, users: seq<UserRow>, txs: seq<TransactionRow>): (r: seq<LoanRow>)
    ensures |r| <= |txs|
    ensures forall row :: row in r ==> IsOutstandingLoan(files, users, txs, row)
  {
    var joined := Join(files, users, Unreturned(txs));
    var r := seq(|joined|, k requires 0 <= k < |joined| => LoanRowOf(joined[k]));
    assert forall k :: 0 <= k < |r| ==> InTables(files, users, txs, joined[k]) && joined[k].t.IsOutstanding() by {
      forall k | 0 <= k < |r| ensures InTables(files, users, txs, joined[k]) && joined[k].t.IsOutstanding() {
        assert joined[k] in joined;
      }
    }
    r
  }

  /** Every outstanding transaction whose user and file exist is listed. */
  lemma OutstandingComplete(files: seq<FileRow>, users: seq<UserRow>, txs: seq<TransactionRow>, j: Joined)
    requires UniqueIds(FileIds(files)) && UniqueIds(UserIds(users))
    requires InTables(files, users, txs, j) && j.t.IsOutstanding()
    ensures LoanRowOf(j) in OutstandingLoans(files, users, txs)
  {
    var joined := Join(files, users, Unreturned(txs));
    JoinComplete(files, users, Unreturned(txs), j);
    var k :| 0 <= k < |joined| && joined[k] == j;
    assert OutstandingLoans(files, users, txs)[k] == LoanRowOf(j);
  }

  /** No transaction is listed twice. */
  lemma OutstandingIdsDistinct(files: seq<FileRow>, users: seq<UserRow>, txs: seq<TransactionRow>)
    requires UniqueIds(TransactionIds(txs))
    ensures forall a, b :: 0 <= a < b < |OutstandingLoans(files, users, txs)| ==>
      OutstandingLoans(files, users, txs)[a].id != OutstandingLoans(files, users, txs)[b].id
  {
    UnreturnedIdsUnique(txs);
    var joined := Join(files, users, Unreturned(txs));
    JoinIdsDistinct(files, users, Unreturned(txs));
    var r := OutstandingLoans(files, users, txs);
    forall a, b | 0 <= a < b < |r| ensures r[a].id != r[b].id {
      assert joined[a].t.id != joined[b].t.id;
      assert r[a].id == joined[a].t.id && r[b].id == joined[b].t.id;
    }
  }

  /**
   * Lending appends at most one outstanding loan: the new transaction,
   * exactly when its user and its file exist. The loans already listed
   * stay listed.
   */
  lemma LendListsLoan(files: seq<FileRow>, users: seq<UserRow>, txs: seq<TransactionRow>, t: TransactionRow)
    requires t.IsOutstanding()
    ensures OutstandingLoans(files, users, txs + [t]) == OutstandingLoans(files, users, txs) +
      match (FindUser(users, t.userId), FindFile(files, t.fileId))
      case (Some(u), Some(f)) => [LoanRow(t.id, u.firstName, u.lastName, f.fileName, t.dateTaken)]
      case _ => []
  {
    UnreturnedAppend(txs, t);
    JoinAppend(files, users, Unreturned(txs), t);
    JoinSingle(files, users, t);
  }

  /**
   * Lending, up to the order of the listing (the query has no `ORDER BY`):
   * the listed loans are the earlier ones together with the new loan,
   * which is listed exactly when its user and its file exist.
   */
  lemma LendAddsLoan(files: seq<FileRow>, users: seq<UserRow>, txs: seq<TransactionRow>, t: TransactionRow)
    requires t.IsOutstanding()
    ensures multiset(OutstandingLoans(files, users, txs + [t])) == multiset(OutstandingLoans(files, users, txs)) +
      match (FindUser(users, t.userId), FindFile(files, t.fileId))
      case (Some(u), Some(f)) => multiset{LoanRow(t.id, u.firstName, u.lastName, f.fileName, t.dateTaken)}
      case _ => multiset{}
  {
    LendListsLoan(files, users, txs, t);
  }

  /** Right after a return of transaction `id`, no loan with that id is listed. */
  lemma ReturnClosesLoan(files: seq<FileRow>, users: seq<UserRow>, txs: seq<TransactionRow>, id: nat, date: string, cond: string)
    ensures forall row :: row in OutstandingLoans(files, users, ApplyReturn(txs, id, date, cond)) ==> row.id != id
  {
  }

  /**
   * A row of the report, its columns in the order of the CSV header
   * `Transaction ID, File Name, User First Name, User Last Name, Date Taken,
   * Date Returned, Condition`. The last two are NULL for an outstanding loan.
   */
  datatype ReportRow = ReportRow(
    transactionId: nat,
    fileName: string,
    userFirstName: string,
    userLastName: string,
    dateTaken: string,
    dateReturned: Option<string>,
    condition: Option<string>)

  function ReportRowOf(j: Joined): ReportRow {
    ReportRow(j.t.id, j.f.fileName, j.u.firstName, j.u.lastName, j.t.dateTaken, j.t.dateReturned, j.t.condition)
  }

  /** `row` reports a transaction whose file and user both exist. */
  ghost predicate IsReported(files: seq<FileRow>, users: seq<UserRow>, txs: seq<TransactionRow>, row: ReportRow) {
    exists j :: InTables(files, users, txs, j) && row == ReportRowOf(j)
  }

  /** The report query: every transaction joined with its file and its user. */
  function ReportRows(files: seq<FileRow>, users: seq<UserRow>, txs: seq<TransactionRow>): (r: seq<ReportRow>)
    ensures |r| <= |txs|
    ensures forall row :: row in r ==> IsReported(files, users, txs, row)
  {
    var joined := Join(files, users, txs);
    var r := seq(|joined|, k requires 0 <= k < |joined| => ReportRowOf(joined[k]));
    assert forall k :: 0 <= k < |r| ==> InTables(files, users, txs, joined[k]) by {
      forall k | 0 <= k < |r| ensures InTables(files, users, txs, joined[k]) {
        assert joined[k] in joined;
      }
    }
    r
  }

  /**
   * While the two nullable columns are written together, a report row has
   * a NULL return date exactly when it has a NULL condition.
   */
  lemma ReportNullsPaired(files: seq<FileRow>, users: seq<UserRow>, txs: seq<TransactionRow>)
    requires ReturnsPaired(txs)
    ensures forall row :: row in ReportRows(files, users, txs) ==> (row.dateReturned.None? <==> row.condition.None?)
  {
  }

  /** Every transaction whose file and user exist is reported. */
  lemma ReportComplete(files: seq<FileRow>, users: seq<UserRow>, txs: seq<TransactionRow>, j: Joined)
    requires UniqueIds(FileIds(files)) && UniqueIds(UserIds(users))
    requires InTables(files, users, txs, j)
    ensures ReportRowOf(j) in ReportRows(files, users, txs)
  {
    var joined := Join(files, users, txs);
    JoinComplete(files, users, txs, j);
    var k :| 0 <= k < |joined| && joined[k] == j;
    assert ReportRows(files, users, txs)[k] == ReportRowOf(j);
  }

  /** No transaction is reported twice. */
  lemma ReportIdsDistinct(files: seq<FileRow>, users: seq<UserRow>, txs: seq<TransactionRow>)
    requires UniqueIds(TransactionIds(txs))
    ensures forall a, b :: 0 <= a < b < |ReportRows(files, users, txs)| ==>
      ReportRows(files, users, txs)[a].transactionId != ReportRows(files, users, txs)[b].transactionId
  {
    var joined := Join(files, users, txs);
    JoinIdsDistinct(files, users, txs);
    var r := ReportRows(files, users, txs);
    forall a, b | 0 <= a < b < |r| ensures r[a].transactionId != r[b].transactionId {
      assert joined[a].t.id != joined[b].t.id;
      assert r[a].transactionId == joined[a].t.id && r[b].transactionId == joined[b].t.id;
    }
  }
}
