/**
 * The lending ledger: the store that the four form handlers change in
 * place, and the two procedures that read it.
 */
module LendingLedger {
  import opened Tables
  import opened Labels
  import opened Queries

  class Ledger {
    var files: seq<FileRow>
    var users: seq<UserRow>
    var transactions: seq<TransactionRow>

    /**
     * Every table keeps its primary key unique, and a transaction's return
     * date and condition are NULL together.
     */
    ghost predicate Valid()
      reads this
    {
      && UniqueIds(FileIds(files))
      && UniqueIds(UserIds(users))
      && UniqueIds(TransactionIds(transactions))
      && ReturnsPaired(transactions)
    }

    /** A freshly created database: three empty tables. */
    constructor ()
      ensures Valid()
      ensures files == [] && users == [] && transactions == []
    {
      files, users, transactions := [], [], [];
    }

    /**
     * The "Register File" handler: inserts a file when both fields are
     * non-empty (no trimming), under a fresh rowid.
     */
    method RegisterFile(fileName: string, uniqueNumber: string) returns (ok: bool)
      requires Valid()
      modifies this
      ensures Valid()
      ensures ok <==> fileName != [] && uniqueNumber != []
      ensures files == if ok then old(files) + [FileRow(NextRowid(FileIds(old(files))), fileName, uniqueNumber)]
                       else old(files)
      ensures ok ==> forall f :: f in old(files) ==> f.id != files[|files| - 1].id
      ensures users == old(users) && transactions == old(transactions)
    {
      ok := fileName != [] && uniqueNumber != [];
      if ok {
        var row := FileRow(NextRowid(FileIds(files)), fileName, uniqueNumber);
        AppendFreshId(FileIds(files), row.id);
        assert FileIds(files + [row]) == FileIds(files) + [row.id];
        forall f | f in files ensures f.id != row.id {
          var i :| 0 <= i < |files| && files[i] == f;
          assert FileIds(files)[i] == f.id;
        }
        files := files + [row];
      }
    }

    /**
     * The "Register User" handler: inserts a user when first name, last
     * name and department are all non-empty, under a fresh rowid.
     */
    method RegisterUser(firstName: string, lastName: string, department: string) returns (ok: bool)
      requires Valid()
      modifies this
      ensures Valid()
      ensures ok <==> firstName != [] && lastName != [] && department != []
      ensures users == if ok then old(users) + [UserRow(NextRowid(UserIds(old(users))), firstName, lastName, department)]
                       else old(users)
      ensures ok ==> forall u :: u in old(users) ==> u.id != users[|users| - 1].id
      ensures files == old(files) && transactions == old(transactions)
    {
      ok := firstName != [] && lastName != [] && department != [];
      if ok {
        var row := UserRow(NextRowid(UserIds(users)), firstName, lastName, department);
        AppendFreshId(UserIds(users), row.id);
        assert UserIds(users + [row]) == UserIds(users) + [row.id];
        forall u | u in users ensures u.id != row.id {
          var i :| 0 <= i < |users| && users[i] == u;
          assert UserIds(users)[i] == u.id;
        }
        users := users + [row];
      }
    }

    /**
     * The "Lend File" handler: reads the file and user ids off the two
     * selections and inserts an outstanding transaction. Neither id is
     * checked against its table, and the file may already be lent.
     */
    method LendFile(fileSelection: string, userSelection: string, dateTaken: string) returns (ok: bool)
      requires Valid()
      modifies this
      ensures Valid()
      ensures ok <==> SelectedId(fileSelection).Some? && SelectedId(userSelection).Some? && dateTaken != []
      ensures transactions ==
        if ok then old(transactions) + [TransactionRow(NextRowid(TransactionIds(old(transactions))),
                                                       SelectedId(fileSelection).value, SelectedId(userSelection).value,
                                                       dateTaken, None, None)]
        else old(transactions)
      ensures Evolves(old(transactions), transactions)
      ensures files == old(files) && users == old(users)
    {
      var fileId := SelectedId(fileSelection);
      var userId := SelectedId(userSelection);
      ok := fileId.Some? && userId.Some? && dateTaken != [];
      if ok {
        var row := TransactionRow(NextRowid(TransactionIds(transactions)), fileId.value, userId.value, dateTaken, None, None);
        AppendFreshId(TransactionIds(transactions), row.id);
        assert TransactionIds(transactions + [row]) == TransactionIds(transactions) + [row.id];
        transactions := transactions + [row];
      }
    }

    /**
     * The "Return File" handler: reads the transaction id off the
     * selection and records the return date and condition (an empty
     * condition is stored as the empty string) on the row with that id.
     */
    method ReturnFile(selection: string, dateReturned: string, condition: string) returns (ok: bool)
      requires Valid()
      modifies this
      ensures Valid()
      ensures ok <==> SelectedId(selection).Some? && dateReturned != []
      ensures transactions ==
        if ok then ApplyReturn(old(transactions), SelectedId(selection).value, dateReturned, condition)
        else old(transactions)
      ensures Evolves(old(transactions), transactions)
      ensures ok ==> forall row :: row in OutstandingLoans(files, users, transactions) ==> row.id != SelectedId(selection).value
      ensures files == old(files) && users == old(users)
    {
      var id := SelectedId(selection);
      ok := id.Some? && dateReturned != [];
      if ok {
        ReturnClosesLoan(files, users, transactions, id.value, dateReturned, condition);
        transactions := ApplyReturn(transactions, id.value, dateReturned, condition);
      }
    }

    /**
     * The three queries of the combobox refresh, with their labels: every
     * label selects the row it was built from.
     */
    method LoadData() returns (fileLabels: seq<string>, userLabels: seq<string>, loans: seq<LoanRow>, loanLabels: seq<string>)
      ensures fileLabels == FileLabels(files)
      ensures userLabels == UserLabels(users)
      ensures loans == OutstandingLoans(files, users, transactions)
      ensures loanLabels == LoanLabels(loans)
      // The round trip of `LoanLabels`, restated for callers.
      ensures |loanLabels| == |loans| && forall i :: 0 <= i < |loans| ==> SelectedId(loanLabels[i]) == Some(loans[i].id)
    {
      fileLabels := FileLabels(files);
      userLabels := UserLabels(users);
      loans := OutstandingLoans(files, users, transactions);
      loanLabels := LoanLabels(loans);
    }

    /** The rows the report writes under its header; the tables are only read. */
    method GenerateReport() returns (rows: seq<ReportRow>)
      requires Valid()
      ensures rows == ReportRows(files, users, transactions)
      ensures forall a, b :: 0 <= a < b < |rows| ==> rows[a].transactionId != rows[b].transactionId
      ensures forall row :: row in rows ==> (row.dateReturned.None? <==> row.condition.None?)
    {
      rows := ReportRows(files, users, transactions);
      ReportIdsDistinct(files, users, transactions);
      ReportNullsPaired(files, users, transactions);
    }
  }

  /** A new database with one registered file and one registered user. */
  method RegisteredLedger() returns (ledger: Ledger)
    ensures fresh(ledger) && ledger.Valid()
    ensures ledger.files == [FileRow(1, "Invoice-2024", "INV-001")]
    ensures ledger.users == [UserRow(1, "Ada", "Lovelace", "Finance")]
    ensures ledger.transactions == []
  {
    ledger := new Ledger();
    assert FileIds([]) == [] && UserIds([]) == [];
    var ok := ledger.RegisterFile("Invoice-2024", "INV-001");
    ok := ledger.RegisterUser("Ada", "Lovelace", "Finance");
  }

  /** Lending the registered file to the registered user by picking both labels. */
  method LendByLabels(ledger: Ledger) returns (loans: seq<LoanRow>)
    requires ledger.Valid()
    requires ledger.files == [FileRow(1, "Invoice-2024", "INV-001")]
    requires ledger.users == [UserRow(1, "Ada", "Lovelace", "Finance")]
    requires ledger.transactions == []
    modifies ledger
    ensures ledger.Valid() && ledger.files == old(ledger.files) && ledger.users == old(ledger.users)
    ensures ledger.transactions == [TransactionRow(1, 1, 1, "2024-01-10", None, None)]
    ensures loans == OutstandingLoans(ledger.files, ledger.users, ledger.transactions)
    ensures loans == [LoanRow(1, "Ada", "Lovelace", "Invoice-2024", "2024-01-10")]
  {
    var file, user := ledger.files[0], ledger.users[0];
    var fileLabels, userLabels, _, _ := ledger.LoadData();
    assert SelectedId(fileLabels[0]) == Some(1) && SelectedId(userLabels[0]) == Some(1);
    assert TransactionIds([]) == [];
    var ok := ledger.LendFile(fileLabels[0], userLabels[0], "2024-01-10");
    var lent := TransactionRow(1, 1, 1, "2024-01-10", None, None);
    assert ledger.transactions == [] + [lent];
    assert FindUser([user], 1) == Some(user) && FindFile([file], 1) == Some(file);
    LendListsLoan([file], [user], [], lent);
    assert OutstandingLoans([file], [user], []) == [];
    loans := OutstandingLoans(ledger.files, ledger.users, ledger.transactions);
  }

  /** Returning the lent file by picking its loan label. */
  method ReturnByLabel(ledger: Ledger, loans: seq<LoanRow>)
    requires ledger.Valid()
    requires ledger.files == [FileRow(1, "Invoice-2024", "INV-001")]
    requires ledger.users == [UserRow(1, "Ada", "Lovelace", "Finance")]
    requires ledger.transactions == [TransactionRow(1, 1, 1, "2024-01-10", None, None)]
    requires loans == [LoanRow(1, "Ada", "Lovelace", "Invoice-2024", "2024-01-10")]
    modifies ledger
    ensures ledger.Valid() && ledger.files == old(ledger.files) && ledger.users == old(ledger.users)
    ensures ledger.transactions == [TransactionRow(1, 1, 1, "2024-01-10", Some("2024-01-15"), Some("Good"))]
  {
    var loanLabels := LoanLabels(loans);
    assert SelectedId(loanLabels[0]) == Some(1);
    var ok := ledger.ReturnFile(loanLabels[0], "2024-01-15", "Good");
  }

  /**
   * A complete session on a new database: register a file and a user,
   * lend the file by picking both labels, return it by picking the loan
   * label, and build the report.
   */
  method InvoiceSession() returns (loansAfterLend: seq<LoanRow>, loansAfterReturn: seq<LoanRow>, report: seq<ReportRow>)
    ensures loansAfterLend == [LoanRow(1, "Ada", "Lovelace", "Invoice-2024", "2024-01-10")]
    ensures loansAfterReturn == []
    ensures report == [ReportRow(1, "Invoice-2024", "Ada", "Lovelace", "2024-01-10", Some("2024-01-15"), Some("Good"))]
  {
    var ledger := RegisteredLedger();
    loansAfterLend := LendByLabels(ledger);
    ReturnByLabel(ledger, loansAfterLend);
    var returned := TransactionRow(1, 1, 1, "2024-01-10", Some("2024-01-15"), Some("Good"));
    var _, _, loans, _ := ledger.LoadData();
    loansAfterReturn := loans;
    report := ledger.GenerateReport();
    JoinSingle(ledger.files, ledger.users, returned);
  }
}
