/** The data rules behind the Express handlers of server.js: the rows of the Oracle tables,
    the login decision, the validation of a new prisoner, the cell bookkeeping done when a
    prisoner moves, the library ledger and the work-assignment specialization tables, each
    with the invariant the handlers are meant to keep. The handlers themselves, which
    change these tables step by step, are the methods of `Server.Database`. */
module ServerRules {
  import opened Common

  /** The JSON reply of a mutating route: HTTP status, `success` flag and message
      (the empty string when the route sends none). */
  datatype Reply = Reply(status: int, success: bool, message: string)

  function Done(): Reply { Reply(200, true, "") }

  function Refused(status: int, message: string): Reply { Reply(status, false, message) }

  // ---------------------------------------------------------------------------------
  // Table rows. Each table is a map from its key column to the other columns; a
  // nullable column is an `Option`.

  /** A row of `pms`: password and employee type, keyed by username. */
  datatype Credential = Credential(password: string, kind: string)

  datatype PrisonerRow = PrisonerRow(
    name: string, age: int, gender: string, crime: string, imprisonedOn: string,
    totalSentence: Option<string>, cellID: Option<string>)

  datatype CellRow = CellRow(blockID: string, isOccupied: bool, prisonerID: Option<string>)

  datatype DisciplinaryRow = DisciplinaryRow(prisonerID: string, actionDate: string, reason: string)

  datatype VisitorRow = VisitorRow(
    name: string, prisonerID: string, relation: string, visitDate: string, visitTime: Option<string>)

  datatype CallLogRow = CallLogRow(
    prisonerID: string, receiverName: string, receiverRelation: string, duration: string, callDate: string)

  datatype CaseRow = CaseRow(prisonerID: string, lawyerID: string, status: string, sentenceDuration: Option<int>)

  datatype LawyerRow = LawyerRow(name: string, contactNo: string)

  datatype BookRow = BookRow(title: string, author: string, genre: Option<string>, status: string)

  /** A row of `book_issues`; the table has no key of its own and is kept in insertion order. */
  datatype IssueRow = IssueRow(prisonerID: string, bookID: string, issueDate: Option<Date>, returnDate: Option<Date>)

  // ---------------------------------------------------------------------------------
  // Login (`POST /auth`)

  datatype LoginReply = LoginReply(status: int, message: string, role: Option<string>)

  /** The login decision, given the `pms` table. */
  function Authenticate(pms: map<string, Credential>, username: string, password: string): (r: LoginReply)
    ensures (username == "" || password == "") <==> r.status == 400
    ensures r.status == 400 ==> r.message == "Please enter Username and Password!"
    ensures r == LoginReply(401, "Invalid Username!", None) <==>
              username != "" && password != "" && username !in pms
    ensures r == LoginReply(401, "Invalid Password!", None) <==>
              username != "" && password != "" && username in pms && pms[username].password != password
    ensures r.status == 200 <==> username != "" && password != "" && username in pms && pms[username].password == password
    ensures r.status == 200 ==> r.message == "Login successful!" && r.role.Some?
    ensures r.status in {200, 400, 401}
  {
    if username == "" || password == "" then LoginReply(400, "Please enter Username and Password!", None)
    else if username !in pms then LoginReply(401, "Invalid Username!", None)
    else if password != pms[username].password then LoginReply(401, "Invalid Password!", None)
    else if username == "admin" then LoginReply(200, "Login successful!", Some("admin"))
    else LoginReply(200, "Login successful!", Some("user"))
  }

  /** A successful login carries role `admin` exactly for the user named "admin". */
  lemma AdminRoleOnlyForAdmin(pms: map<string, Credential>, username: string, password: string)
    requires Authenticate(pms, username, password).status == 200
    ensures Authenticate(pms, username, password).role == Some("admin") <==> username == "admin"
    ensures Authenticate(pms, username, password).role == Some("user") <==> username != "admin"
  {
  }

  // ---------------------------------------------------------------------------------
  // Prisoner creation (`POST /api/prisoners`)

  /** The JSON `age` of the request: absent, a number, or something else (a string). */
  datatype AgeInput = AgeMissing | AgeNumber(n: int) | AgeText(s: string)

  predicate AgeFalsy(age: AgeInput) {
    age.AgeMissing? || age == AgeNumber(0) || age == AgeText("")
  }

  datatype NewPrisoner = NewPrisoner(
    prisonerID: string, name: string, age: AgeInput, gender: string, crime: string,
    imprisonedOn: string, totalSentence: string, cellID: string)

  /** The 400 message the route answers for a request, or `None` when it is accepted. */
  function NewPrisonerError(req: NewPrisoner): (r: Option<string>)
    ensures r.None? <==>
              req.prisonerID != "" && req.name != "" && req.gender != "" && req.crime != "" &&
              req.imprisonedOn != "" && req.age.AgeNumber? && 18 <= req.age.n <= 100
    ensures r == Some("Missing required fields") <==>
              req.prisonerID == "" || req.name == "" || AgeFalsy(req.age) || req.gender == "" ||
              req.crime == "" || req.imprisonedOn == ""
  {
    if req.prisonerID == "" || req.name == "" || AgeFalsy(req.age) || req.gender == ""
       || req.crime == "" || req.imprisonedOn == ""
    then Some("Missing required fields")
    else if !req.age.AgeNumber? || req.age.n < 18 || req.age.n > 100
    then Some("Age must be a number between 18 and 100")
    else None
  }

  /** The row an accepted request inserts: empty sentence and cell become NULL. */
  function NewPrisonerRow(req: NewPrisoner): (r: PrisonerRow)
    requires req.age.AgeNumber?
    ensures r.age == req.age.n && r.name == req.name && r.crime == req.crime
    ensures r.gender == req.gender && r.imprisonedOn == req.imprisonedOn
    ensures r.totalSentence.None? <==> req.totalSentence == ""
    ensures r.totalSentence.Some? ==> r.totalSentence.value == req.totalSentence
    ensures r.cellID.None? <==> req.cellID == ""
    ensures r.cellID.Some? ==> r.cellID.value == req.cellID
  {
    PrisonerRow(req.name, req.age.n, req.gender, req.crime, req.imprisonedOn,
                NullIfEmpty(req.totalSentence), NullIfEmpty(req.cellID))
  }

  // ---------------------------------------------------------------------------------
  // Cell occupancy

  /** Cell `c` is marked occupied by prisoner `p`. */
  predicate Houses(cells: map<string, CellRow>, c: string, p: string) {
    c in cells && cells[c].isOccupied && cells[c].prisonerID == Some(p)
  }

  /** Prisoner `p`'s row names cell `c`. */
  predicate AssignedTo(prisoners: map<string, PrisonerRow>, p: string, c: string) {
    p in prisoners && prisoners[p].cellID == Some(c)
  }

  /** A cell is occupied exactly when it names an occupant, and cell `c` is occupied by
      `p` iff `p`'s row names `c`. */
  ghost predicate CellsConsistent(prisoners: map<string, PrisonerRow>, cells: map<string, CellRow>) {
    (forall c | c in cells :: cells[c].isOccupied <==> cells[c].prisonerID.Some?) &&
    (forall c, p | c in cells :: Houses(cells, c, p) <==> AssignedTo(prisoners, p, c))
  }

  /** `UPDATE Cell SET isOccupied = 0, prisonerID = NULL WHERE cellID = c` */
  function FreeCell(cells: map<string, CellRow>, c: string): (r: map<string, CellRow>)
    ensures r.Keys == cells.Keys
    ensures c in cells ==> !r[c].isOccupied && r[c].prisonerID.None? && r[c].blockID == cells[c].blockID
    ensures forall d | d in cells && d != c :: r[d] == cells[d]
  {
    if c in cells then cells[c := CellRow(cells[c].blockID, false, None)] else cells
  }

  /** `UPDATE Cell SET isOccupied = 1, prisonerID = p WHERE cellID = c` */
  function OccupyCell(cells: map<string, CellRow>, c: string, p: string): (r: map<string, CellRow>)
    ensures r.Keys == cells.Keys
    ensures c in cells ==> Houses(r, c, p) && r[c].blockID == cells[c].blockID
    ensures forall d | d in cells && d != c :: r[d] == cells[d]
  {
    if c in cells then cells[c := CellRow(cells[c].blockID, true, Some(p))] else cells
  }

  /** The Cell updates of `PUT /api/prisoners/:id` when prisoner `p` goes from cell `from`
      to cell `to`: nothing when the cell is unchanged, otherwise the old cell is freed and
      then the new one occupied. */
  function MoveCells(cells: map<string, CellRow>, p: string, from: Option<string>, to: Option<string>): (r: map<string, CellRow>)
    ensures r.Keys == cells.Keys
    ensures from == to ==> r == cells
    ensures from != to && to.Some? && to.value in cells ==> Houses(r, to.value, p)
    ensures from != to && from.Some? && from.value in cells && to != from ==>
              !r[from.value].isOccupied && r[from.value].prisonerID.None?
    ensures forall c | c in cells && Some(c) != from && Some(c) != to :: r[c] == cells[c]
    ensures forall c | c in cells :: r[c].blockID == cells[c].blockID
  {
    if from == to then cells
    else
      var freed := if from.Some? then FreeCell(cells, from.value) else cells;
      if to.Some? then OccupyCell(freed, to.value, p) else freed
  }

  /** The guard of the prisoner update: the requested cell differs from the current one,
      exists, is occupied, and its occupant is not this prisoner. */
  predicate CellBlocked(cells: map<string, CellRow>, p: string, from: Option<string>, to: Option<string>) {
    to.Some? && to != from && to.value in cells && cells[to.value].isOccupied
    && cells[to.value].prisonerID != Some(p)
  }

  /** `GET /api/cells/available`: the cells whose isOccupied is 0. */
  function AvailableCells(cells: map<string, CellRow>): (r: set<string>)
    ensures forall c :: c in r <==> c in cells && !cells[c].isOccupied
  {
    set c | c in cells && !cells[c].isOccupied
  }

  /** Under the occupancy invariant, a cell is listed as available exactly when no
      prisoner's row names it. */
  lemma AvailableIffUnassigned(prisoners: map<string, PrisonerRow>, cells: map<string, CellRow>, c: string)
    requires CellsConsistent(prisoners, cells)
    ensures c in AvailableCells(cells) <==> c in cells && forall p :: !AssignedTo(prisoners, p, c)
  {
    if c in cells && cells[c].isOccupied {
      var p := cells[c].prisonerID.value;
      assert Houses(cells, c, p);
    }
  }

  /** A prisoner update that passes the occupancy guard keeps the occupancy invariant. */
  lemma MoveKeepsCellsConsistent(prisoners: map<string, PrisonerRow>, cells: map<string, CellRow>,
                                 p: string, row: PrisonerRow)
    requires CellsConsistent(prisoners, cells)
    requires p in prisoners
    requires !CellBlocked(cells, p, prisoners[p].cellID, row.cellID)
    ensures CellsConsistent(prisoners[p := row], MoveCells(cells, p, prisoners[p].cellID, row.cellID))
  {
    var from, to := prisoners[p].cellID, row.cellID;
    var prisoners' := prisoners[p := row];
    var cells' := MoveCells(cells, p, from, to);
    forall c, q | c in cells'
      ensures Houses(cells', c, q) <==> AssignedTo(prisoners', q, c)
    {
      assert Houses(cells, c, q) <==> AssignedTo(prisoners, q, c);
      assert Houses(cells, c, p) <==> AssignedTo(prisoners, p, c);
      if from == to {
      } else if to == Some(c) {
        // the guard let the move through, and the target cannot already house p
        assert !cells[c].isOccupied;
      } else if from == Some(c) {
        assert Houses(cells, c, p);
      } else {
        assert cells'[c] == cells[c];
      }
    }
  }

  /** Deleting a prisoner and freeing the cell their row names keeps the occupancy invariant. */
  lemma ReleaseKeepsCellsConsistent(prisoners: map<string, PrisonerRow>, cells: map<string, CellRow>, p: string)
    requires CellsConsistent(prisoners, cells)
    requires p in prisoners
    ensures var from := prisoners[p].cellID;
            CellsConsistent(prisoners - {p}, if from.Some? then FreeCell(cells, from.value) else cells)
  {
    var from := prisoners[p].cellID;
    var cells' := if from.Some? then FreeCell(cells, from.value) else cells;
    forall c, q | c in cells'
      ensures Houses(cells', c, q) <==> AssignedTo(prisoners - {p}, q, c)
    {
      assert Houses(cells, c, q) <==> AssignedTo(prisoners, q, c);
      assert Houses(cells, c, p) <==> AssignedTo(prisoners, p, c);
      if from == Some(c) {
        assert Houses(cells, c, p);
      } else {
        assert cells'[c] == cells[c];
      }
    }
  }

  /** Prisoner creation inserts the row and never touches Cell: it keeps the occupancy
      invariant exactly when the new row names no existing cell. */
  lemma CreateKeepsCellsConsistentIff(prisoners: map<string, PrisonerRow>, cells: map<string, CellRow>,
                                      p: string, row: PrisonerRow)
    requires CellsConsistent(prisoners, cells)
    requires p !in prisoners
    ensures CellsConsistent(prisoners[p := row], cells) <==> (row.cellID.None? || row.cellID.value !in cells)
  {
    var prisoners' := prisoners[p := row];
    if row.cellID.Some? && row.cellID.value in cells {
      var c := row.cellID.value;
      assert AssignedTo(prisoners', p, c);
      assert !AssignedTo(prisoners, p, c);
      assert !Houses(cells, c, p);
    } else {
      forall c, q | c in cells
        ensures Houses(cells, c, q) <==> AssignedTo(prisoners', q, c)
      {
        assert Houses(cells, c, q) <==> AssignedTo(prisoners, q, c);
      }
    }
  }

  /** A concrete run: prisoner P100 is created with free cell C12. Afterwards the prisoner
      row names C12, C12 is still unoccupied and still listed as available. */
  lemma CreateLeavesCellFree()
    ensures var cells := map["C12" := CellRow("B1", false, None)];
            var row := NewPrisonerRow(NewPrisoner("P100", "Ravi", AgeNumber(30), "M", "Theft",
                                                  "2024-01-05", "", "C12"));
            CellsConsistent(map[], cells) &&
            row.cellID == Some("C12") &&
            !CellsConsistent(map["P100" := row], cells) &&
            "C12" in AvailableCells(cells)
  {
    var cells := map["C12" := CellRow("B1", false, None)];
    var row := NewPrisonerRow(NewPrisoner("P100", "Ravi", AgeNumber(30), "M", "Theft", "2024-01-05", "", "C12"));
    assert AssignedTo(map["P100" := row], "P100", "C12");
    assert !Houses(cells, "C12", "P100");
  }

  // ---------------------------------------------------------------------------------
  // The library ledger (`Library` and `book_issues`)

  /** An issue row of book `b` that has not been returned. */
  predicate IsOpenFor(r: IssueRow, b: string) {
    r.bookID == b && r.returnDate.None?
  }

  function OpenRows(issues: seq<IssueRow>, b: string): seq<IssueRow> {
    Filter(issues, (r: IssueRow) => IsOpenFor(r, b))
  }

  /** Every issue row refers to a catalogued book, and a book is 'Issued' with exactly one
      open row, and otherwise has none. */
  ghost predicate LedgerConsistent(books: map<string, BookRow>, issues: seq<IssueRow>) {
    (forall i | 0 <= i < |issues| :: issues[i].bookID in books) &&
    (forall b | b in books :: |OpenRows(issues, b)| == if books[b].status == "Issued" then 1 else 0)
  }

  /** The invariant read as the library page reads it: a book is 'Issued' iff it has an
      open row. */
  lemma IssuedIffOpenRow(books: map<string, BookRow>, issues: seq<IssueRow>, b: string)
    requires LedgerConsistent(books, issues) && b in books
    ensures books[b].status == "Issued" <==> exists r :: r in issues && IsOpenFor(r, b)
  {
    var keep := (r: IssueRow) => IsOpenFor(r, b);
    if books[b].status == "Issued" {
      var r := OpenRows(issues, b)[0];
      FilterMembership(issues, keep, r);
    } else {
      forall r | r in issues ensures !IsOpenFor(r, b) {
        FilterMembership(issues, keep, r);
      }
    }
  }

  /** The `UPDATE book_issues SET return_date = d WHERE bookID = b AND return_date IS NULL`
      of the return route. */
  function CloseOpen(issues: seq<IssueRow>, b: string, d: Option<Date>): (r: seq<IssueRow>)
    ensures |r| == |issues|
    ensures forall i | 0 <= i < |issues| ::
              r[i] == if IsOpenFor(issues[i], b) then issues[i].(returnDate := d) else issues[i]
  {
    if issues == [] then []
    else [if IsOpenFor(issues[0], b) then issues[0].(returnDate := d) else issues[0]] + CloseOpen(issues[1..], b, d)
  }

  /** `DELETE FROM book_issues WHERE bookID = b` */
  function DropBook(issues: seq<IssueRow>, b: string): seq<IssueRow> {
    Filter(issues, (r: IssueRow) => r.bookID != b)
  }

  lemma {:induction false} OpenRowsAppend(issues: seq<IssueRow>, row: IssueRow, b: string)
    ensures |OpenRows(issues + [row], b)| == |OpenRows(issues, b)| + if IsOpenFor(row, b) then 1 else 0
  {
    FilterAppend(issues, [row], (r: IssueRow) => IsOpenFor(r, b));
    assert [row][1..] == [];
  }

  /** Returning with a date closes every open row of `b` and no other row. */
  lemma {:induction false} OpenRowsClose(issues: seq<IssueRow>, b: string, d: Option<Date>, c: string)
    ensures |OpenRows(CloseOpen(issues, b, d), c)| ==
              if c == b && d.Some? then 0 else |OpenRows(issues, c)|
  {
    if issues != [] {
      OpenRowsClose(issues[1..], b, d, c);
      var closed := CloseOpen(issues, b, d);
      assert closed[1..] == CloseOpen(issues[1..], b, d);
    }
  }

  /** Removing the history of `b` leaves the open rows of every other book as they were. */
  lemma {:induction false} OpenRowsDrop(issues: seq<IssueRow>, b: string, c: string)
    requires c != b
    ensures OpenRows(DropBook(issues, b), c) == OpenRows(issues, c)
  {
    var open := (r: IssueRow) => IsOpenFor(r, c);
    var other := (r: IssueRow) => r.bookID != b;
    FilterFilter(issues, other, open, open);
  }

  /** A book with no row in the ledger has no open row. */
  lemma {:induction false} NoRowsNoOpenRows(issues: seq<IssueRow>, b: string)
    requires forall i | 0 <= i < |issues| :: issues[i].bookID != b
    ensures OpenRows(issues, b) == []
  {
    if issues != [] {
      NoRowsNoOpenRows(issues[1..], b);
    }
  }

  /** Adding a book with status 'Available' keeps the ledger invariant. */
  lemma CreateBookKeepsLedger(books: map<string, BookRow>, issues: seq<IssueRow>, b: string, row: BookRow)
    requires LedgerConsistent(books, issues) && b !in books && row.status == "Available"
    ensures LedgerConsistent(books[b := row], issues)
  {
    NoRowsNoOpenRows(issues, b);
  }

  /** Issuing an available book appends one open row and marks it 'Issued'. */
  lemma IssueKeepsLedger(books: map<string, BookRow>, issues: seq<IssueRow>, b: string, row: IssueRow)
    requires LedgerConsistent(books, issues) && b in books && books[b].status == "Available"
    requires row.bookID == b && row.returnDate.None?
    ensures LedgerConsistent(books[b := books[b].(status := "Issued")], issues + [row])
  {
    forall c | c in books {
      OpenRowsAppend(issues, row, c);
    }
  }

  /** Returning an issued book with a return date closes its open row and marks it
      'Available'. */
  lemma ReturnKeepsLedger(books: map<string, BookRow>, issues: seq<IssueRow>, b: string, d: Date)
    requires LedgerConsistent(books, issues) && b in books && books[b].status == "Issued"
    ensures LedgerConsistent(books[b := books[b].(status := "Available")], CloseOpen(issues, b, Some(d)))
  {
    forall c | c in books {
      OpenRowsClose(issues, b, Some(d), c);
    }
  }

  /** Deleting a book without an open row, together with its history, keeps the invariant. */
  lemma DeleteBookKeepsLedger(books: map<string, BookRow>, issues: seq<IssueRow>, b: string)
    requires LedgerConsistent(books, issues) && b in books && OpenRows(issues, b) == []
    ensures LedgerConsistent(books - {b}, DropBook(issues, b))
  {
    var dropped := DropBook(issues, b);
    forall i | 0 <= i < |dropped| ensures dropped[i].bookID in books - {b} {
      FilterMembership(issues, (r: IssueRow) => r.bookID != b, dropped[i]);
    }
    forall c | c in books - {b} {
      OpenRowsDrop(issues, b, c);
    }
  }

  /** Editing title, author or genre leaves the status and so the invariant alone. */
  lemma UpdateBookKeepsLedger(books: map<string, BookRow>, issues: seq<IssueRow>, b: string, row: BookRow)
    requires LedgerConsistent(books, issues) && b in books && row.status == books[b].status
    ensures LedgerConsistent(books[b := row], issues)
  {
  }

  /** A return sent without a date writes NULL over NULL: the row stays open while the book
      becomes 'Available', and the invariant is lost. */
  lemma ReturnWithoutDateBreaksLedger()
    ensures var books := map["B1" := BookRow("Dune", "Herbert", None, "Issued")];
            var issues := [IssueRow("P1", "B1", Some(Date(2024, 3, 1)), None)];
            LedgerConsistent(books, issues) &&
            CloseOpen(issues, "B1", None) == issues &&
            !LedgerConsistent(books["B1" := books["B1"].(status := "Available")], CloseOpen(issues, "B1", None))
  {
    var issues := [IssueRow("P1", "B1", Some(Date(2024, 3, 1)), None)];
    var keep := (r: IssueRow) => IsOpenFor(r, "B1");
    assert issues[1..] == [];
    assert OpenRows(issues, "B1") == [issues[0]];
  }

  /** Issue date order of `ORDER BY issue_date DESC`: Oracle puts NULL first in a
      descending sort, so a row without a date ranks above every dated row. */
  predicate IssuedNoEarlier(x: IssueRow, y: IssueRow) {
    x.issueDate.None? || (y.issueDate.Some? && !DateBefore(x.issueDate.value, y.issueDate.value))
  }

  /** The issue details `GET /api/library/books` attaches to book `b`: its latest issue row
      (`ORDER BY issue_date DESC FETCH FIRST 1 ROW ONLY`). Among rows with the same date the
      first in ledger order is taken. */
  function LatestIssue(issues: seq<IssueRow>, b: string): (r: Option<IssueRow>)
    ensures r.None? <==> forall i | 0 <= i < |issues| :: issues[i].bookID != b
    ensures r.Some? ==> r.value in issues && r.value.bookID == b
    ensures r.Some? ==> forall i | 0 <= i < |issues| && issues[i].bookID == b :: IssuedNoEarlier(r.value, issues[i])
  {
    if issues == [] then None
    else
      var rest := LatestIssue(issues[1..], b);
      if issues[0].bookID != b then
        rest
      else if rest.None? || IssuedNoEarlier(issues[0], rest.value) then
        IssuedNoEarlierTransitive(issues[0], rest, issues[1..], b);
        Some(issues[0])
      else
        IssuedNoEarlierTotal(issues[0], rest.value);
        rest
  }

  lemma IssuedNoEarlierTotal(x: IssueRow, y: IssueRow)
    requires !IssuedNoEarlier(x, y)
    ensures IssuedNoEarlier(y, x)
  {
  }

  lemma IssuedNoEarlierTransitive(x: IssueRow, best: Option<IssueRow>, rest: seq<IssueRow>, b: string)
    requires best.None? ==> forall i | 0 <= i < |rest| :: rest[i].bookID != b
    requires best.Some? ==> (IssuedNoEarlier(x, best.value) &&
               forall i | 0 <= i < |rest| && rest[i].bookID == b :: IssuedNoEarlier(best.value, rest[i]))
    ensures forall i | 0 <= i < |rest| && rest[i].bookID == b :: IssuedNoEarlier(x, rest[i])
  {
  }

  /** For an 'Available' book of a consistent ledger, the latest issue row, if any, carries a
      return date: the library page then shows it as returned. */
  lemma AvailableLatestIsReturned(books: map<string, BookRow>, issues: seq<IssueRow>, b: string)
    requires LedgerConsistent(books, issues) && b in books && books[b].status != "Issued"
    requires LatestIssue(issues, b).Some?
    ensures LatestIssue(issues, b).value.returnDate.Some?
  {
    IssuedIffOpenRow(books, issues, b);
  }

  // ---------------------------------------------------------------------------------
  // Work assignments (`Prison_Labor` and its specialization tables)

  /** The specialization tables: `Cleaning_Labor` (with its area), `Mess_Labor` and
      `Librarian`. */
  datatype Crews = Crews(cleaning: map<string, string>, mess: set<string>, librarians: set<string>)

  /** Every specialization row agrees with the prisoner's department: Cleaning_Labor rows
      belong to Cleaning workers (a Cleaning worker may have no area), and the Kitchen and
      Library workers are exactly the Mess_Labor and Librarian rows. */
  ghost predicate SpecializationsMatch(labor: map<string, string>, crews: Crews) {
    (forall p | p in crews.cleaning :: p in labor && labor[p] == "Cleaning") &&
    (forall p :: p in crews.mess <==> p in labor && labor[p] == "Kitchen") &&
    (forall p :: p in crews.librarians <==> p in labor && labor[p] == "Library")
  }

  /** Deleting prisoner `p`'s row from the specialization table of department `dept`. */
  function Leave(crews: Crews, p: string, dept: string): (r: Crews)
    ensures p !in r.cleaning || dept != "Cleaning"
    ensures p !in r.mess || dept != "Kitchen"
    ensures p !in r.librarians || dept != "Library"
  {
    match dept
    case "Cleaning" => crews.(cleaning := crews.cleaning - {p})
    case "Kitchen" => crews.(mess := crews.mess - {p})
    case "Library" => crews.(librarians := crews.librarians - {p})
    case _ => crews
  }

  /** Inserting prisoner `p`'s row into the specialization table of department `dept`. */
  function Join(crews: Crews, p: string, dept: string, area: string): (r: Crews)
    ensures dept == "Cleaning" ==> p in r.cleaning && r.cleaning[p] == area
    ensures dept == "Kitchen" ==> p in r.mess
    ensures dept == "Library" ==> p in r.librarians
    ensures dept !in {"Cleaning", "Kitchen", "Library"} ==> r == crews
  {
    match dept
    case "Cleaning" => crews.(cleaning := crews.cleaning[p := area])
    case "Kitchen" => crews.(mess := crews.mess + {p})
    case "Library" => crews.(librarians := crews.librarians + {p})
    case _ => crews
  }

  /** The specialization rows `POST /api/work-assignments` inserts: a Cleaning_Labor row
      only when an area is given. */
  function JoinOnCreate(crews: Crews, p: string, dept: string, area: string): Crews {
    if dept == "Cleaning" && area == "" then crews else Join(crews, p, dept, area)
  }

  /** The specialization rows after `PUT /api/work-assignments/:id` moves `p` from `prev`
      to `dept`: on a change, the old row goes and the new one comes (a Cleaning area
      defaults to 'Not specified'); staying in Cleaning with an area upserts the area. */
  function Reassign(crews: Crews, p: string, prev: string, dept: string, area: string): Crews {
    if prev != dept then Join(Leave(crews, p, prev), p, dept, if area == "" then "Not specified" else area)
    else if dept == "Cleaning" && area != "" then crews.(cleaning := crews.cleaning[p := area])
    else crews
  }

  lemma CreateAssignmentKeepsMatch(labor: map<string, string>, crews: Crews, p: string, dept: string, area: string)
    requires SpecializationsMatch(labor, crews) && p !in labor
    ensures SpecializationsMatch(labor[p := dept], JoinOnCreate(crews, p, dept, area))
  {
    if dept == "Cleaning" && area == "" {
      assert p !in crews.mess && p !in crews.librarians;
    } else {
      JoinKeepsMatch(labor, crews, p, dept, area);
    }
  }

  /** A prisoner without a work assignment can be given one together with its row. */
  lemma JoinKeepsMatch(labor: map<string, string>, crews: Crews, p: string, dept: string, area: string)
    requires SpecializationsMatch(labor, crews) && p !in labor
    ensures SpecializationsMatch(labor[p := dept], Join(crews, p, dept, area))
  {
    assert p !in crews.mess && p !in crews.librarians && p !in crews.cleaning;
  }

  lemma UpdateAssignmentKeepsMatch(labor: map<string, string>, crews: Crews, p: string, dept: string, area: string)
    requires SpecializationsMatch(labor, crews) && p in labor
    ensures SpecializationsMatch(labor[p := dept], Reassign(crews, p, labor[p], dept, area))
  {
    var prev := labor[p];
    if prev != dept {
      DeleteAssignmentKeepsMatch(labor, crews, p);
      JoinKeepsMatch(labor - {p}, Leave(crews, p, prev), p, dept, if area == "" then "Not specified" else area);
      assert (labor - {p})[p := dept] == labor[p := dept];
    } else {
      assert labor[p := dept] == labor;
    }
  }

  lemma DeleteAssignmentKeepsMatch(labor: map<string, string>, crews: Crews, p: string)
    requires SpecializationsMatch(labor, crews) && p in labor
    ensures SpecializationsMatch(labor - {p}, Leave(crews, p, labor[p]))
  {
    var left := Leave(crews, p, labor[p]);
    assert p !in left.mess && p !in left.librarians && p !in left.cleaning;
  }

  /** `GET /api/prisoners/available-for-work`: prisoners without a Prison_Labor row. */
  function AvailableForWork(prisoners: map<string, PrisonerRow>, labor: map<string, string>): (r: set<string>)
    ensures forall p :: p in r <==> p in prisoners && p !in labor
  {
    set p | p in prisoners && p !in labor
  }

  /** Assigning work takes a prisoner off the available list; deleting the assignment puts
      them back. */
  lemma {:induction false} AssignmentAvailability(prisoners: map<string, PrisonerRow>, labor: map<string, string>, p: string, dept: string)
    requires p in prisoners && p !in labor
    ensures AvailableForWork(prisoners, labor[p := dept]) == AvailableForWork(prisoners, labor) - {p}
    ensures AvailableForWork(prisoners, labor[p := dept] - {p}) == AvailableForWork(prisoners, labor)
  {
    assert labor[p := dept] - {p} == labor;
  }
}
