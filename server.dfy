/** The mutating routes of server.js as methods of one object that holds the tables. Each
    method is one request handled to completion: it runs the route's checks in the route's
    order, answers with the route's status and message, and changes the tables the route
    changes, and only those (the `modifies` clause names them). */
module Server {
  import opened Common
  import opened ServerRules

  /** The message prefix of a 500 reply caused by a failing SQL statement; the driver's
      own error text that follows it is not modelled. Oracle stores an empty string as
      NULL, so a create route that receives an empty ID finds no duplicate and then fails
      on the primary key's NOT NULL constraint with this reply. */
  const DbError := "Database Error"

  predicate DisciplinaryFor(m: map<string, DisciplinaryRow>, p: string) {
    exists k | k in m :: m[k].prisonerID == p
  }

  predicate VisitorsFor(m: map<string, VisitorRow>, p: string) {
    exists k | k in m :: m[k].prisonerID == p
  }

  predicate CallLogsFor(m: map<string, CallLogRow>, p: string) {
    exists k | k in m :: m[k].prisonerID == p
  }

  predicate CasesFor(m: map<string, CaseRow>, p: string) {
    exists k | k in m :: m[k].prisonerID == p
  }

  predicate CasesOfLawyer(m: map<string, CaseRow>, l: string) {
    exists k | k in m :: m[k].lawyerID == l
  }

  predicate IssuesFor(issues: seq<IssueRow>, p: string) {
    exists i | 0 <= i < |issues| :: issues[i].prisonerID == p
  }

  predicate HasOpenRow(issues: seq<IssueRow>, b: string) {
    exists i | 0 <= i < |issues| :: IsOpenFor(issues[i], b)
  }

  /** The outcome of `DELETE /api/prisoners/:id`, decided by its checks in their order:
      404 for an unknown prisoner; 400 while a disciplinary action, a visitor, a call log
      or (when the table exists) a case names the prisoner; 500 when the DELETE hits the
      foreign key from `Prison_Labor` or `book_issues`; otherwise the delete goes ahead. */
  function DeleteDecision(p: string, prisoners: map<string, PrisonerRow>,
                          disciplinary: map<string, DisciplinaryRow>, visitors: map<string, VisitorRow>,
                          callLogs: map<string, CallLogRow>, caseTableExists: bool,
                          cases: map<string, CaseRow>, labor: map<string, string>,
                          issues: seq<IssueRow>): (r: Reply)
    ensures p !in prisoners ==> r == Refused(404, "Prisoner not found")
    ensures p in prisoners && DisciplinaryFor(disciplinary, p) ==>
              r == Refused(400, "Cannot delete prisoner: Associated disciplinary actions exist")
    ensures p in prisoners && !DisciplinaryFor(disciplinary, p) && VisitorsFor(visitors, p) ==>
              r == Refused(400, "Cannot delete prisoner: Associated visitor records exist")
    ensures p in prisoners && !DisciplinaryFor(disciplinary, p) && !VisitorsFor(visitors, p) &&
            CallLogsFor(callLogs, p) ==>
              r == Refused(400, "Cannot delete prisoner: Associated call logs exist")
    ensures p in prisoners && !DisciplinaryFor(disciplinary, p) && !VisitorsFor(visitors, p) &&
            !CallLogsFor(callLogs, p) && caseTableExists && CasesFor(cases, p) ==>
              r == Refused(400, "Cannot delete prisoner: Associated case records exist")
    ensures p in prisoners && !DisciplinaryFor(disciplinary, p) && !VisitorsFor(visitors, p) &&
            !CallLogsFor(callLogs, p) && !(caseTableExists && CasesFor(cases, p)) &&
            (p in labor || IssuesFor(issues, p)) ==>
              r == Refused(500, DbError)
    ensures p in prisoners && !DisciplinaryFor(disciplinary, p) && !VisitorsFor(visitors, p) &&
            !CallLogsFor(callLogs, p) && !(caseTableExists && CasesFor(cases, p)) &&
            p !in labor && !IssuesFor(issues, p) ==>
              r == Done()
  {
    if p !in prisoners then Refused(404, "Prisoner not found")
    else if DisciplinaryFor(disciplinary, p) then
      Refused(400, "Cannot delete prisoner: Associated disciplinary actions exist")
    else if VisitorsFor(visitors, p) then
      Refused(400, "Cannot delete prisoner: Associated visitor records exist")
    else if CallLogsFor(callLogs, p) then
      Refused(400, "Cannot delete prisoner: Associated call logs exist")
    else if caseTableExists && CasesFor(cases, p) then
      Refused(400, "Cannot delete prisoner: Associated case records exist")
    else if p in labor || IssuesFor(issues, p) then Refused(500, DbError)
    else Done()
  }

  class Database {
    var pms: map<string, Credential>
    var prisoners: map<string, PrisonerRow>
    var cells: map<string, CellRow>
    var disciplinary: map<string, DisciplinaryRow>
    var visitors: map<string, VisitorRow>
    var callLogs: map<string, CallLogRow>
    var cases: map<string, CaseRow>
    var lawyers: map<string, LawyerRow>
    var books: map<string, BookRow>
    var issues: seq<IssueRow>
    /** `Prison_Labor`: department by prisonerID. */
    var labor: map<string, string>
    var crews: Crews
    /** Whether the `"CASE"` table exists; the routes probe `user_tables` for it. */
    const caseTableExists: bool

    constructor (caseTableExists: bool, pms: map<string, Credential>, cells: map<string, CellRow>)
      ensures this.caseTableExists == caseTableExists && this.pms == pms && this.cells == cells
      ensures prisoners == map[] && disciplinary == map[] && visitors == map[] && callLogs == map[]
      ensures cases == map[] && lawyers == map[] && books == map[] && issues == []
      ensures labor == map[] && crews == Crews(map[], {}, {})
    {
      this.caseTableExists := caseTableExists;
      this.pms := pms;
      this.cells := cells;
      prisoners, disciplinary, visitors, callLogs := map[], map[], map[], map[];
      cases, lawyers, books, issues := map[], map[], map[], [];
      labor, crews := map[], Crews(map[], {}, {});
    }

    // -------------------------------------------------------------------------------
    // Employees and passwords

    /** `POST /api/admin/employees` */
    method AddEmployee(username: string, password: string, kind: string) returns (r: Reply)
      modifies this`pms
      ensures username == "" || password == "" || kind == "" ==>
                r == Refused(400, "All fields are required") && pms == old(pms)
      ensures username != "" && password != "" && kind != "" && username in old(pms) ==>
                r == Refused(400, "Username already exists") && pms == old(pms)
      ensures username != "" && password != "" && kind != "" && username !in old(pms) ==>
                r == Reply(201, true, "Employee added successfully") &&
                pms == old(pms)[username := Credential(password, kind)]
    {
      if username == "" || password == "" || kind == "" {
        return Refused(400, "All fields are required");
      }
      if username in pms {
        return Refused(400, "Username already exists");
      }
      pms := pms[username := Credential(password, kind)];
      r := Reply(201, true, "Employee added successfully");
    }

    /** `POST /api/profile/change-password`: success iff some row has this username, and
        only that row's password changes. */
    method ChangePassword(employeeId: string, newPassword: string) returns (r: Reply)
      modifies this`pms
      ensures r.success <==> employeeId in old(pms)
      ensures employeeId in old(pms) ==>
                r == Reply(200, true, "Password updated successfully") &&
                pms == old(pms)[employeeId := old(pms)[employeeId].(password := newPassword)]
      ensures employeeId !in old(pms) ==>
                r == Reply(200, false, "User not found or no changes made") && pms == old(pms)
    {
      if employeeId in pms {
        pms := pms[employeeId := pms[employeeId].(password := newPassword)];
        r := Reply(200, true, "Password updated successfully");
      } else {
        r := Reply(200, false, "User not found or no changes made");
      }
    }

    // -------------------------------------------------------------------------------
    // Cases and lawyers

    /** `POST /api/cases`: a falsy sentence (absent or 0) is stored as NULL. */
    method CreateCase(caseID: string, prisonerID: string, lawyerID: string, status: string,
                      sentence: Option<int>) returns (r: Reply)
      modifies this`cases
      ensures !caseTableExists ==> r == Refused(500, DbError) && cases == old(cases)
      ensures caseTableExists && caseID == "" ==> r == Refused(500, DbError) && cases == old(cases)
      ensures caseTableExists && caseID != "" && caseID in old(cases) ==>
                r == Refused(400, "Case ID already exists") && cases == old(cases)
      ensures caseTableExists && caseID != "" && caseID !in old(cases) ==>
                r == Done() &&
                cases == old(cases)[caseID := CaseRow(prisonerID, lawyerID, status,
                                                      if sentence == Some(0) then None else sentence)]
    {
      if !caseTableExists {
        return Refused(500, DbError);
      }
      if caseID == "" {
        return Refused(500, DbError);
      }
      if caseID in cases {
        return Refused(400, "Case ID already exists");
      }
      var stored := if sentence == Some(0) then None else sentence;
      cases := cases[caseID := CaseRow(prisonerID, lawyerID, status, stored)];
      r := Done();
    }

    /** `DELETE /api/cases/:id` */
    method DeleteCase(caseID: string) returns (r: Reply)
      modifies this`cases
      ensures !caseTableExists ==> r == Refused(500, DbError) && cases == old(cases)
      ensures caseTableExists && caseID !in old(cases) ==>
                r == Refused(404, "Case not found") && cases == old(cases)
      ensures caseTableExists && caseID in old(cases) ==> r == Done() && cases == old(cases) - {caseID}
    {
      if !caseTableExists {
        return Refused(500, DbError);
      }
      if caseID !in cases {
        return Refused(404, "Case not found");
      }
      cases := cases - {caseID};
      r := Done();
    }

    /** `POST /api/lawyers` */
    method CreateLawyer(lawyerID: string, name: string, contactNo: string) returns (r: Reply)
      modifies this`lawyers
      ensures lawyerID == "" ==> r == Refused(500, DbError) && lawyers == old(lawyers)
      ensures lawyerID != "" && lawyerID in old(lawyers) ==>
                r == Refused(400, "Lawyer ID already exists") && lawyers == old(lawyers)
      ensures lawyerID != "" && lawyerID !in old(lawyers) ==>
                r == Done() && lawyers == old(lawyers)[lawyerID := LawyerRow(name, contactNo)]
    {
      if lawyerID == "" {
        return Refused(500, DbError);
      }
      if lawyerID in lawyers {
        return Refused(400, "Lawyer ID already exists");
      }
      lawyers := lawyers[lawyerID := LawyerRow(name, contactNo)];
      r := Done();
    }

    /** `PUT /api/lawyers/:id` */
    method UpdateLawyer(lawyerID: string, name: string, contactNo: string) returns (r: Reply)
      modifies this`lawyers
      ensures lawyerID !in old(lawyers) ==> r == Refused(404, "Lawyer not found") && lawyers == old(lawyers)
      ensures lawyerID in old(lawyers) ==>
                r == Done() && lawyers == old(lawyers)[lawyerID := LawyerRow(name, contactNo)]
    {
      if lawyerID !in lawyers {
        return Refused(404, "Lawyer not found");
      }
      lawyers := lawyers[lawyerID := LawyerRow(name, contactNo)];
      r := Done();
    }

    /** `DELETE /api/lawyers/:id`: refused while any case names the lawyer. */
    method DeleteLawyer(lawyerID: string) returns (r: Reply)
      modifies this`lawyers
      ensures lawyerID !in old(lawyers) ==> r == Refused(404, "Lawyer not found") && lawyers == old(lawyers)
      ensures lawyerID in old(lawyers) && !caseTableExists ==> r == Refused(500, DbError) && lawyers == old(lawyers)
      ensures lawyerID in old(lawyers) && caseTableExists && CasesOfLawyer(cases, lawyerID) ==>
                r == Refused(400, "Cannot delete lawyer: Lawyer is associated with active cases") &&
                lawyers == old(lawyers)
      ensures lawyerID in old(lawyers) && caseTableExists && !CasesOfLawyer(cases, lawyerID) ==>
                r == Done() && lawyers == old(lawyers) - {lawyerID}
    {
      if lawyerID !in lawyers {
        return Refused(404, "Lawyer not found");
      }
      if !caseTableExists {
        return Refused(500, DbError);
      }
      if CasesOfLawyer(cases, lawyerID) {
        return Refused(400, "Cannot delete lawyer: Lawyer is associated with active cases");
      }
      lawyers := lawyers - {lawyerID};
      r := Done();
    }

    // -------------------------------------------------------------------------------
    // Call logs, disciplinary actions and visitors

    /** `POST /api/call-logs` */
    method CreateCallLog(callLogID: string, row: CallLogRow) returns (r: Reply)
      modifies this`callLogs
      ensures callLogID == "" ==> r == Refused(500, DbError) && callLogs == old(callLogs)
      ensures callLogID != "" && callLogID in old(callLogs) ==>
                r == Refused(400, "Call Log ID already exists") && callLogs == old(callLogs)
      ensures callLogID != "" && callLogID !in old(callLogs) ==> r == Done() && callLogs == old(callLogs)[callLogID := row]
    {
      if callLogID == "" {
        return Refused(500, DbError);
      }
      if callLogID in callLogs {
        return Refused(400, "Call Log ID already exists");
      }
      callLogs := callLogs[callLogID := row];
      r := Done();
    }

    /** `PUT /api/call-logs/:id`: every column but the prisoner is replaced. */
    method UpdateCallLog(callLogID: string, receiverName: string, receiverRelation: string,
                         duration: string, callDate: string) returns (r: Reply)
      modifies this`callLogs
      ensures callLogID !in old(callLogs) ==>
                r == Refused(404, "Call log not found") && callLogs == old(callLogs)
      ensures callLogID in old(callLogs) ==>
                r == Done() &&
                callLogs == old(callLogs)[callLogID := CallLogRow(old(callLogs)[callLogID].prisonerID,
                                                                  receiverName, receiverRelation, duration, callDate)]
    {
      if callLogID !in callLogs {
        return Refused(404, "Call log not found");
      }
      var prisonerID := callLogs[callLogID].prisonerID;
      callLogs := callLogs[callLogID := CallLogRow(prisonerID, receiverName, receiverRelation, duration, callDate)];
      r := Done();
    }

    /** `DELETE /api/call-logs/:id` */
    method DeleteCallLog(callLogID: string) returns (r: Reply)
      modifies this`callLogs
      ensures callLogID !in old(callLogs) ==>
                r == Refused(404, "Call log not found") && callLogs == old(callLogs)
      ensures callLogID in old(callLogs) ==> r == Done() && callLogs == old(callLogs) - {callLogID}
    {
      if callLogID !in callLogs {
        return Refused(404, "Call log not found");
      }
      callLogs := callLogs - {callLogID};
      r := Done();
    }

    /** `POST /api/disciplinary` */
    method CreateDisciplinary(actionID: string, row: DisciplinaryRow) returns (r: Reply)
      modifies this`disciplinary
      ensures actionID == "" ==> r == Refused(500, DbError) && disciplinary == old(disciplinary)
      ensures actionID != "" && actionID in old(disciplinary) ==>
                r == Refused(400, "Disciplinary Action ID already exists") && disciplinary == old(disciplinary)
      ensures actionID != "" && actionID !in old(disciplinary) ==>
                r == Done() && disciplinary == old(disciplinary)[actionID := row]
    {
      if actionID == "" {
        return Refused(500, DbError);
      }
      if actionID in disciplinary {
        return Refused(400, "Disciplinary Action ID already exists");
      }
      disciplinary := disciplinary[actionID := row];
      r := Done();
    }

    /** `PUT /api/disciplinary/:id`: date and reason are replaced, the prisoner is kept. */
    method UpdateDisciplinary(actionID: string, actionDate: string, reason: string) returns (r: Reply)
      modifies this`disciplinary
      ensures actionID !in old(disciplinary) ==>
                r == Refused(404, "Disciplinary action not found") && disciplinary == old(disciplinary)
      ensures actionID in old(disciplinary) ==>
                r == Done() &&
                disciplinary == old(disciplinary)[actionID := DisciplinaryRow(old(disciplinary)[actionID].prisonerID,
                                                                             actionDate, reason)]
    {
      if actionID !in disciplinary {
        return Refused(404, "Disciplinary action not found");
      }
      var prisonerID := disciplinary[actionID].prisonerID;
      disciplinary := disciplinary[actionID := DisciplinaryRow(prisonerID, actionDate, reason)];
      r := Done();
    }

    /** `DELETE /api/disciplinary/:id` */
    method DeleteDisciplinary(actionID: string) returns (r: Reply)
      modifies this`disciplinary
      ensures actionID !in old(disciplinary) ==>
                r == Refused(404, "Disciplinary action not found") && disciplinary == old(disciplinary)
      ensures actionID in old(disciplinary) ==> r == Done() && disciplinary == old(disciplinary) - {actionID}
    {
      if actionID !in disciplinary {
        return Refused(404, "Disciplinary action not found");
      }
      disciplinary := disciplinary - {actionID};
      r := Done();
    }

    /** `POST /api/visitors`: a missing visit time is stored as 'Not specified'. */
    method CreateVisitor(visitorID: string, name: string, prisonerID: string, relation: string,
                         visitDate: string, visitTime: string) returns (r: Reply)
      modifies this`visitors
      ensures visitorID == "" ==> r == Refused(500, DbError) && visitors == old(visitors)
      ensures visitorID != "" && visitorID in old(visitors) ==>
                r == Refused(400, "Visitor ID already exists") && visitors == old(visitors)
      ensures visitorID != "" && visitorID !in old(visitors) ==>
                r == Done() &&
                visitors == old(visitors)[visitorID := VisitorRow(name, prisonerID, relation, visitDate,
                                                                  Some(if visitTime == "" then "Not specified" else visitTime))]
    {
      if visitorID == "" {
        return Refused(500, DbError);
      }
      if visitorID in visitors {
        return Refused(400, "Visitor ID already exists");
      }
      var time := if visitTime == "" then "Not specified" else visitTime;
      visitors := visitors[visitorID := VisitorRow(name, prisonerID, relation, visitDate, Some(time))];
      r := Done();
    }

    /** `PUT /api/visitors/:id`: unlike creation, a missing visit time is stored as NULL. */
    method UpdateVisitor(visitorID: string, name: string, relation: string, visitDate: string,
                         visitTime: string) returns (r: Reply)
      modifies this`visitors
      ensures visitorID !in old(visitors) ==>
                r == Refused(404, "Visitor not found") && visitors == old(visitors)
      ensures visitorID in old(visitors) ==>
                r == Done() &&
                visitors == old(visitors)[visitorID := VisitorRow(name, old(visitors)[visitorID].prisonerID,
                                                                  relation, visitDate, NullIfEmpty(visitTime))]
    {
      if visitorID !in visitors {
        return Refused(404, "Visitor not found");
      }
      var prisonerID := visitors[visitorID].prisonerID;
      visitors := visitors[visitorID := VisitorRow(name, prisonerID, relation, visitDate, NullIfEmpty(visitTime))];
      r := Done();
    }

    /** `DELETE /api/visitors/:id` */
    method DeleteVisitor(visitorID: string) returns (r: Reply)
      modifies this`visitors
      ensures visitorID !in old(visitors) ==>
                r == Refused(404, "Visitor not found") && visitors == old(visitors)
      ensures visitorID in old(visitors) ==> r == Done() && visitors == old(visitors) - {visitorID}
    {
      if visitorID !in visitors {
        return Refused(404, "Visitor not found");
      }
      visitors := visitors - {visitorID};
      r := Done();
    }

    // -------------------------------------------------------------------------------
    // Prisoners and cells

    /** `POST /api/prisoners`: validates, then inserts the Prisoner row only. A duplicate
        prisonerID is caught by the primary key, not by the route. */
    method CreatePrisoner(req: NewPrisoner) returns (r: Reply)
      modifies this`prisoners
      ensures NewPrisonerError(req).Some? ==>
                r == Refused(400, NewPrisonerError(req).value) && prisoners == old(prisoners)
      ensures NewPrisonerError(req).None? && req.prisonerID in old(prisoners) ==>
                r == Refused(500, "Error adding prisoner") && prisoners == old(prisoners)
      ensures NewPrisonerError(req).None? && req.prisonerID !in old(prisoners) ==>
                r == Reply(201, true, "Prisoner added successfully") &&
                prisoners == old(prisoners)[req.prisonerID := NewPrisonerRow(req)]
    {
      var error := NewPrisonerError(req);
      if error.Some? {
        return Refused(400, error.value);
      }
      if req.prisonerID in prisoners {
        return Refused(500, "Error adding prisoner");
      }
      prisoners := prisoners[req.prisonerID := NewPrisonerRow(req)];
      r := Reply(201, true, "Prisoner added successfully");
    }

    /** `PUT /api/prisoners/:id`: refuses a move into a cell held by someone else, then
        rewrites the row and, when the cell changed, frees the old cell and occupies the
        new one. */
    method UpdatePrisoner(prisonerID: string, name: string, age: int, gender: string, crime: string,
                          imprisonedOn: string, totalSentence: string, cellID: string) returns (r: Reply)
      modifies this`prisoners, this`cells
      ensures prisonerID !in old(prisoners) ==>
                r == Refused(404, "Prisoner not found") && prisoners == old(prisoners) && cells == old(cells)
      ensures prisonerID in old(prisoners) &&
              CellBlocked(old(cells), prisonerID, old(prisoners)[prisonerID].cellID, NullIfEmpty(cellID)) ==>
                r == Refused(400, "Cell is already occupied by another prisoner") &&
                prisoners == old(prisoners) && cells == old(cells)
      ensures prisonerID in old(prisoners) &&
              !CellBlocked(old(cells), prisonerID, old(prisoners)[prisonerID].cellID, NullIfEmpty(cellID)) ==>
                r == Done() &&
                prisoners == old(prisoners)[prisonerID := PrisonerRow(name, age, gender, crime, imprisonedOn,
                                                                      NullIfEmpty(totalSentence), NullIfEmpty(cellID))] &&
                cells == MoveCells(old(cells), prisonerID, old(prisoners)[prisonerID].cellID, NullIfEmpty(cellID))
      ensures old(CellsConsistent(prisoners, cells)) ==> CellsConsistent(prisoners, cells)
    {
      if prisonerID !in prisoners {
        return Refused(404, "Prisoner not found");
      }
      var oldCell := prisoners[prisonerID].cellID;
      var newCell := NullIfEmpty(cellID);
      if CellBlocked(cells, prisonerID, oldCell, newCell) {
        return Refused(400, "Cell is already occupied by another prisoner");
      }
      var row := PrisonerRow(name, age, gender, crime, imprisonedOn, NullIfEmpty(totalSentence), newCell);
      if CellsConsistent(prisoners, cells) {
        MoveKeepsCellsConsistent(prisoners, cells, prisonerID, row);
      }
      prisoners := prisoners[prisonerID := row];
      if oldCell != newCell {
        if oldCell.Some? {
          cells := FreeCell(cells, oldCell.value);
        }
        if newCell.Some? {
          cells := OccupyCell(cells, newCell.value, prisonerID);
        }
      }
      r := Done();
    }

    /** `DELETE /api/prisoners/:id`: refused while disciplinary actions, visitors, call logs
        or (when the table exists) cases name the prisoner, checked in that order; a
        Prison_Labor or book_issues row still naming them makes the DELETE itself fail. */
    method DeletePrisoner(prisonerID: string) returns (r: Reply)
      modifies this`prisoners, this`cells
      ensures r == DeleteDecision(prisonerID, old(prisoners), disciplinary, visitors, callLogs,
                                  caseTableExists, cases, labor, issues)
      ensures r.success ==>
                prisoners == old(prisoners) - {prisonerID} &&
                cells == (var from := old(prisoners)[prisonerID].cellID;
                          if from.Some? then FreeCell(old(cells), from.value) else old(cells))
      ensures !r.success ==> prisoners == old(prisoners) && cells == old(cells)
      ensures old(CellsConsistent(prisoners, cells)) ==> CellsConsistent(prisoners, cells)
    {
      r := DeleteDecision(prisonerID, prisoners, disciplinary, visitors, callLogs,
                          caseTableExists, cases, labor, issues);
      if r.success {
        Release(prisonerID);
      }
    }


    /** The two statements of a permitted prisoner delete: the Prisoner row goes, then the
        cell it named is freed. */
    method Release(prisonerID: string)
      requires prisonerID in prisoners
      modifies this`prisoners, this`cells
      ensures prisoners == old(prisoners) - {prisonerID}
      ensures cells == (var from := old(prisoners)[prisonerID].cellID;
                        if from.Some? then FreeCell(old(cells), from.value) else old(cells))
      ensures old(CellsConsistent(prisoners, cells)) ==> CellsConsistent(prisoners, cells)
    {
      var cellID := prisoners[prisonerID].cellID;
      if CellsConsistent(prisoners, cells) {
        ReleaseKeepsCellsConsistent(prisoners, cells, prisonerID);
      }
      prisoners := prisoners - {prisonerID};
      if cellID.Some? {
        cells := FreeCell(cells, cellID.value);
      }
    }

    // -------------------------------------------------------------------------------
    // Work assignments

    /** `POST /api/work-assignments` */
    method CreateWorkAssignment(prisonerID: string, department: string, area: string) returns (r: Reply)
      modifies this`labor, this`crews
      ensures prisonerID !in prisoners ==>
                r == Refused(404, "Prisoner not found") && labor == old(labor) && crews == old(crews)
      ensures prisonerID in prisoners && prisonerID in old(labor) ==>
                r == Refused(400, "Prisoner already has a work assignment") &&
                labor == old(labor) && crews == old(crews)
      ensures prisonerID in prisoners && prisonerID !in old(labor) ==>
                r == Done() && labor == old(labor)[prisonerID := department] &&
                crews == JoinOnCreate(old(crews), prisonerID, department, area)
      ensures old(SpecializationsMatch(labor, crews)) ==> SpecializationsMatch(labor, crews)
    {
      if prisonerID !in prisoners {
        return Refused(404, "Prisoner not found");
      }
      if prisonerID in labor {
        return Refused(400, "Prisoner already has a work assignment");
      }
      if SpecializationsMatch(labor, crews) {
        CreateAssignmentKeepsMatch(labor, crews, prisonerID, department, area);
      }
      labor := labor[prisonerID := department];
      if department == "Cleaning" && area != "" {
        crews := crews.(cleaning := crews.cleaning[prisonerID := area]);
      }
      if department == "Kitchen" {
        crews := crews.(mess := crews.mess + {prisonerID});
      }
      if department == "Library" {
        crews := crews.(librarians := crews.librarians + {prisonerID});
      }
      r := Done();
    }

    /** `PUT /api/work-assignments/:id`: on a department change the old specialization row
        is deleted and the new one inserted. */
    method UpdateWorkAssignment(prisonerID: string, department: string, area: string) returns (r: Reply)
      modifies this`labor, this`crews
      ensures prisonerID !in old(labor) ==>
                r == Refused(404, "Work assignment not found") && labor == old(labor) && crews == old(crews)
      ensures prisonerID in old(labor) ==>
                r == Done() && labor == old(labor)[prisonerID := department] &&
                crews == Reassign(old(crews), prisonerID, old(labor)[prisonerID], department, area)
      ensures old(SpecializationsMatch(labor, crews)) ==> SpecializationsMatch(labor, crews)
    {
      if prisonerID !in labor {
        return Refused(404, "Work assignment not found");
      }
      var oldDepartment := labor[prisonerID];
      if SpecializationsMatch(labor, crews) {
        UpdateAssignmentKeepsMatch(labor, crews, prisonerID, department, area);
      }
      labor := labor[prisonerID := department];
      if oldDepartment != department {
        LeaveCrew(prisonerID, oldDepartment);
        JoinCrew(prisonerID, department, if area == "" then "Not specified" else area);
      } else if department == "Cleaning" && area != "" {
        crews := crews.(cleaning := crews.cleaning[prisonerID := area]);
      }
      r := Done();
    }

    /** Deleting the prisoner's row from the specialization table of `department`. */
    method LeaveCrew(prisonerID: string, department: string)
      modifies this`crews
      ensures crews == Leave(old(crews), prisonerID, department)
    {
      if department == "Cleaning" {
        crews := crews.(cleaning := crews.cleaning - {prisonerID});
      } else if department == "Kitchen" {
        crews := crews.(mess := crews.mess - {prisonerID});
      } else if department == "Library" {
        crews := crews.(librarians := crews.librarians - {prisonerID});
      }
    }

    /** Inserting the prisoner's row into the specialization table of `department`. */
    method JoinCrew(prisonerID: string, department: string, area: string)
      modifies this`crews
      ensures crews == Join(old(crews), prisonerID, department, area)
    {
      if department == "Cleaning" {
        crews := crews.(cleaning := crews.cleaning[prisonerID := area]);
      } else if department == "Kitchen" {
        crews := crews.(mess := crews.mess + {prisonerID});
      } else if department == "Library" {
        crews := crews.(librarians := crews.librarians + {prisonerID});
      }
    }

    /** `DELETE /api/work-assignments/:id` */
    method DeleteWorkAssignment(prisonerID: string) returns (r: Reply)
      modifies this`labor, this`crews
      ensures prisonerID !in old(labor) ==>
                r == Refused(404, "Work assignment not found") && labor == old(labor) && crews == old(crews)
      ensures prisonerID in old(labor) ==>
                r == Done() && labor == old(labor) - {prisonerID} &&
                crews == Leave(old(crews), prisonerID, old(labor)[prisonerID])
      ensures old(SpecializationsMatch(labor, crews)) ==> SpecializationsMatch(labor, crews)
    {
      if prisonerID !in labor {
        return Refused(404, "Work assignment not found");
      }
      var department := labor[prisonerID];
      if SpecializationsMatch(labor, crews) {
        DeleteAssignmentKeepsMatch(labor, crews, prisonerID);
      }
      LeaveCrew(prisonerID, department);
      labor := labor - {prisonerID};
      r := Done();
    }

    // -------------------------------------------------------------------------------
    // Library

    /** `POST /api/library/books`: a new book starts 'Available'; an empty genre is NULL. */
    method CreateBook(bookID: string, title: string, author: string, genre: string) returns (r: Reply)
      modifies this`books
      ensures bookID == "" ==> r == Refused(500, DbError) && books == old(books)
      ensures bookID != "" && bookID in old(books) ==> r == Refused(400, "Book ID already exists") && books == old(books)
      ensures bookID != "" && bookID !in old(books) ==>
                r == Done() && books == old(books)[bookID := BookRow(title, author, NullIfEmpty(genre), "Available")]
      ensures old(LedgerConsistent(books, issues)) ==> LedgerConsistent(books, issues)
    {
      if bookID == "" {
        return Refused(500, DbError);
      }
      if bookID in books {
        return Refused(400, "Book ID already exists");
      }
      var row := BookRow(title, author, NullIfEmpty(genre), "Available");
      if LedgerConsistent(books, issues) {
        CreateBookKeepsLedger(books, issues, bookID, row);
      }
      books := books[bookID := row];
      r := Done();
    }

    /** `PUT /api/library/books/:id`: title, author and genre change, the status stays. */
    method UpdateBook(bookID: string, title: string, author: string, genre: string) returns (r: Reply)
      modifies this`books
      ensures bookID !in old(books) ==> r == Refused(404, "Book not found") && books == old(books)
      ensures bookID in old(books) ==>
                r == Done() &&
                books == old(books)[bookID := BookRow(title, author, NullIfEmpty(genre), old(books)[bookID].status)]
      ensures old(LedgerConsistent(books, issues)) ==> LedgerConsistent(books, issues)
    {
      if bookID !in books {
        return Refused(404, "Book not found");
      }
      var row := BookRow(title, author, NullIfEmpty(genre), books[bookID].status);
      if LedgerConsistent(books, issues) {
        UpdateBookKeepsLedger(books, issues, bookID, row);
      }
      books := books[bookID := row];
      r := Done();
    }

    /** `DELETE /api/library/books/:id`: refused while an issue row of the book is open;
        otherwise the book goes together with its whole issue history. */
    method DeleteBook(bookID: string) returns (r: Reply)
      modifies this`books, this`issues
      ensures bookID !in old(books) ==>
                r == Refused(404, "Book not found") && books == old(books) && issues == old(issues)
      ensures bookID in old(books) && HasOpenRow(old(issues), bookID) ==>
                r == Refused(400, "Cannot delete book: It is currently issued to a prisoner") &&
                books == old(books) && issues == old(issues)
      ensures bookID in old(books) && !HasOpenRow(old(issues), bookID) ==>
                r == Done() && books == old(books) - {bookID} && issues == DropBook(old(issues), bookID)
      ensures old(LedgerConsistent(books, issues)) ==> LedgerConsistent(books, issues)
    {
      if bookID !in books {
        return Refused(404, "Book not found");
      }
      if exists i | 0 <= i < |issues| :: issues[i].bookID == bookID {
        if HasOpenRow(issues, bookID) {
          return Refused(400, "Cannot delete book: It is currently issued to a prisoner");
        }
        NoOpenRowsFor(issues, bookID);
        if LedgerConsistent(books, issues) {
          DeleteBookKeepsLedger(books, issues, bookID);
        }
        issues := DropBook(issues, bookID);
      } else {
        FilterAll(issues, (x: IssueRow) => x.bookID != bookID);
        NoRowsNoOpenRows(issues, bookID);
        if LedgerConsistent(books, issues) {
          DeleteBookKeepsLedger(books, issues, bookID);
        }
      }
      books := books - {bookID};
      r := Done();
    }

    /** `POST /api/library/books/issue`: an available book and an existing prisoner give one
        new open issue row and the status 'Issued'. */
    method IssueBook(bookID: string, prisonerID: string, issueDate: Option<Date>) returns (r: Reply)
      modifies this`books, this`issues
      ensures bookID !in old(books) ==>
                r == Refused(404, "Book not found") && books == old(books) && issues == old(issues)
      ensures bookID in old(books) && old(books)[bookID].status != "Available" ==>
                r == Refused(400, "Book is not available for issue") && books == old(books) && issues == old(issues)
      ensures bookID in old(books) && old(books)[bookID].status == "Available" && prisonerID !in prisoners ==>
                r == Refused(404, "Prisoner not found") && books == old(books) && issues == old(issues)
      ensures bookID in old(books) && old(books)[bookID].status == "Available" && prisonerID in prisoners ==>
                r == Done() &&
                issues == old(issues) + [IssueRow(prisonerID, bookID, issueDate, None)] &&
                books == old(books)[bookID := old(books)[bookID].(status := "Issued")]
      ensures old(LedgerConsistent(books, issues)) ==> LedgerConsistent(books, issues)
    {
      if bookID !in books {
        return Refused(404, "Book not found");
      }
      if books[bookID].status != "Available" {
        return Refused(400, "Book is not available for issue");
      }
      if prisonerID !in prisoners {
        return Refused(404, "Prisoner not found");
      }
      var row := IssueRow(prisonerID, bookID, issueDate, None);
      if LedgerConsistent(books, issues) {
        IssueKeepsLedger(books, issues, bookID, row);
      }
      issues := issues + [row];
      books := books[bookID := books[bookID].(status := "Issued")];
      r := Done();
    }

    /** `POST /api/library/books/return`: an issued book gets the return date on every open
        row and the status 'Available'. The invariant is kept when a date is given. */
    method ReturnBook(bookID: string, returnDate: Option<Date>) returns (r: Reply)
      modifies this`books, this`issues
      ensures bookID !in old(books) ==>
                r == Refused(404, "Book not found") && books == old(books) && issues == old(issues)
      ensures bookID in old(books) && old(books)[bookID].status != "Issued" ==>
                r == Refused(400, "Book is not currently issued") && books == old(books) && issues == old(issues)
      ensures bookID in old(books) && old(books)[bookID].status == "Issued" ==>
                r == Done() &&
                issues == CloseOpen(old(issues), bookID, returnDate) &&
                books == old(books)[bookID := old(books)[bookID].(status := "Available")]
      ensures returnDate.Some? && old(LedgerConsistent(books, issues)) ==> LedgerConsistent(books, issues)
    {
      if bookID !in books {
        return Refused(404, "Book not found");
      }
      if books[bookID].status != "Issued" {
        return Refused(400, "Book is not currently issued");
      }
      if returnDate.Some? && LedgerConsistent(books, issues) {
        ReturnKeepsLedger(books, issues, bookID, returnDate.value);
      }
      issues := CloseOpen(issues, bookID, returnDate);
      books := books[bookID := books[bookID].(status := "Available")];
      r := Done();
    }
  }

  /** The delete guard and the ledger's open rows agree. */
  lemma {:induction false} NoOpenRowsFor(issues: seq<IssueRow>, b: string)
    requires !HasOpenRow(issues, b)
    ensures OpenRows(issues, b) == []
  {
    if issues != [] {
      assert !IsOpenFor(issues[0], b);
      forall i | 0 <= i < |issues[1..]| ensures !IsOpenFor(issues[1..][i], b) {
        assert issues[1..][i] == issues[i + 1];
      }
      NoOpenRowsFor(issues[1..], b);
    }
  }
}
