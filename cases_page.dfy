/** The computations of public/cases.js: the sentence and status shown on a case card, the
    search box and status select (each handler re-reads the other control), and the
    sentence sent by the add-case form. */
module CasesPage {
  import opened Common

  /** A case as `GET /api/cases` sends it, joined with prisoner and lawyer names. */
  datatype Case = Case(caseID: string, prisonerID: string, lawyerID: string,
                       prisonerName: Option<string>, lawyerName: Option<string>,
                       crime: Option<string>, status: string, sentence: Option<int>)

  /** The sentence cell of a card: "<n> years" for a truthy duration, 'TBD' for NULL and 0. */
  function SentenceText(sentence: Option<int>): (r: string)
    ensures r == "TBD" <==> sentence.None? || sentence.value == 0
    ensures r != "TBD" ==> ParseInt(r) == sentence
  {
    if sentence.None? || sentence.value == 0 then "TBD"
    else
      ParseIntOfIntToString(sentence.value, " years");
      IntToString(sentence.value) + " years"
  }

  /** The status badge: the first character upper-cased, the rest as stored. */
  function StatusLabel(status: string): (r: string)
    ensures |r| == |status|
    ensures status != "" ==> r[0] == UpperChar(status[0]) && r[1..] == status[1..]
    ensures Lower(r) == Lower(status)
  {
    var r := UpperFirst(status);
    assert Lower(r) == Lower(status) by {
      if status != "" {
        assert LowerChar(UpperChar(status[0])) == LowerChar(status[0]);
      }
    }
    r
  }

  /** The search predicate; `term` is already lower-cased. */
  predicate MatchesSearch(c: Case, term: string) {
    Contains(Lower(c.caseID), term) || Contains(Lower(c.prisonerID), term) ||
    Contains(Lower(c.lawyerID), term) ||
    (c.prisonerName.Some? && Contains(Lower(c.prisonerName.value), term)) ||
    (c.lawyerName.Some? && Contains(Lower(c.lawyerName.value), term)) ||
    (c.crime.Some? && Contains(Lower(c.crime.value), term))
  }

  /** The status select compares the lower-cased stored status with its value. */
  predicate MatchesStatus(c: Case, status: string) {
    Lower(c.status) == status
  }

  /** The two controls: the search box text and the status select value ('all' or a
      status). */
  datatype Controls = Controls(searchBox: string, status: string)

  predicate Selected(c: Case, ctl: Controls) {
    (ctl.status == "all" || MatchesStatus(c, ctl.status)) &&
    (Lower(ctl.searchBox) == "" || MatchesSearch(c, Lower(ctl.searchBox)))
  }

  /** `filterCasesBySearch`, called with the lower-cased box text: an empty term hands over
      to the status handler; otherwise the status filter (unless 'all') and then the search. */
  function FilterBySearch(all: seq<Case>, ctl: Controls): seq<Case>
    decreases if Lower(ctl.searchBox) == "" then 1 else 0
  {
    var term := Lower(ctl.searchBox);
    if term == "" then FilterByStatus(all, ctl)
    else
      var byStatus := if ctl.status != "all" then Filter(all, (c: Case) => MatchesStatus(c, ctl.status)) else all;
      Filter(byStatus, (c: Case) => MatchesSearch(c, term))
  }

  /** `filterCasesByStatus`: 'all' hands over to the search handler when the box is
      non-empty; otherwise the status filter and then the search, if any. */
  function FilterByStatus(all: seq<Case>, ctl: Controls): seq<Case>
    decreases if Lower(ctl.searchBox) == "" then 0 else 1
  {
    var term := Lower(ctl.searchBox);
    if ctl.status == "all" then
      if term != "" then FilterBySearch(all, ctl) else all
    else
      var byStatus := Filter(all, (c: Case) => MatchesStatus(c, ctl.status));
      if term != "" then Filter(byStatus, (c: Case) => MatchesSearch(c, term)) else byStatus
  }

  /** Whichever control changed, the list shows, in order, exactly the cases that pass both
      the status select and the search box. */
  lemma BothHandlersShowSelected(all: seq<Case>, ctl: Controls)
    ensures FilterBySearch(all, ctl) == Filter(all, (c: Case) => Selected(c, ctl))
    ensures FilterByStatus(all, ctl) == Filter(all, (c: Case) => Selected(c, ctl))
  {
    var term := Lower(ctl.searchBox);
    var statusOk := (c: Case) => ctl.status == "all" || MatchesStatus(c, ctl.status);
    var searchOk := (c: Case) => term == "" || MatchesSearch(c, term);
    var byStatus := if ctl.status != "all" then Filter(all, (c: Case) => MatchesStatus(c, ctl.status)) else all;
    assert byStatus == Filter(all, statusOk) by {
      if ctl.status != "all" {
        FilterSame(all, (c: Case) => MatchesStatus(c, ctl.status), statusOk);
      } else {
        FilterAll(all, statusOk);
      }
    }
    var both := if term != "" then Filter(byStatus, (c: Case) => MatchesSearch(c, term)) else byStatus;
    assert both == Filter(byStatus, searchOk) by {
      if term != "" {
        FilterSame(byStatus, (c: Case) => MatchesSearch(c, term), searchOk);
      } else {
        FilterAll(byStatus, searchOk);
      }
    }
    FilterFilter(all, statusOk, searchOk, (c: Case) => Selected(c, ctl));
    assert FilterBySearch(all, ctl) == both;
    assert FilterByStatus(all, ctl) == both;
  }

  /** The `sentence_duration` of a new case: `parseInt` of the field, NULL when the field is
      empty (a `NaN` is sent as JSON null too). */
  function NewCaseSentence(field: string): (r: Option<int>)
    ensures field == "" ==> r.None?
    ensures r.Some? ==> exists i :: 0 <= i < |field| && IsDigit(field[i])
  {
    if field == "" then None else ParseInt(field)
  }

  /** A whole number typed into the form comes back on the card as "<n> years", unless it
      is 0, which the server stores as NULL and the card shows as 'TBD'. */
  lemma SentenceFormToCard(n: int)
    ensures NewCaseSentence(IntToString(n)) == Some(n)
    ensures var stored := if n == 0 then None else Some(n);
            SentenceText(stored) == (if n == 0 then "TBD" else IntToString(n) + " years")
  {
    ParseIntOfIntToString(n, "");
    assert IntToString(n) + "" == IntToString(n);
  }
}
