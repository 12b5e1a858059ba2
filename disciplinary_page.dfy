/** The computations of public/disciplinary.js: the search box, the violation select and
    the date picker, each of which filters on its own when set and re-applies the other two
    when cleared, and the filter button that applies all three. */
module DisciplinaryPage {
  import opened Common

  /** A disciplinary action as the list route sends it; the date is already split into
      (year, month, day). */
  datatype Action = Action(actionID: string, prisonerID: string, prisonerName: Option<string>,
                           reason: string, cellID: Option<string>, actionDate: Date)

  /** The three controls: the lower-cased search text, the lower-cased violation select and
      the picked date. */
  datatype Controls = Controls(search: string, violation: string, date: Option<Date>)

  predicate MatchesSearch(a: Action, term: string) {
    Contains(Lower(a.actionID), term) || Contains(Lower(a.prisonerID), term) ||
    (a.prisonerName.Some? && Contains(Lower(a.prisonerName.value), term)) ||
    Contains(Lower(a.reason), term) ||
    (a.cellID.Some? && Contains(Lower(a.cellID.value), term))
  }

  /** The violation categories, each a list of key words looked up in the lower-cased
      reason; any other value keeps every action. */
  predicate MatchesViolation(a: Action, violation: string) {
    var reason := Lower(a.reason);
    match violation
    case "fighting" =>
      Contains(reason, "fight") || Contains(reason, "altercation") || Contains(reason, "assault")
    case "contraband" =>
      Contains(reason, "contraband") || Contains(reason, "unauthorized") ||
      Contains(reason, "illegal") || Contains(reason, "possession")
    case "disobedience" =>
      Contains(reason, "disobey") || Contains(reason, "insubordination") ||
      Contains(reason, "disrespect") || Contains(reason, "refusal")
    case _ => true
  }

  /** The date filter: same year, month and day. */
  predicate MatchesDate(a: Action, date: Date) {
    a.actionDate == date
  }

  /** The filter chain shared by `applyAllFilters` and the three `applyFiltersExcept*`
      functions: search, then violation, then date, each step taken when its control is
      used by the caller and set. */
  function Apply(all: seq<Action>, c: Controls, useSearch: bool, useViolation: bool, useDate: bool): seq<Action> {
    var s1 := if useSearch && c.search != "" then Filter(all, (a: Action) => MatchesSearch(a, c.search)) else all;
    var s2 := if useViolation && c.violation != "" then Filter(s1, (a: Action) => MatchesViolation(a, c.violation)) else s1;
    if useDate && c.date.Some? then Filter(s2, (a: Action) => MatchesDate(a, c.date.value)) else s2
  }

  function ApplyAll(all: seq<Action>, c: Controls): seq<Action> {
    Apply(all, c, true, true, true)
  }

  /** An action passes the search box when the box is not used or empty, or it matches. */
  predicate PassesSearch(a: Action, c: Controls, used: bool) {
    !used || c.search == "" || MatchesSearch(a, c.search)
  }

  predicate PassesViolation(a: Action, c: Controls, used: bool) {
    !used || c.violation == "" || MatchesViolation(a, c.violation)
  }

  predicate PassesDate(a: Action, c: Controls, used: bool) {
    !used || c.date.None? || MatchesDate(a, c.date.value)
  }

  /** An action passes every active control among those used. */
  predicate Selected(a: Action, c: Controls, useSearch: bool, useViolation: bool, useDate: bool) {
    PassesSearch(a, c, useSearch) && PassesViolation(a, c, useViolation) && PassesDate(a, c, useDate)
  }

  /** The chain keeps, in order, exactly the actions that pass every active control. */
  lemma ApplyIsConjunction(all: seq<Action>, c: Controls, useSearch: bool, useViolation: bool, useDate: bool)
    ensures Apply(all, c, useSearch, useViolation, useDate) ==
              Filter(all, (a: Action) => Selected(a, c, useSearch, useViolation, useDate))
  {
    var p1 := (a: Action) => PassesSearch(a, c, useSearch);
    var p2 := (a: Action) => PassesViolation(a, c, useViolation);
    var p3 := (a: Action) => PassesDate(a, c, useDate);
    assert Apply(all, c, useSearch, useViolation, useDate) == Filter(Filter(Filter(all, p1), p2), p3) by {
      var s1 := if useSearch && c.search != "" then Filter(all, (a: Action) => MatchesSearch(a, c.search)) else all;
      var s2 := if useViolation && c.violation != "" then Filter(s1, (a: Action) => MatchesViolation(a, c.violation)) else s1;
      SearchStage(all, c, useSearch);
      ViolationStage(s1, c, useViolation);
      DateStage(s2, c, useDate);
    }
    FilterThree(all, p1, p2, p3, (a: Action) => Selected(a, c, useSearch, useViolation, useDate));
  }

  lemma SearchStage(s: seq<Action>, c: Controls, used: bool)
    ensures (if used && c.search != "" then Filter(s, (a: Action) => MatchesSearch(a, c.search)) else s) ==
            Filter(s, (a: Action) => PassesSearch(a, c, used))
  {
    FilterWhen(s, used && c.search != "", (a: Action) => MatchesSearch(a, c.search), (a: Action) => PassesSearch(a, c, used));
  }

  lemma ViolationStage(s: seq<Action>, c: Controls, used: bool)
    ensures (if used && c.violation != "" then Filter(s, (a: Action) => MatchesViolation(a, c.violation)) else s) ==
            Filter(s, (a: Action) => PassesViolation(a, c, used))
  {
    FilterWhen(s, used && c.violation != "", (a: Action) => MatchesViolation(a, c.violation),
               (a: Action) => PassesViolation(a, c, used));
  }

  lemma DateStage(s: seq<Action>, c: Controls, used: bool)
    ensures (if used && c.date.Some? then Filter(s, (a: Action) => MatchesDate(a, c.date.value)) else s) ==
            Filter(s, (a: Action) => PassesDate(a, c, used))
  {
    if used && c.date.Some? {
      FilterWhen(s, true, (a: Action) => MatchesDate(a, c.date.value), (a: Action) => PassesDate(a, c, used));
    } else {
      FilterAll(s, (a: Action) => PassesDate(a, c, used));
    }
  }

  /** The filter button's result does not depend on the order of the three filters:
      applying date, then violation, then search gives the same list. */
  lemma ApplyAllOrderIndependent(all: seq<Action>, c: Controls)
    requires c.search != "" && c.violation != "" && c.date.Some?
    ensures ApplyAll(all, c) ==
              Filter(Filter(Filter(all, (a: Action) => MatchesDate(a, c.date.value)),
                            (a: Action) => MatchesViolation(a, c.violation)),
                     (a: Action) => MatchesSearch(a, c.search))
  {
    var ps := (a: Action) => MatchesSearch(a, c.search);
    var pv := (a: Action) => MatchesViolation(a, c.violation);
    var pd := (a: Action) => MatchesDate(a, c.date.value);
    // search, violation, date  ->  violation, search, date  ->  violation, date, search  ->  date, violation, search
    FilterCommute(all, ps, pv);
    FilterCommute(Filter(all, pv), ps, pd);
    FilterCommute(all, pv, pd);
  }

  /** Which control the user changed last. */
  datatype Event = SearchTyped | ViolationChanged | DateChanged | FilterClicked

  /** The list shown after an event: a control that is set filters on its own, a control
      that is cleared re-applies the other two, the button applies all three. */
  function Displayed(all: seq<Action>, c: Controls, e: Event): seq<Action> {
    match e
    case SearchTyped =>
      if c.search != "" then Filter(all, (a: Action) => MatchesSearch(a, c.search)) else Apply(all, c, false, true, true)
    case ViolationChanged =>
      if c.violation != "" then Filter(all, (a: Action) => MatchesViolation(a, c.violation)) else Apply(all, c, true, false, true)
    case DateChanged =>
      if c.date.Some? then Filter(all, (a: Action) => MatchesDate(a, c.date.value)) else Apply(all, c, true, true, false)
    case FilterClicked => ApplyAll(all, c)
  }

  /** Clearing a control shows what the filter button would show. */
  lemma ClearingReappliesOthers(all: seq<Action>, c: Controls, e: Event)
    requires e == SearchTyped ==> c.search == ""
    requires e == ViolationChanged ==> c.violation == ""
    requires e == DateChanged ==> c.date.None?
    ensures Displayed(all, c, e) == Filter(all, (a: Action) => Selected(a, c, true, true, true))
  {
    ApplyIsConjunction(all, c, true, true, true);
    match e
    case SearchTyped =>
      ApplyIsConjunction(all, c, false, true, true);
      FilterSame(all, (a: Action) => Selected(a, c, false, true, true), (a: Action) => Selected(a, c, true, true, true));
    case ViolationChanged =>
      ApplyIsConjunction(all, c, true, false, true);
      FilterSame(all, (a: Action) => Selected(a, c, true, false, true), (a: Action) => Selected(a, c, true, true, true));
    case DateChanged =>
      ApplyIsConjunction(all, c, true, true, false);
      FilterSame(all, (a: Action) => Selected(a, c, true, true, false), (a: Action) => Selected(a, c, true, true, true));
    case FilterClicked =>
  }

  /** Typing a search term ignores the violation and date selections. */
  lemma SearchIgnoresOtherControls(all: seq<Action>, c: Controls, violation: string, date: Option<Date>)
    requires c.search != ""
    ensures Displayed(all, c, SearchTyped) == Displayed(all, Controls(c.search, violation, date), SearchTyped)
    ensures forall a :: a in Displayed(all, c, SearchTyped) <==> a in all && MatchesSearch(a, c.search)
  {
    FilterMembershipAll(all, (a: Action) => MatchesSearch(a, c.search));
  }

  /** With every control set, the button shows a sub-list of what each control alone shows. */
  lemma ApplyAllNarrowsEachFilter(all: seq<Action>, c: Controls, a: Action)
    requires a in ApplyAll(all, c)
    ensures a in all
    ensures a in Displayed(all, c, SearchTyped) || c.search == ""
    ensures a in Displayed(all, c, ViolationChanged) || c.violation == ""
    ensures a in Displayed(all, c, DateChanged) || c.date.None?
  {
    ApplyIsConjunction(all, c, true, true, true);
    FilterMembership(all, (a: Action) => Selected(a, c, true, true, true), a);
    assert a in all && Selected(a, c, true, true, true);
    if c.search != "" {
      FilterMembership(all, (a: Action) => MatchesSearch(a, c.search), a);
    }
    if c.violation != "" {
      FilterMembership(all, (a: Action) => MatchesViolation(a, c.violation), a);
    }
    if c.date.Some? {
      FilterMembership(all, (a: Action) => MatchesDate(a, c.date.value), a);
    }
  }
}
