/** The computations of public/prisoners.js: paging of the prisoner cards, the search and
    the two filter selects, the checks of the add form, and the options of the edit form's
    cell select. */
module PrisonersPage {
  import opened Common
  import ServerRules

  // ---------------------------------------------------------------------------------
  // Paging (`renderPrisonerCards`, `updatePagination`)

  const PerPage := 6

  /** `Math.ceil(n / 6)` */
  function PageCount(n: nat): (r: nat)
    ensures (r - 1) * PerPage < n <= r * PerPage || (n == 0 && r == 0)
  {
    (n + PerPage - 1) / PerPage
  }

  /** `prisoners.slice((page - 1) * 6, Math.min((page - 1) * 6 + 6, n))`; a start past the
      end gives the empty list, as `slice` does. */
  function Page<T>(s: seq<T>, page: nat): (r: seq<T>)
    requires page >= 1
  {
    var start := (page - 1) * PerPage;
    var end := if start + PerPage < |s| then start + PerPage else |s|;
    if start <= end then s[start..end] else []
  }

  /** Every page from 1 to the page count holds between one and six cards, and they are
      the cards at positions [(page-1)*6, min(page*6, n)). */
  lemma PageBounds<T>(s: seq<T>, page: nat)
    requires 1 <= page <= PageCount(|s|)
    ensures 1 <= |Page(s, page)| <= PerPage
    ensures forall i | 0 <= i < |Page(s, page)| :: Page(s, page)[i] == s[(page - 1) * PerPage + i]
  {
  }

  /** Pages 1 .. k, one after the other. */
  function Pages<T>(s: seq<T>, k: nat): seq<T> {
    if k == 0 then [] else Pages(s, k - 1) + Page(s, k)
  }

  lemma {:induction false} PagesPrefix<T>(s: seq<T>, k: nat)
    requires k <= PageCount(|s|)
    ensures Pages(s, k) == s[..if k * PerPage < |s| then k * PerPage else |s|]
  {
    if k > 0 {
      PagesPrefix(s, k - 1);
      var start := (k - 1) * PerPage;
      var end := if k * PerPage < |s| then k * PerPage else |s|;
      assert start < |s|;
      assert Pages(s, k - 1) == s[..start];
      assert Page(s, k) == s[start..end];
      assert s[..end] == s[..start] + s[start..end];
    }
  }

  /** The pages, read in order, show every card exactly once in the list's order. */
  lemma PagesCoverAll<T>(s: seq<T>)
    ensures Pages(s, PageCount(|s|)) == s
  {
    PagesPrefix(s, PageCount(|s|));
    assert s[..|s|] == s;
  }

  /** The controls `updatePagination` sets: whether the bar is shown, the numbered buttons,
      the active one, and the disabled state of prev and next. */
  datatype Pagination = Pagination(shown: bool, buttons: seq<nat>, active: nat, prevDisabled: bool, nextDisabled: bool)

  /** `renderPrisonerCards` on a list of `n` cards at page `page`: an empty list hides the
      bar (`None`). */
  function PaginationFor(n: nat, page: nat): (r: Option<Pagination>)
    ensures r.None? <==> n == 0
    ensures r.Some? ==> |r.value.buttons| == PageCount(n) &&
                        forall i | 0 <= i < |r.value.buttons| :: r.value.buttons[i] == i + 1
    ensures r.Some? ==> r.value.active == page
  {
    if n == 0 then None
    else
      var total := PageCount(n);
      Some(Pagination(total > 1, seq(total, i => i + 1), page, page == 1, page == total))
  }

  /** The bar is visible exactly for lists longer than one page, and on a page in range
      prev is disabled only on the first page and next only on the last. */
  lemma PaginationControls(n: nat, page: nat)
    requires n > 0 && 1 <= page <= PageCount(n)
    ensures var p := PaginationFor(n, page).value;
            (p.shown <==> n > PerPage) &&
            (p.prevDisabled <==> page == 1) &&
            (p.nextDisabled <==> page == PageCount(n)) &&
            (p.prevDisabled && p.nextDisabled <==> n <= PerPage)
  {
  }

  // ---------------------------------------------------------------------------------
  // Search and filters (`filterPrisoners`, `applyFilters`)

  /** The fields of a fetched prisoner that the filters read. The prisoner list carries no
      jail, so `jailID` is normally absent. */
  datatype Prisoner = Prisoner(prisonerID: string, name: string, crime: string, jailID: Option<string>)

  /** The search predicate; `term` is already lower-cased by the caller. */
  predicate MatchesSearch(p: Prisoner, term: string) {
    Contains(Lower(p.prisonerID), term) || Contains(Lower(p.name), term) || Contains(Lower(p.crime), term)
  }

  predicate MatchesPrison(p: Prisoner, prison: string) {
    p.jailID == Some(prison)
  }

  /** The crime-category select: each category is a list of key words looked up in the
      lower-cased crime; an unknown category keeps everything. */
  predicate MatchesCrime(p: Prisoner, category: string) {
    var crime := Lower(p.crime);
    if category == "felony" then
      Contains(crime, "felony") || Contains(crime, "murder") || Contains(crime, "robbery")
    else if category == "misdemeanor" then
      Contains(crime, "misdemeanor") || Contains(crime, "theft") || Contains(crime, "assault")
    else if category == "infraction" then
      Contains(crime, "infraction") || Contains(crime, "trespass")
    else true
  }

  /** A select is active when it has a value other than 'all'. */
  predicate Active(select: string) {
    select != "" && select != "all"
  }

  /** `applyFilters`: the search, prison and crime filters applied one after the other. */
  function ApplyFilters(all: seq<Prisoner>, term: string, prison: string, category: string): seq<Prisoner> {
    var afterSearch := if term != "" then Filter(all, (p: Prisoner) => MatchesSearch(p, term)) else all;
    var afterPrison := if Active(prison) then Filter(afterSearch, (p: Prisoner) => MatchesPrison(p, prison)) else afterSearch;
    if Active(category) then Filter(afterPrison, (p: Prisoner) => MatchesCrime(p, category)) else afterPrison
  }

  predicate PassesSearch(p: Prisoner, term: string) {
    term == "" || MatchesSearch(p, term)
  }

  predicate PassesPrison(p: Prisoner, prison: string) {
    !Active(prison) || MatchesPrison(p, prison)
  }

  predicate PassesCrime(p: Prisoner, category: string) {
    !Active(category) || MatchesCrime(p, category)
  }

  /** The conjunction of the active filters. */
  predicate Selected(p: Prisoner, term: string, prison: string, category: string) {
    PassesSearch(p, term) && PassesPrison(p, prison) && PassesCrime(p, category)
  }

  /** The chained filters keep, in order, exactly the prisoners every active filter accepts. */
  lemma ApplyFiltersIsConjunction(all: seq<Prisoner>, term: string, prison: string, category: string)
    ensures ApplyFilters(all, term, prison, category) ==
              Filter(all, (p: Prisoner) => Selected(p, term, prison, category))
  {
    var search := (p: Prisoner) => PassesSearch(p, term);
    var prisonOk := (p: Prisoner) => PassesPrison(p, prison);
    var crimeOk := (p: Prisoner) => PassesCrime(p, category);
    assert ApplyFilters(all, term, prison, category) == Filter(Filter(Filter(all, search), prisonOk), crimeOk) by {
      var afterSearch := if term != "" then Filter(all, (p: Prisoner) => MatchesSearch(p, term)) else all;
      var afterPrison := if Active(prison) then Filter(afterSearch, (p: Prisoner) => MatchesPrison(p, prison)) else afterSearch;
      FilterWhen(all, term != "", (p: Prisoner) => MatchesSearch(p, term), search);
      FilterWhen(afterSearch, Active(prison), (p: Prisoner) => MatchesPrison(p, prison), prisonOk);
      FilterWhen(afterPrison, Active(category), (p: Prisoner) => MatchesCrime(p, category), crimeOk);
    }
    FilterThree(all, search, prisonOk, crimeOk, (p: Prisoner) => Selected(p, term, prison, category));
  }

  /** `filterPrisoners(term)`: a non-empty term filters the whole list by the search alone;
      an empty one falls back to `applyFilters` with the two selects. */
  function FilterPrisoners(all: seq<Prisoner>, term: string, prison: string, category: string): (r: seq<Prisoner>)
    ensures term != "" ==> forall p :: p in r <==> p in all && MatchesSearch(p, term)
    ensures term == "" ==> forall p :: p in r <==> p in all && Selected(p, "", prison, category)
  {
    if term != "" then
      FilterMembershipAll(all, (p: Prisoner) => MatchesSearch(p, term));
      Filter(all, (p: Prisoner) => MatchesSearch(p, term))
    else
      ApplyFiltersIsConjunction(all, "", prison, category);
      FilterMembershipAll(all, (p: Prisoner) => Selected(p, "", prison, category));
      ApplyFilters(all, "", prison, category)
  }

  /** Crime categories: a murder is a felony, a theft a misdemeanor, a trespass an
      infraction, and the 'all' select keeps every prisoner. */
  lemma CrimeCategoryExamples()
    ensures MatchesCrime(Prisoner("P1", "A", "First-degree Murder", None), "felony")
    ensures MatchesCrime(Prisoner("P2", "B", "Petty THEFT", None), "misdemeanor")
    ensures !MatchesCrime(Prisoner("P2", "B", "Petty THEFT", None), "felony")
    ensures MatchesCrime(Prisoner("P3", "C", "Trespass", None), "infraction")
  {
    assert OccursAt(Lower("First-degree Murder"), "murder", 13);
    assert OccursAt(Lower("Trespass"), "trespass", 0);
    PettyTheft(Lower("Petty THEFT"));
  }

  /** "Petty THEFT" holds the misdemeanor key word "theft" and none of the felony ones. */
  lemma PettyTheft(crime: string)
    requires crime == Lower("Petty THEFT")
    ensures Contains(crime, "theft")
    ensures !Contains(crime, "felony") && !Contains(crime, "murder") && !Contains(crime, "robbery")
  {
    assert OccursAt(crime, "theft", 6);
    forall w | w in ["felony", "murder", "robbery"] ensures !Contains(crime, w) {
      forall i | 0 <= i <= |crime| - |w| ensures !OccursAt(crime, w, i) {
        assert crime[i..i + |w|][0] == crime[i];
      }
    }
  }

  // ---------------------------------------------------------------------------------
  // The add form (`addNewPrisoner`)

  /** The text of the add form's inputs. */
  datatype PrisonerForm = PrisonerForm(
    prisonerID: string, name: string, age: string, gender: string, bloodGroup: string,
    crime: string, imprisonedOn: string, totalSentence: string, emergencyContact: string, cellID: string)

  datatype FormOutcome = FormError(message: string) | Submit(request: ServerRules.NewPrisoner)

  /** The checks `addNewPrisoner` makes before sending the request, and the request it
      sends: age parsed with `parseInt`, empty sentence and cell sent as null. */
  function ValidateNewPrisoner(f: PrisonerForm): (r: FormOutcome)
    ensures r.Submit? <==>
              f.prisonerID != "" && f.name != "" && f.age != "" && f.gender != "" && f.bloodGroup != "" &&
              f.crime != "" && f.imprisonedOn != "" && f.emergencyContact != "" &&
              ParseInt(f.age).Some? && 18 <= ParseInt(f.age).value <= 100
    ensures r.Submit? ==> r.request.age == ServerRules.AgeNumber(ParseInt(f.age).value) &&
                          r.request.cellID == f.cellID && r.request.totalSentence == f.totalSentence
  {
    if f.prisonerID == "" || f.name == "" || f.age == "" || f.gender == "" || f.bloodGroup == ""
       || f.crime == "" || f.imprisonedOn == "" || f.emergencyContact == ""
    then FormError("All required fields must be filled")
    else
      var age := ParseInt(f.age);
      if age.None? || age.value < 18 || age.value > 100 then FormError("Age must be a number between 18 and 100")
      else
        // a null sentence or cell reaches the server as a falsy value, like the empty string
        Submit(ServerRules.NewPrisoner(f.prisonerID, f.name, ServerRules.AgeNumber(age.value), f.gender,
                                       f.crime, f.imprisonedOn, f.totalSentence, f.cellID))
  }

  /** Whatever the add form sends passes the server's own validation of a new prisoner. */
  lemma FormRequestPassesServer(f: PrisonerForm)
    requires ValidateNewPrisoner(f).Submit?
    ensures ServerRules.NewPrisonerError(ValidateNewPrisoner(f).request).None?
  {
  }

  // ---------------------------------------------------------------------------------
  // The edit form's cell select (`loadAvailableCellsForEdit`)

  /** The prisoner's current cell first (when there is one), then every available cell
      other than it, in the order the server lists them. */
  function EditCellOptions(current: Option<string>, available: seq<string>): (r: seq<string>)
    ensures current.Some? ==> |r| > 0 && r[0] == current.value
    ensures forall c :: c in r <==> Some(c) == current || (c in available && Some(c) != current)
  {
    var rest := Filter(available, (c: string) => Some(c) != current);
    FilterMembershipAll(available, (c: string) => Some(c) != current);
    (if current.Some? then [current.value] else []) + rest
  }

  /** The current cell is offered exactly once, even when the server also lists it. */
  lemma {:induction false} CurrentCellOnce(current: string, available: seq<string>)
    ensures multiset(EditCellOptions(Some(current), available))[current] == 1
  {
    var keep := (c: string) => Some(c) != Some(current);
    FilterMembership(available, keep, current);
    var rest := Filter(available, keep);
    assert current !in rest;
    assert multiset(rest)[current] == 0;
    assert EditCellOptions(Some(current), available) == [current] + rest;
  }
}
