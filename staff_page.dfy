/** The computations of public/staff.js: role tagging of the four fetched staff lists, years
    of experience, the search box, and the key a card's "View Details" button dispatches on. */
module StaffPage {
  import opened Common

  /** A staff member as the four staff routes send it; `role` is added by the page. The
      stored years of experience are `None` when NULL. */
  datatype Staff = Staff(employeeID: string, name: string, age: int, gender: string,
                         doj: Date, yoe: Option<int>, role: string)

  // ---------------------------------------------------------------------------------
  // Role tagging in `fetchAllStaffData`

  /** The records of `s` with their role set to `role`, everything else kept. */
  function WithRole(s: seq<Staff>, role: string): (r: seq<Staff>)
    ensures |r| == |s|
    ensures forall i :: 0 <= i < |s| ==> r[i] == s[i].(role := role)
  {
    seq(|s|, i requires 0 <= i < |s| => s[i].(role := role))
  }

  /** `list.forEach(x => x.role = role)`: tags every record of one fetched list in place. */
  method TagRole(a: array<Staff>, role: string)
    modifies a
    ensures a[..] == WithRole(old(a[..]), role)
  {
    var i := 0;
    while i < a.Length
      invariant 0 <= i <= a.Length
      invariant forall k :: 0 <= k < i ==> a[k] == old(a[k]).(role := role)
      invariant forall k :: i <= k < a.Length ==> a[k] == old(a[k])
    {
      a[i] := a[i].(role := role);
      i := i + 1;
    }
  }

  /** The combined list: wardens, chief jailors, jailors and guards, each tagged with its
      role. */
  function AllStaff(wardens: seq<Staff>, chiefJailors: seq<Staff>, jailors: seq<Staff>, guards: seq<Staff>): seq<Staff> {
    WithRole(wardens, "Warden") + WithRole(chiefJailors, "Chief Jailor") +
    WithRole(jailors, "Jailor") + WithRole(guards, "Guard")
  }

  /** `fetchAllStaffData` after the four fetches: tags each list in place and concatenates
      them in fetch order. The four lists are distinct arrays (four JSON responses). */
  method FetchAllStaffData(wardens: array<Staff>, chiefJailors: array<Staff>, jailors: array<Staff>, guards: array<Staff>)
    returns (all: seq<Staff>)
    requires wardens != chiefJailors && wardens != jailors && wardens != guards
    requires chiefJailors != jailors && chiefJailors != guards && jailors != guards
    modifies wardens, chiefJailors, jailors, guards
    ensures wardens[..] == WithRole(old(wardens[..]), "Warden")
    ensures chiefJailors[..] == WithRole(old(chiefJailors[..]), "Chief Jailor")
    ensures jailors[..] == WithRole(old(jailors[..]), "Jailor")
    ensures guards[..] == WithRole(old(guards[..]), "Guard")
    ensures all == AllStaff(old(wardens[..]), old(chiefJailors[..]), old(jailors[..]), old(guards[..]))
  {
    TagRole(wardens, "Warden");
    TagRole(chiefJailors, "Chief Jailor");
    TagRole(jailors, "Jailor");
    TagRole(guards, "Guard");
    all := wardens[..] + chiefJailors[..] + jailors[..] + guards[..];
  }

  /** The combined list holds every fetched record once, in fetch order, with the role of
      the list it came from and its other fields unchanged. */
  lemma AllStaffInFetchOrder(w: seq<Staff>, cj: seq<Staff>, j: seq<Staff>, g: seq<Staff>)
    ensures var all := AllStaff(w, cj, j, g);
            |all| == |w| + |cj| + |j| + |g| &&
            (forall i :: 0 <= i < |w| ==> all[i] == w[i].(role := "Warden")) &&
            (forall i :: 0 <= i < |cj| ==> all[|w| + i] == cj[i].(role := "Chief Jailor")) &&
            (forall i :: 0 <= i < |j| ==> all[|w| + |cj| + i] == j[i].(role := "Jailor")) &&
            (forall i :: 0 <= i < |g| ==> all[|w| + |cj| + |j| + i] == g[i].(role := "Guard"))
  {
    var front := WithRole(w, "Warden") + WithRole(cj, "Chief Jailor");
    var back := WithRole(j, "Jailor") + WithRole(g, "Guard");
    assert AllStaff(w, cj, j, g) == front + back;
    assert |front| == |w| + |cj|;
  }

  // ---------------------------------------------------------------------------------
  // `calculateYearsOfExperience`

  /** Whole years from the date of joining to `today`: the difference of the years, less
      one when today's (month, day) comes before the joining (month, day). */
  function YearsOfExperience(doj: Date, today: Date): (r: int)
    ensures !DateBefore(today, Date(doj.year + r, doj.month, doj.day))
    ensures DateBefore(today, Date(doj.year + r + 1, doj.month, doj.day))
  {
    var years := today.year - doj.year;
    if today.month < doj.month || (today.month == doj.month && today.day < doj.day) then years - 1 else years
  }

  /** Experience is never negative once the joining date has passed, and it never falls as
      the day advances. */
  lemma YearsOfExperienceBounds(doj: Date, today: Date, later: Date)
    requires !DateBefore(today, doj)
    requires !DateBefore(later, today)
    ensures YearsOfExperience(doj, today) >= 0
    ensures YearsOfExperience(doj, today) <= YearsOfExperience(doj, later)
  {
  }

  /** The experience a card shows: the stored years when truthy, else the computed ones. */
  function DisplayedYears(s: Staff, today: Date): (r: int)
    ensures s.yoe.Some? && s.yoe.value != 0 ==> r == s.yoe.value
    ensures s.yoe.None? || s.yoe.value == 0 ==> r == YearsOfExperience(s.doj, today)
  {
    if s.yoe.Some? && s.yoe.value != 0 then s.yoe.value else YearsOfExperience(s.doj, today)
  }

  // ---------------------------------------------------------------------------------
  // `filterStaffBySearch`

  predicate MatchesSearch(s: Staff, term: string) {
    Contains(Lower(s.name), term) || Contains(Lower(s.employeeID), term) || Contains(Lower(s.role), term)
  }

  /** An empty term shows all staff; otherwise, in order, the staff whose name, ID or role
      contains the lower-cased term. */
  function FilterStaffBySearch(all: seq<Staff>, term: string): (r: seq<Staff>)
    ensures term == "" ==> r == all
    ensures term != "" ==> forall s :: s in r <==> s in all && MatchesSearch(s, term)
  {
    if term == "" then all
    else
      FilterMembershipAll(all, (s: Staff) => MatchesSearch(s, term));
      Filter(all, (s: Staff) => MatchesSearch(s, term))
  }

  /** Searching for a role name finds every member of that list. */
  lemma SearchByRoleFindsList(w: seq<Staff>, cj: seq<Staff>, j: seq<Staff>, g: seq<Staff>, i: nat)
    requires i < |j|
    ensures AllStaff(w, cj, j, g)[|w| + |cj| + i] in FilterStaffBySearch(AllStaff(w, cj, j, g), "jailor")
  {
    var x := AllStaff(w, cj, j, g)[|w| + |cj| + i];
    assert x.role == "Jailor";
    assert Lower(x.role) == "jailor";
    assert OccursAt(Lower(x.role), "jailor", 0);
  }

  // ---------------------------------------------------------------------------------
  // "View Details" dispatch

  datatype Details = WardenDetails | ChiefJailorDetails | JailorDetails | GuardDetails

  /** The `switch` of `viewStaffDetails`: which details are fetched for a key. */
  function DetailsFor(key: string): (r: Option<Details>)
    ensures r.Some? <==> key in {"warden", "chiefJailor", "jailor", "guard"}
  {
    match key
    case "warden" => Some(WardenDetails)
    case "chiefJailor" => Some(ChiefJailorDetails)
    case "jailor" => Some(JailorDetails)
    case "guard" => Some(GuardDetails)
    case _ => None
  }

  /** `s.replace(' ', '')`: drops the first space only. */
  function RemoveFirstSpace(s: string): string {
    if s == [] then []
    else if s[0] == ' ' then s[1..]
    else [s[0]] + RemoveFirstSpace(s[1..])
  }

  /** The key a staff card's button passes, as written: the role lower-cased without its
      first space. */
  function CardViewKey(role: string): string {
    RemoveFirstSpace(Lower(role))
  }

  /** As written, the chief jailor cards fetch nothing: their key is 'chiefjailor' while the
      switch expects 'chiefJailor'. The other three roles are dispatched. */
  lemma ChiefJailorCardFetchesNothing()
    ensures CardViewKey("Chief Jailor") == "chiefjailor"
    ensures DetailsFor(CardViewKey("Chief Jailor")).None?
    ensures DetailsFor(CardViewKey("Warden")) == Some(WardenDetails)
    ensures DetailsFor(CardViewKey("Jailor")) == Some(JailorDetails)
    ensures DetailsFor(CardViewKey("Guard")) == Some(GuardDetails)
  {
    ChiefJailorLowered();
    RemoveFirstSpaceSplit("chief", " " + "jailor");
    assert "chief" + " " + "jailor" == "chief" + (" " + "jailor");
    assert RemoveFirstSpace(" " + "jailor") == "jailor";
    ChiefJailorJoined();
    SingleWordKeys();
    DetailsForKeys();
  }

  lemma DetailsForKeys()
    ensures DetailsFor("chiefjailor").None?
    ensures DetailsFor("warden") == Some(WardenDetails)
    ensures DetailsFor("jailor") == Some(JailorDetails)
    ensures DetailsFor("guard") == Some(GuardDetails)
    ensures DetailsFor("chiefJailor") == Some(ChiefJailorDetails)
  {
  }

  lemma ChiefJailorLowered()
    ensures Lower("Chief Jailor") == "chief" + " " + "jailor"
  {
  }

  lemma ChiefJailorJoined()
    ensures "chief" + "jailor" == "chiefjailor"
  {
  }

  lemma SingleWordKeys()
    ensures CardViewKey("Warden") == "warden"
    ensures CardViewKey("Jailor") == "jailor"
    ensures CardViewKey("Guard") == "guard"
  {
    WardenWord();
    SingleWordKey("Warden", "warden");
    JailorWord();
    SingleWordKey("Jailor", "jailor");
    GuardWord();
    SingleWordKey("Guard", "guard");
  }

  lemma WardenWord()
    ensures Lower("Warden") == "warden" && ' ' !in "Warden" && ' ' !in "warden"
  {
  }

  lemma JailorWord()
    ensures Lower("Jailor") == "jailor" && ' ' !in "Jailor" && ' ' !in "jailor"
  {
  }

  lemma GuardWord()
    ensures Lower("Guard") == "guard" && ' ' !in "Guard" && ' ' !in "guard"
  {
  }

  lemma ChiefWord()
    ensures Lower("Chief") == "chief" && ' ' !in "Chief"
  {
  }

  lemma SingleWordKey(role: string, key: string)
    requires Lower(role) == key && ' ' !in key
    ensures CardViewKey(role) == key
  {
    RemoveFirstSpaceSplit(key, []);
    assert key + [] == key;
  }

  /** Dropping the first space of `a + rest`, where `a` has none, keeps `a` and drops the
      first space of `rest`. */
  lemma {:induction false} RemoveFirstSpaceSplit(a: string, rest: string)
    requires ' ' !in a
    ensures RemoveFirstSpace(a + rest) == a + RemoveFirstSpace(rest)
  {
    if a != [] {
      var s := a + rest;
      assert s[0] == a[0] && s[0] != ' ';
      assert s[1..] == a[1..] + rest;
      RemoveFirstSpaceSplit(a[1..], rest);
      assert a == [a[0]] + a[1..];
    } else {
      assert a + rest == rest;
    }
  }

  /** The key the switch and the chief jailor tab use: lower camel case, the first word
      lower-cased and the second with an upper-case first letter. */
  function CamelKey(role: string): (r: string)
    ensures ' ' !in role ==> r == Lower(role)
  {
    var k := SpaceIndex(role);
    if k == |role| then Lower(role)
    else Lower(role[..k]) + UpperFirst(Lower(role[k + 1..]))
  }

  /** With the lower-camel key every role a card can carry fetches its own details. */
  lemma EveryCardFetchesItsDetails()
    ensures DetailsFor(CamelKey("Warden")) == Some(WardenDetails)
    ensures DetailsFor(CamelKey("Chief Jailor")) == Some(ChiefJailorDetails)
    ensures DetailsFor(CamelKey("Jailor")) == Some(JailorDetails)
    ensures DetailsFor(CamelKey("Guard")) == Some(GuardDetails)
  {
    ChiefJailorCamel();
    SingleWordsCamel();
    DetailsForKeys();
  }

  lemma ChiefJailorCamel()
    ensures CamelKey("Chief Jailor") == "chiefJailor"
  {
    ChiefWord();
    ChiefJailorParts();
    SpaceIndexSplit("Chief", "Jailor");
    CamelParts();
  }

  lemma ChiefJailorParts()
    ensures "Chief Jailor" == "Chief" + " " + "Jailor"
    ensures "Chief Jailor"[..5] == "Chief" && "Chief Jailor"[6..] == "Jailor"
  {
  }

  lemma CamelParts()
    ensures Lower("Chief") + UpperFirst(Lower("Jailor")) == "chiefJailor"
  {
    ChiefWord();
    JailorWord();
    assert UpperFirst("jailor") == "Jailor";
  }

  lemma SingleWordsCamel()
    ensures CamelKey("Warden") == "warden"
    ensures CamelKey("Jailor") == "jailor"
    ensures CamelKey("Guard") == "guard"
  {
    WardenWord();
    SingleWordCamel("Warden", "warden");
    JailorWord();
    SingleWordCamel("Jailor", "jailor");
    GuardWord();
    SingleWordCamel("Guard", "guard");
  }

  lemma SingleWordCamel(role: string, key: string)
    requires Lower(role) == key && ' ' !in role
    ensures CamelKey(role) == key
  {
  }

  /** The view dispatch of a card with the corrected key. */
  function CardDetails(s: Staff): (r: Option<Details>)
    ensures s.role == "Chief Jailor" ==> r == Some(ChiefJailorDetails)
  {
    EveryCardFetchesItsDetails();
    DetailsFor(CamelKey(s.role))
  }
}
