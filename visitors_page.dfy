/** The computations of public/visitors.js: the 12-hour rendering of a visit time, the
    search box and date picker (each falls back to the other when cleared), and the filter
    button that applies both. */
module VisitorsPage {
  import opened Common

  // ---------------------------------------------------------------------------------
  // `formatTime`

  /** A visit time as the list route may send it: absent (NULL), a string, or an object
      with `hours` and optional `minutes`. */
  datatype TimeInput = TimeMissing | TimeText(text: string) | TimeObject(hours: Option<int>, minutes: Option<int>)

  /** `s.split(':')[0]`: the text before the first ':' (all of `s` when there is none). */
  function BeforeColon(s: string): (r: string)
    ensures |r| <= |s| && r == s[..|r|]
    ensures ':' !in r
    ensures |r| < |s| ==> s[|r|] == ':'
  {
    if s == [] || s[0] == ':' then [] else [s[0]] + BeforeColon(s[1..])
  }

  /** The text after the first ':' (empty when there is none). */
  function AfterColon(s: string): (r: string)
    ensures ':' in s ==> s == BeforeColon(s) + ":" + r
  {
    var k := |BeforeColon(s)|;
    if k < |s| then
      assert s == s[..k] + [s[k]] + s[k + 1..];
      s[k + 1..]
    else
      assert ':' !in s;
      []
  }

  /** `hours >= 12 ? 'PM' : 'AM'`; a `NaN` hour compares false. */
  function Meridiem(hours: Option<int>): (r: string)
    ensures r == "PM" <==> hours.Some? && hours.value >= 12
    ensures r == "PM" || r == "AM"
  {
    if hours.Some? && hours.value >= 12 then "PM" else "AM"
  }

  /** JavaScript's `hours % 12`, which truncates toward zero: the remainder takes the sign
      of the dividend. */
  function JsMod12(a: int): (r: int)
    ensures -12 < r < 12
    ensures (a - r) % 12 == 0
    ensures a >= 0 ==> r == a % 12
    ensures a < 0 ==> r <= 0
  {
    if a >= 0 then a % 12 else -((-a) % 12)
  }

  /** `hours % 12`, with a falsy result (0 or `NaN`) shown as 12. */
  function Hour12(hours: Option<int>): (r: int)
    ensures hours.None? ==> r == 12
    ensures hours.Some? && hours.value >= 0 ==> 1 <= r <= 12 && r % 12 == hours.value % 12
    ensures hours.Some? ==> r == 12 || (r - hours.value) % 12 == 0
  {
    if hours.None? then 12
    else
      var h := JsMod12(hours.value);
      if h == 0 then 12 else h
  }

  /** `minutes < 10 ? '0' + minutes : minutes`; a `NaN` minute prints as "NaN". */
  function MinutesText(minutes: Option<int>): (r: string)
    ensures minutes.None? ==> r == "NaN"
    ensures minutes.Some? && 0 <= minutes.value < 10 ==> |r| == 2 && r[0] == '0'
    ensures minutes.Some? && 0 <= minutes.value ==> ParseInt(r) == minutes
  {
    if minutes.None? then "NaN"
    else if minutes.value < 10 then
      if 0 <= minutes.value then
        TwoDigitsValue(minutes.value);
        "0" + IntToString(minutes.value)
      else "0" + IntToString(minutes.value)
    else
      ParseIntOfIntToString(minutes.value, "");
      assert IntToString(minutes.value) + "" == IntToString(minutes.value);
      IntToString(minutes.value)
  }

  /** The 12-hour clock text `<hour>:<minutes> <AM|PM>`. */
  function Clock(hours: Option<int>, minutes: Option<int>): string {
    IntToString(Hour12(hours)) + ":" + MinutesText(minutes) + " " + Meridiem(hours)
  }

  /** `formatTime`: 'N/A' for a falsy time, a string without ':' unchanged, otherwise the
      12-hour clock text of the first two ':'-separated fields or of the object's fields
      (missing minutes count as 0). `None` is an object without `hours`, which is returned
      as it came. */
  function FormatTime(t: TimeInput): (r: Option<string>)
    ensures t == TimeMissing || t == TimeText("") ==> r == Some("N/A")
    ensures t.TimeText? && t.text != "" && ':' !in t.text ==> r == Some(t.text)
    ensures r.None? <==> t.TimeObject? && t.hours.None?
    ensures t.TimeObject? && t.hours.Some? ==>
              r == Some(Clock(t.hours, Some(if t.minutes.Some? then t.minutes.value else 0)))
    ensures t.TimeText? && ':' in t.text ==>
              r == Some(Clock(ParseInt(BeforeColon(t.text)), ParseInt(BeforeColon(AfterColon(t.text)))))
  {
    match t
    case TimeMissing => Some("N/A")
    case TimeText(s) =>
      if s == "" then Some("N/A")
      else if ':' !in s then Some(s)
      else Some(Clock(ParseInt(BeforeColon(s)), ParseInt(BeforeColon(AfterColon(s)))))
    case TimeObject(hours, minutes) =>
      if hours.None? then None
      else Some(Clock(hours, Some(if minutes.Some? then minutes.value else 0)))
  }

  /** Two decimal digits, zero-padded: the database's `HH` and `MM`. */
  function TwoDigits(n: nat): (r: string)
    requires n < 100
    ensures |r| == 2 && IsDigit(r[0]) && IsDigit(r[1])
  {
    [DigitChar(n / 10), DigitChar(n % 10)]
  }

  lemma TwoDigitsValue(n: nat)
    requires n < 100
    ensures ParseInt(TwoDigits(n)) == Some(n)
    ensures n < 10 ==> TwoDigits(n) == "0" + IntToString(n)
    ensures n >= 10 ==> TwoDigits(n) == IntToString(n)
  {
    if n >= 10 {
      assert NatToString(n / 10) == [DigitChar(n / 10)];
      assert TwoDigits(n) == IntToString(n) + [];
      ParseIntOfIntToString(n, []);
    } else {
      assert TwoDigits(n) == "0" + IntToString(n);
      LeadingZero(n);
    }
  }

  /** `parseInt` skips a leading zero. */
  lemma LeadingZero(n: nat)
    requires n < 10
    ensures ParseInt("0" + IntToString(n)) == Some(n)
  {
    var d := "0" + IntToString(n);
    assert DigitPrefix(d) == d by {
      DigitPrefixStops(d, []);
      assert d + [] == d;
    }
    assert DigitsValue(d) == n by {
      assert d == ['0', DigitChar(n)];
      assert d[..1] == ['0'] && ['0'][..0] == [];
      assert DigitsValue(d) == DigitsValue(['0']) * 10 + DigitValue(DigitChar(n));
    }
    ParseIntUnsigned(d);
  }

  /** A time stored as "HH:MM:SS" (hours 0..23, minutes 0..59) is shown on the 12-hour
      clock: the hour becomes 1..12 with 0 shown as 12, PM from noon on, and the minutes keep
      their two digits. */
  lemma DatabaseTimeShownOnTwelveHourClock(h: nat, m: nat, s: nat)
    requires h < 24 && m < 60 && s < 60
    ensures FormatTime(TimeText(TwoDigits(h) + ":" + TwoDigits(m) + ":" + TwoDigits(s))) ==
            Some(IntToString(if h % 12 == 0 then 12 else h % 12) + ":" + TwoDigits(m) + " " +
                 (if h >= 12 then "PM" else "AM"))
  {
    var text := TwoDigits(h) + ":" + TwoDigits(m) + ":" + TwoDigits(s);
    var hh, mm, ss := TwoDigits(h), TwoDigits(m), TwoDigits(s);
    assert text == hh + ":" + (mm + ":" + ss);
    assert text[2] == ':';
    assert ':' in text;
    assert BeforeColon(text) == hh by {
      assert text[0] == hh[0] && text[1] == hh[1];
      assert BeforeColon(text[2..]) == [];
      assert BeforeColon(text[1..]) == [hh[1]] + BeforeColon(text[2..]);
    }
    var rest := AfterColon(text);
    assert rest == mm + ":" + ss;
    assert BeforeColon(rest) == mm by {
      assert rest[0] == mm[0] && rest[1] == mm[1] && rest[2] == ':';
      assert BeforeColon(rest[2..]) == [];
      assert BeforeColon(rest[1..]) == [mm[1]] + BeforeColon(rest[2..]);
    }
    TwoDigitsValue(h);
    TwoDigitsValue(m);
  }

  // ---------------------------------------------------------------------------------
  // Search, date picker and the filter button

  /** A visitor as `GET /api/visitors` sends it, the visit date already split. */
  datatype Visitor = Visitor(visitorID: string, name: string, prisonerID: string,
                             prisonerName: Option<string>, relation: Option<string>, visitDate: Date)

  /** The search predicate; `term` is already lower-cased. */
  predicate MatchesSearch(v: Visitor, term: string) {
    Contains(Lower(v.visitorID), term) || Contains(Lower(v.name), term) ||
    Contains(Lower(v.prisonerID), term) ||
    (v.prisonerName.Some? && Contains(Lower(v.prisonerName.value), term)) ||
    (v.relation.Some? && Contains(Lower(v.relation.value), term))
  }

  /** The date picker compares year, month and day. */
  predicate MatchesDate(v: Visitor, date: Date) {
    v.visitDate == date
  }

  /** The search box text and the picked date. */
  datatype Controls = Controls(searchBox: string, date: Option<Date>)

  datatype Event = SearchTyped | DateChanged | FilterClicked

  function SearchOnly(all: seq<Visitor>, c: Controls): seq<Visitor> {
    Filter(all, (v: Visitor) => MatchesSearch(v, Lower(c.searchBox)))
  }

  function DateOnly(all: seq<Visitor>, c: Controls): seq<Visitor>
    requires c.date.Some?
  {
    Filter(all, (v: Visitor) => MatchesDate(v, c.date.value))
  }

  /** The list shown after an event. `filterVisitors`: a non-empty term filters by search
      alone, an empty one falls back to the date, else everything. `filterVisitorsByDate`:
      a picked date filters by date alone, a cleared one falls back to the search box, else
      everything. `applyAllFilters`: search, then date. */
  function Displayed(all: seq<Visitor>, c: Controls, e: Event): seq<Visitor> {
    match e
    case SearchTyped =>
      if c.searchBox != "" then SearchOnly(all, c)
      else if c.date.Some? then DateOnly(all, c)
      else all
    case DateChanged =>
      if c.date.Some? then DateOnly(all, c)
      else if c.searchBox != "" then SearchOnly(all, c)
      else all
    case FilterClicked =>
      var bySearch := if c.searchBox != "" then SearchOnly(all, c) else all;
      if c.date.Some? then DateOnly(bySearch, c) else bySearch
  }

  /** The filter button keeps exactly the visitors that pass both controls. */
  lemma FilterButtonIsConjunction(all: seq<Visitor>, c: Controls, v: Visitor)
    ensures v in Displayed(all, c, FilterClicked) <==>
              v in all && (c.searchBox == "" || MatchesSearch(v, Lower(c.searchBox))) &&
              (c.date.None? || MatchesDate(v, c.date.value))
  {
    var bySearch := if c.searchBox != "" then SearchOnly(all, c) else all;
    FilterMembership(all, (v: Visitor) => MatchesSearch(v, Lower(c.searchBox)), v);
    if c.date.Some? {
      FilterMembership(bySearch, (v: Visitor) => MatchesDate(v, c.date.value), v);
    }
  }

  /** With at most one control set, every event shows the same list as the filter button;
      with both set, the two single-control events show a superset of it. */
  lemma HandlersAgreeWithButton(all: seq<Visitor>, c: Controls, e: Event, v: Visitor)
    ensures c.searchBox == "" || c.date.None? ==> Displayed(all, c, e) == Displayed(all, c, FilterClicked)
    ensures v in Displayed(all, c, FilterClicked) ==> v in Displayed(all, c, e)
  {
    FilterButtonIsConjunction(all, c, v);
    FilterMembership(all, (v: Visitor) => MatchesSearch(v, Lower(c.searchBox)), v);
    if c.date.Some? {
      FilterMembership(all, (v: Visitor) => MatchesDate(v, c.date.value), v);
    }
  }
}
