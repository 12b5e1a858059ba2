/** Values and JavaScript primitives shared by the server model and the page-script models:
    optional values, calendar dates, ASCII case mapping, `String.prototype.includes`,
    `Array.prototype.filter`, `parseInt(s, 10)` and the decimal rendering of an integer. */
module Common {

  datatype Option<T> = None | Some(value: T)

  /** A calendar date as (year, month, day). JavaScript `Date` parsing, time zones and
      locale formatting are outside the model: callers pass dates already split. */
  datatype Date = Date(year: int, month: int, day: int)

  /** Strict chronological order on dates. */
  predicate DateBefore(a: Date, b: Date) {
    a.year < b.year || (a.year == b.year && (a.month < b.month || (a.month == b.month && a.day < b.day)))
  }

  /** JavaScript's `x || null` on a string: the empty string is the only falsy string,
      and an absent form field or JSON property is modelled as the empty string. */
  function NullIfEmpty(s: string): (r: Option<string>)
    ensures r.None? <==> s == ""
    ensures r.Some? ==> r.value == s
  {
    if s == "" then None else Some(s)
  }

  // ---------------------------------------------------------------------------------
  // Case mapping. `toLowerCase` / `toUpperCase` are modelled on the ASCII letters only;
  // every other character is left as it is.

  function LowerChar(c: char): char {
    if 'A' <= c <= 'Z' then (c as int + 32) as char else c
  }

  function UpperChar(c: char): char {
    if 'a' <= c <= 'z' then (c as int - 32) as char else c
  }

  function Lower(s: string): (r: string)
    ensures |r| == |s|
    ensures forall i :: 0 <= i < |s| ==> r[i] == LowerChar(s[i])
  {
    seq(|s|, i requires 0 <= i < |s| => LowerChar(s[i]))
  }

  /** `s.charAt(0).toUpperCase() + s.slice(1)` */
  function UpperFirst(s: string): (r: string)
    ensures |r| == |s|
    ensures |s| > 0 ==> r[0] == UpperChar(s[0]) && r[1..] == s[1..]
  {
    if s == [] then [] else [UpperChar(s[0])] + s[1..]
  }

  lemma LowerIdempotent(s: string)
    ensures Lower(Lower(s)) == Lower(s)
  {
  }

  // ---------------------------------------------------------------------------------
  // `String.prototype.includes`

  /** `s.includes(sub)`: `sub` occurs in `s` at some position. */
  predicate Contains(s: string, sub: string) {
    exists i | 0 <= i <= |s| - |sub| :: OccursAt(s, sub, i)
  }

  predicate OccursAt(s: string, sub: string, i: int) {
    0 <= i && i + |sub| <= |s| && s[i..i + |sub|] == sub
  }

  lemma ContainsEmpty(s: string)
    ensures Contains(s, "")
  {
    assert OccursAt(s, "", 0);
  }

  /** `includes` is monotone in the haystack: a string found in a suffix is found in the whole. */
  lemma ContainsInTail(s: string, k: nat, sub: string)
    requires k <= |s| && Contains(s[k..], sub)
    ensures Contains(s, sub)
  {
    var t := s[k..];
    var i: int :| 0 <= i <= |t| - |sub| && OccursAt(t, sub, i);
    assert t[i..i + |sub|] == sub;
    assert s[k + i..k + i + |sub|] == t[i..i + |sub|];
    assert OccursAt(s, sub, k + i);
  }

  /** The position of the first space in `s`, or `|s|` when there is none. */
  function SpaceIndex(s: string): (k: nat)
    ensures k <= |s|
    ensures ' ' !in s[..k]
    ensures k < |s| ==> s[k] == ' '
  {
    if s == [] then 0
    else if s[0] == ' ' then 0
    else
      var k := SpaceIndex(s[1..]) + 1;
      assert s[..k] == [s[0]] + s[1..][..k - 1];
      k
  }

  /** The first space of `a + " " + b`, where `a` has none, is at `|a|`. */
  lemma {:induction false} SpaceIndexSplit(a: string, b: string)
    requires ' ' !in a
    ensures SpaceIndex(a + " " + b) == |a|
  {
    if a != [] {
      SpaceIndexSplit(a[1..], b);
      assert (a + " " + b)[1..] == a[1..] + " " + b;
    }
  }

  // ---------------------------------------------------------------------------------
  // `Array.prototype.filter`

  /** The elements of `s` that `keep` accepts, in their original order. */
  function Filter<T>(s: seq<T>, keep: T -> bool): (r: seq<T>)
    ensures |r| <= |s|
    ensures forall x :: x in r ==> x in s && keep(x)
  {
    if s == [] then [] else (if keep(s[0]) then [s[0]] else []) + Filter(s[1..], keep)
  }

  /** Filtering keeps exactly the accepted elements. */
  lemma {:induction false} FilterMembership<T>(s: seq<T>, keep: T -> bool, x: T)
    ensures x in Filter(s, keep) <==> x in s && keep(x)
  {
    if s != [] {
      FilterMembership(s[1..], keep, x);
      assert s == [s[0]] + s[1..];
    }
  }

  /** The same, for every element at once. */
  lemma FilterMembershipAll<T>(s: seq<T>, keep: T -> bool)
    ensures forall x :: x in Filter(s, keep) <==> x in s && keep(x)
  {
    forall x ensures x in Filter(s, keep) <==> x in s && keep(x) {
      FilterMembership(s, keep, x);
    }
  }

  /** Filtering distributes over concatenation, so the relative order of kept elements
      is the order of the input. */
  lemma {:induction false} FilterAppend<T>(a: seq<T>, b: seq<T>, keep: T -> bool)
    ensures Filter(a + b, keep) == Filter(a, keep) + Filter(b, keep)
  {
    if a != [] {
      var head := if keep(a[0]) then [a[0]] else [];
      FilterOfCons(a, b, keep);
      FilterAppend(a[1..], b, keep);
      ConcatAssoc(head, Filter(a[1..], keep), Filter(b, keep));
    } else {
      assert a + b == b;
    }
  }

  /** One step of `Filter` on a concatenation with a non-empty left part. */
  lemma FilterOfCons<T>(a: seq<T>, b: seq<T>, keep: T -> bool)
    requires a != []
    ensures Filter(a + b, keep) == (if keep(a[0]) then [a[0]] else []) + Filter(a[1..] + b, keep)
  {
    assert (a + b)[0] == a[0];
    assert (a + b)[1..] == a[1..] + b;
  }

  /** Two successive filters equal one filter by the conjunction. */
  lemma {:induction false} FilterFilter<T>(s: seq<T>, p: T -> bool, q: T -> bool, both: T -> bool)
    requires forall x :: both(x) == (p(x) && q(x))
    ensures Filter(Filter(s, p), q) == Filter(s, both)
  {
    if s != [] {
      FilterFilter(s[1..], p, q, both);
      var rest := Filter(s[1..], p);
      if p(s[0]) {
        var kept := [s[0]] + rest;
        assert Filter(s, p) == kept;
        assert kept[0] == s[0] && kept[1..] == rest;
      } else {
        assert Filter(s, p) == rest;
      }
    }
  }

  /** Three successive filters equal one filter by the conjunction of the three. */
  lemma FilterThree<T>(s: seq<T>, p: T -> bool, q: T -> bool, r: T -> bool, all3: T -> bool)
    requires forall x :: all3(x) == (p(x) && q(x) && r(x))
    ensures Filter(Filter(Filter(s, p), q), r) == Filter(s, all3)
  {
    var pq := (x: T) => p(x) && q(x);
    FilterFilter(s, p, q, pq);
    FilterFilter(s, pq, r, all3);
  }

  /** Two filters commute. */
  lemma FilterCommute<T>(s: seq<T>, p: T -> bool, q: T -> bool)
    ensures Filter(Filter(s, p), q) == Filter(Filter(s, q), p)
  {
    FilterFilter(s, p, q, (x: T) => p(x) && q(x));
    FilterFilter(s, q, p, (x: T) => p(x) && q(x));
  }

  /** A filter that accepts every element returns the input unchanged. */
  lemma {:induction false} FilterAll<T>(s: seq<T>, keep: T -> bool)
    requires forall x :: x in s ==> keep(x)
    ensures Filter(s, keep) == s
  {
    if s != [] {
      FilterAll(s[1..], keep);
      assert s == [s[0]] + s[1..];
    }
  }

  /** Filters with the same verdict on every element give the same result. */
  lemma {:induction false} FilterSame<T>(s: seq<T>, p: T -> bool, q: T -> bool)
    requires forall x :: x in s ==> p(x) == q(x)
    ensures Filter(s, p) == Filter(s, q)
  {
    if s != [] {
      FilterSame(s[1..], p, q);
    }
  }

  /** A filter applied only when its control is active equals one filter that lets
      everything through when the control is inactive. */
  lemma FilterWhen<T>(s: seq<T>, active: bool, p: T -> bool, q: T -> bool)
    requires forall x :: q(x) == (!active || p(x))
    ensures (if active then Filter(s, p) else s) == Filter(s, q)
  {
    if active {
      FilterSame(s, p, q);
    } else {
      FilterAll(s, q);
    }
  }

  // ---------------------------------------------------------------------------------
  // `parseInt(s, 10)` and integer rendering

  /** The characters `parseInt` and `trim` skip (ASCII white space only). */
  predicate IsSpace(c: char) {
    c == ' ' || c == '\t' || c == '\n' || c == '\r' || c == '\U{000B}' || c == '\U{000C}'
  }

  predicate IsDigit(c: char) {
    '0' <= c <= '9'
  }

  function TrimStart(s: string): (r: string)
    ensures |r| <= |s| && r == s[|s| - |r|..]
    ensures r != [] ==> !IsSpace(r[0])
  {
    if s != [] && IsSpace(s[0]) then TrimStart(s[1..]) else s
  }

  /** The longest prefix of `s` made of decimal digits. */
  function DigitPrefix(s: string): (r: string)
    ensures |r| <= |s| && r == s[..|r|]
    ensures forall i :: 0 <= i < |r| ==> IsDigit(r[i])
    ensures |r| < |s| ==> !IsDigit(s[|r|])
  {
    if s != [] && IsDigit(s[0]) then [s[0]] + DigitPrefix(s[1..]) else []
  }

  function DigitValue(c: char): nat
    requires IsDigit(c)
  {
    c as int - '0' as int
  }

  function DigitsValue(d: string): nat
    requires forall i :: 0 <= i < |d| ==> IsDigit(d[i])
  {
    if d == [] then 0 else DigitsValue(d[..|d| - 1]) * 10 + DigitValue(d[|d| - 1])
  }

  /** `parseInt(s, 10)`: skip leading white space, read an optional sign and then the
      longest run of digits; `None` stands for `NaN` (no digit at all). */
  function ParseInt(s: string): (r: Option<int>)
    ensures r.Some? ==> exists i :: 0 <= i < |s| && IsDigit(s[i])
  {
    var t := TrimStart(s);
    var signed := t != [] && (t[0] == '-' || t[0] == '+');
    var body := if signed then t[1..] else t;
    var digits := DigitPrefix(body);
    if digits == [] then None
    else
      assert digits[0] == s[|s| - |t| + (if signed then 1 else 0)];
      var v: int := DigitsValue(digits);
      Some(if signed && t[0] == '-' then -v else v)
  }

  function DigitChar(d: nat): char
    requires d < 10
  {
    ('0' as int + d) as char
  }

  /** The decimal digits of `n`, most significant first, without leading zeros. */
  function NatToString(n: nat): (r: string)
    ensures |r| > 0
    ensures forall i :: 0 <= i < |r| ==> IsDigit(r[i])
  {
    if n < 10 then [DigitChar(n)] else NatToString(n / 10) + [DigitChar(n % 10)]
  }

  /** `String(n)` for an integer `n`. */
  function IntToString(n: int): (r: string)
    ensures |r| > 0
  {
    if n < 0 then "-" + NatToString(-n) else NatToString(n)
  }

  lemma {:induction false} NatToStringValue(n: nat)
    ensures DigitsValue(NatToString(n)) == n
  {
    if n >= 10 {
      NatToStringValue(n / 10);
      var s := NatToString(n);
      assert s[..|s| - 1] == NatToString(n / 10);
    }
  }

  /** `parseInt` reads back what `String` wrote: the two are inverse on integers, and
      `parseInt` stops at the first character after the digits. */
  lemma ParseIntOfIntToString(n: int, rest: string)
    requires rest == [] || !IsDigit(rest[0])
    ensures ParseInt(IntToString(n) + rest) == Some(n)
  {
    var s := IntToString(n) + rest;
    if n < 0 {
      ConcatAssoc("-", NatToString(-n), rest);
      ParseIntOfNegative(-n, rest, s);
    } else {
      ParseIntOfNatural(n, rest, s);
    }
  }

  lemma ConcatAssoc<T>(a: seq<T>, b: seq<T>, c: seq<T>)
    ensures (a + b) + c == a + (b + c)
  {
  }

  lemma ParseIntOfNegative(m: nat, rest: string, s: string)
    requires rest == [] || !IsDigit(rest[0])
    requires s == "-" + (NatToString(m) + rest)
    ensures ParseInt(s) == Some(0 - m)
  {
    var body := NatToString(m) + rest;
    assert DigitsValue(DigitPrefix(body)) == m by {
      NatToStringValue(m);
      DigitPrefixStops(NatToString(m), rest);
    }
    ParseIntSigned(s, body);
  }

  lemma ParseIntOfNatural(m: nat, rest: string, s: string)
    requires rest == [] || !IsDigit(rest[0])
    requires s == NatToString(m) + rest
    ensures ParseInt(s) == Some(m)
  {
    NatToStringValue(m);
    DigitPrefixStops(NatToString(m), rest);
    ParseIntUnsigned(s);
  }

  lemma ParseIntSigned(s: string, body: string)
    requires s == "-" + body && DigitPrefix(body) != []
    ensures ParseInt(s) == Some(0 - DigitsValue(DigitPrefix(body)) as int)
  {
    TrimStartNonSpace(s);
    assert s[1..] == body;
  }

  lemma ParseIntUnsigned(s: string)
    requires DigitPrefix(s) != []
    ensures ParseInt(s) == Some(DigitsValue(DigitPrefix(s)) as int)
  {
    TrimStartNonSpace(s);
  }

  lemma TrimStartNonSpace(s: string)
    requires s != [] && !IsSpace(s[0])
    ensures TrimStart(s) == s
  {
  }

  /** The digit run of `d + rest` is `d` when `d` is all digits and `rest` does not start
      with one. */
  lemma {:induction false} DigitPrefixStops(d: string, rest: string)
    requires forall i :: 0 <= i < |d| ==> IsDigit(d[i])
    requires rest == [] || !IsDigit(rest[0])
    ensures DigitPrefix(d + rest) == d
  {
    if d != [] {
      DigitPrefixStops(d[1..], rest);
      assert d + rest == [d[0]] + (d[1..] + rest);
    } else {
      assert d + rest == rest;
    }
  }
}
