/** The computations of public/lawyer.js: the phone column, the search box, and the case
    table of the lawyer details modal. */
module LawyerPage {
  import opened Common
  import CasesPage

  /** `formatPhone`: 'N/A' when missing; a number that already holds a space, '-' or '+'
      is left alone; ten characters become XXX-XXX-XXXX; any other length is left alone. */
  function FormatPhone(phone: string): (r: string)
    ensures phone == "" ==> r == "N/A"
    ensures phone != "" && (' ' in phone || '-' in phone || '+' in phone) ==> r == phone
    ensures phone != "" && ' ' !in phone && '-' !in phone && '+' !in phone ==>
              if |phone| == 10 then
                |r| == 12 && r[3] == '-' && r[7] == '-' && r[..3] + r[4..7] + r[8..] == phone
              else r == phone
  {
    if phone == "" then "N/A"
    else if ' ' in phone || '-' in phone || '+' in phone then phone
    else if |phone| == 10 then
      var r := phone[..3] + "-" + phone[3..6] + "-" + phone[6..];
      assert r[..3] == phone[..3] && r[4..7] == phone[3..6] && r[8..] == phone[6..];
      assert phone == phone[..3] + phone[3..6] + phone[6..];
      r
    else phone
  }

  /** Formatting a formatted number changes nothing. */
  lemma FormatPhoneIdempotent(phone: string)
    ensures FormatPhone(FormatPhone(phone)) == FormatPhone(phone)
  {
    var r := FormatPhone(phone);
    if phone != "" && ' ' !in phone && '-' !in phone && '+' !in phone && |phone| == 10 {
      assert r[3] == '-';
    } else if phone == "" {
      assert r == "N/A" && |r| == 3;
      assert ' ' !in r && '-' !in r && '+' !in r by {
        assert r[0] == 'N' && r[1] == '/' && r[2] == 'A';
      }
    }
  }

  /** `capitalize`: '' for a missing or empty string, otherwise the first character
      upper-cased and the rest kept. */
  function Capitalize(s: Option<string>): (r: string)
    ensures s.None? || s.value == "" ==> r == ""
    ensures s.Some? ==> |r| == |s.value|
    ensures s.Some? && s.value != "" ==> r[0] == UpperChar(s.value[0]) && r[1..] == s.value[1..]
  {
    if s.None? then "" else UpperFirst(s.value)
  }

  /** The details modal labels a case's status as its card on the cases page does. */
  lemma ModalStatusMatchesCaseCard(status: string)
    ensures Capitalize(Some(status)) == CasesPage.StatusLabel(status)
  {
  }

  /** A lawyer as `GET /api/lawyers` sends it. */
  datatype Lawyer = Lawyer(lawyerID: string, name: string, contactNo: Option<string>)

  /** The search predicate; `term` is already lower-cased. */
  predicate MatchesSearch(l: Lawyer, term: string) {
    Contains(Lower(l.lawyerID), term) || Contains(Lower(l.name), term) ||
    (l.contactNo.Some? && Contains(Lower(l.contactNo.value), term))
  }

  /** `filterLawyers`: an empty term shows every lawyer; otherwise, in order, the lawyers
      whose ID, name or contact number contains it. */
  function FilterLawyers(all: seq<Lawyer>, term: string): (r: seq<Lawyer>)
    ensures term == "" ==> r == all
    ensures term != "" ==> forall l :: l in r <==> l in all && MatchesSearch(l, term)
    ensures |r| <= |all|
  {
    if term == "" then all
    else
      FilterMembershipAll(all, (l: Lawyer) => MatchesSearch(l, term));
      Filter(all, (l: Lawyer) => MatchesSearch(l, term))
  }
}
