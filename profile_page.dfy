/** The computations of public/profile.js: the role read off an employee ID, the profile
    endpoint chosen at load time, the role and gender labels, and the checks made before a
    profile update is sent. */
module ProfilePage {
  import opened Common

  // ---------------------------------------------------------------------------------
  // `determineRole`

  /** The role of an employee ID: its first character, or its first two when it starts
      with 'C' and is longer than one character. NULL for a missing ID. */
  function DetermineRole(id: string): (r: Option<string>)
    ensures r.None? <==> id == ""
    ensures r == Some("clerk") <==> id == "C"
    ensures r == Some("chief jailor") <==> |id| >= 2 && id[..2] == "CJ"
    ensures id != "" && id[0] == 'W' ==> r == Some("warden")
    ensures id != "" && id[0] == 'J' ==> r == Some("jailor")
    ensures id != "" && id[0] == 'G' ==> r == Some("guard")
    ensures id != "" && id[0] == 'T' ==> r == Some("technician")
    ensures id != "" && id[0] !in {'W', 'J', 'G', 'T', 'C'} ==> r == Some("employee")
    ensures |id| >= 2 && id[0] == 'C' && id[1] != 'J' ==> r == Some("employee")
  {
    if id == "" then None
    else
      var prefix := if id[0] == 'C' && |id| > 1 then id[..2] else id[..1];
      assert |prefix| == 1 ==> prefix == [id[0]];
      assert |prefix| == 2 ==> prefix == [id[0], id[1]] && id[0] == 'C';
      assert prefix == "C" <==> id == "C";
      assert "G" == ['G'] && "T" == ['T'];
      Some(match prefix
           case "W" => "warden"
           case "CJ" => "chief jailor"
           case "J" => "jailor"
           case "G" => "guard"
           case "C" => "clerk"
           case "T" => "technician"
           case _ => "employee")
  }

  // ---------------------------------------------------------------------------------
  // Endpoint selection at load time

  datatype Endpoint = AdminProfile | WardenProfile | JailorProfile | ChiefJailorProfile |
                      ClerkProfile | GuardProfile | EmployeeProfile

  /** The route the page fetches for a signed-in user: the admin profile for the admin
      role; otherwise the upper-cased first letter of the user name picks the route, 'C'
      going to the chief jailor for names starting with 'CJ' and to the clerk otherwise.
      `None`: no user name, the page goes back to the login screen. */
  function ProfileEndpoint(userRole: string, username: string): (r: Option<Endpoint>)
    ensures r.None? <==> username == ""
    ensures username != "" && userRole == "admin" ==> r == Some(AdminProfile)
    ensures username != "" && userRole != "admin" && UpperChar(username[0]) == 'C' ==>
              r == (if |username| >= 2 && username[..2] == "CJ" then Some(ChiefJailorProfile) else Some(ClerkProfile))
    ensures username != "" && userRole != "admin" && UpperChar(username[0]) == 'W' ==> r == Some(WardenProfile)
    ensures username != "" && userRole != "admin" && UpperChar(username[0]) == 'J' ==> r == Some(JailorProfile)
    ensures username != "" && userRole != "admin" && UpperChar(username[0]) == 'G' ==> r == Some(GuardProfile)
    ensures (username != "" && userRole != "admin" && UpperChar(username[0]) !in {'W', 'J', 'C', 'G'}) ==>
              r == Some(EmployeeProfile)
  {
    if username == "" then None
    else if userRole == "admin" then Some(AdminProfile)
    else
      match UpperChar(username[0])
      case 'W' => Some(WardenProfile)
      case 'J' => Some(JailorProfile)
      case 'C' => if |username| >= 2 && username[..2] == "CJ" then Some(ChiefJailorProfile) else Some(ClerkProfile)
      case 'G' => Some(GuardProfile)
      case _ => Some(EmployeeProfile)
  }

  /** The URL of an endpoint for a user name. */
  function EndpointPath(e: Endpoint, username: string): string {
    match e
    case AdminProfile => "/api/admin/profile/" + username
    case WardenProfile => "/api/warden/" + username
    case JailorProfile => "/api/jailor/" + username
    case ChiefJailorProfile => "/api/chief-jailor/" + username
    case ClerkProfile => "/api/clerk/" + username
    case GuardProfile => "/api/guard/" + username
    case EmployeeProfile => "/api/employee/" + username
  }

  /** The two readings of a user name disagree on clerks: a name such as "C7" loads the
      clerk profile, yet its role is shown as 'employee'; only the name "C" is a clerk
      for both. */
  lemma ClerkEndpointButEmployeeRole(username: string)
    requires |username| >= 2 && username[0] == 'C' && username[1] != 'J'
    ensures ProfileEndpoint("user", username) == Some(ClerkProfile)
    ensures DetermineRole(username) == Some("employee")
  {
    assert username[..2] != "CJ" by {
      assert username[..2][1] == username[1];
    }
    assert username[..2] != "W" && username[..2] != "J" && username[..2] != "G" &&
           username[..2] != "C" && username[..2] != "T";
  }

  // ---------------------------------------------------------------------------------
  // `formatRoleName`

  /** `s.split(' ')`: the pieces between spaces, in order (empty pieces included). */
  function SplitSpaces(s: string): (r: seq<string>)
    ensures |r| >= 1
    ensures forall w :: w in r ==> ' ' !in w
    decreases |s|
  {
    var k := SpaceIndex(s);
    if k == |s| then [s] else [s[..k]] + SplitSpaces(s[k + 1..])
  }

  /** `words.join(' ')` */
  function JoinSpaces(ws: seq<string>): string
    requires |ws| >= 1
  {
    if |ws| == 1 then ws[0] else ws[0] + " " + JoinSpaces(ws[1..])
  }

  /** Splitting a joined list of space-free words gives the words back. */
  lemma {:induction false} SplitJoin(ws: seq<string>)
    requires |ws| >= 1 && forall w :: w in ws ==> ' ' !in w
    ensures SplitSpaces(JoinSpaces(ws)) == ws
  {
    if |ws| == 1 {
      SpaceIndexNone(ws[0]);
    } else {
      var rest := JoinSpaces(ws[1..]);
      var s := ws[0] + " " + rest;
      SpaceIndexSplit(ws[0], rest);
      assert s[..|ws[0]|] == ws[0];
      assert s[|ws[0]| + 1..] == rest;
      assert forall w :: w in ws[1..] ==> w in ws;
      SplitJoin(ws[1..]);
      assert ws == [ws[0]] + ws[1..];
    }
  }

  lemma SpaceIndexNone(s: string)
    requires ' ' !in s
    ensures SpaceIndex(s) == |s|
  {
  }

  /** One word: the first character upper-cased, the rest lower-cased. */
  function CapitalizeWord(w: string): (r: string)
    ensures |r| == |w|
    ensures ' ' !in w ==> ' ' !in r
  {
    if w == "" then "" else
      var r := [UpperChar(w[0])] + Lower(w[1..]);
      assert forall i :: 0 < i < |r| ==> r[i] == LowerChar(w[i]);
      r
  }

  function CapitalizeWords(ws: seq<string>): (r: seq<string>)
    ensures |r| == |ws|
    ensures forall i :: 0 <= i < |ws| ==> r[i] == CapitalizeWord(ws[i])
  {
    seq(|ws|, i requires 0 <= i < |ws| => CapitalizeWord(ws[i]))
  }

  /** `formatRoleName`: 'Employee' for a missing or empty role; otherwise each
      space-separated word capitalized. */
  function FormatRoleName(role: Option<string>): (r: string)
    ensures role.None? || role.value == "" ==> r == "Employee"
  {
    if role.None? || role.value == "" then "Employee"
    else JoinSpaces(CapitalizeWords(SplitSpaces(role.value)))
  }

  /** The words of the label are the words of the role, each capitalized. */
  lemma FormatRoleNameWords(role: string)
    requires role != ""
    ensures SplitSpaces(FormatRoleName(Some(role))) == CapitalizeWords(SplitSpaces(role))
  {
    var ws := CapitalizeWords(SplitSpaces(role));
    forall w | w in ws ensures ' ' !in w {
      var i :| 0 <= i < |ws| && ws[i] == w;
      assert SplitSpaces(role)[i] in SplitSpaces(role);
    }
    SplitJoin(ws);
  }

  lemma CapitalizeWordIdempotent(w: string)
    ensures CapitalizeWord(CapitalizeWord(w)) == CapitalizeWord(w)
  {
    if w != "" {
      var r := CapitalizeWord(w);
      assert r[1..] == Lower(w[1..]);
      LowerIdempotent(w[1..]);
    }
  }

  /** Formatting a formatted role name changes nothing. */
  lemma FormatRoleNameIdempotent(role: Option<string>)
    ensures FormatRoleName(Some(FormatRoleName(role))) == FormatRoleName(role)
  {
    if role.Some? && role.value != "" {
      WordsIdempotent(role.value);
    } else {
      EmployeeUnchanged();
    }
  }

  lemma WordsIdempotent(role: string)
    requires role != ""
    ensures FormatRoleName(Some(FormatRoleName(Some(role)))) == FormatRoleName(Some(role))
  {
    var parts := SplitSpaces(role);
    var ws := CapitalizeWords(parts);
    FormatRoleNameNonEmpty(role);
    FormatRoleNameWords(role);
    forall i | 0 <= i < |ws| ensures CapitalizeWord(ws[i]) == ws[i] {
      CapitalizeWordIdempotent(parts[i]);
    }
    assert CapitalizeWords(ws) == ws;
  }

  lemma FormatRoleNameNonEmpty(role: string)
    requires role != ""
    ensures FormatRoleName(Some(role)) != ""
  {
    var ws := CapitalizeWords(SplitSpaces(role));
    if |ws| == 1 {
      assert SpaceIndex(role) == |role|;
      assert |ws[0]| == |role|;
    }
  }

  /** The fallback label is itself a formatted role name. */
  lemma EmployeeUnchanged()
    ensures FormatRoleName(Some("Employee")) == "Employee"
  {
    EmployeeOneWord();
    EmployeeCapitalized();
    assert CapitalizeWords(["Employee"]) == ["Employee"];
  }

  lemma EmployeeOneWord()
    ensures SplitSpaces("Employee") == ["Employee"]
  {
    var e := "Employee";
    assert ' ' !in e by {
      assert forall i :: 0 <= i < |e| ==> e[i] != ' ';
    }
    SpaceIndexNone(e);
  }

  lemma EmployeeCapitalized()
    ensures CapitalizeWord("Employee") == "Employee"
  {
    var e := "Employee";
    assert e[1..] == "mployee";
    LowerOfLowerCase("mployee");
  }

  /** A word with no upper-case letter is its own lower-case form. */
  lemma LowerOfLowerCase(s: string)
    requires forall i :: 0 <= i < |s| ==> !('A' <= s[i] <= 'Z')
    ensures Lower(s) == s
  {
  }

  // ---------------------------------------------------------------------------------
  // `formatGender`

  /** 'Not specified' for a missing gender, 'Male' for 'M', 'Female' for 'F', anything
      else as stored. */
  function FormatGender(gender: string): (r: string)
    ensures gender == "" ==> r == "Not specified"
    ensures gender == "M" ==> r == "Male"
    ensures gender == "F" ==> r == "Female"
    ensures gender !in {"", "M", "F"} ==> r == gender
    ensures r != "" && r != "M" && r != "F"
  {
    if gender == "" then "Not specified"
    else if gender == "M" then "Male"
    else if gender == "F" then "Female"
    else gender
  }

  /** Formatting a formatted gender changes nothing. */
  lemma FormatGenderIdempotent(gender: string)
    ensures FormatGender(FormatGender(gender)) == FormatGender(gender)
  {
  }

  // ---------------------------------------------------------------------------------
  // `validateProfileData`

  /** `s.replace(/\s/g, '')` on the ASCII white space. */
  function RemoveSpaces(s: string): (r: string)
    ensures forall i :: 0 <= i < |r| ==> !IsSpace(r[i])
  {
    var r := Filter(s, NotSpace);
    assert forall i :: 0 <= i < |r| ==> r[i] in r;
    r
  }

  predicate NotSpace(c: char) {
    !IsSpace(c)
  }

  /** `/^\+?[\d\s]{10,15}$/` on a string without white space: an optional '+' and then
      ten to fifteen digits. */
  predicate PhonePattern(c: string) {
    var digits := if c != [] && c[0] == '+' then c[1..] else c;
    10 <= |digits| <= 15 && forall i :: 0 <= i < |digits| ==> IsDigit(digits[i])
  }

  predicate IsBlank(s: string) {
    forall i :: 0 <= i < |s| ==> IsSpace(s[i])
  }

  /** The first failing check's message, `None` when the update may be sent: the contact
      without its white space must be an optional '+' and 10 to 15 digits, the age must
      not parse to a number outside 18..70 (an unparsable age passes), and the salary must
      not be blank. */
  function ValidateProfileData(contact: string, age: string, salary: string): (r: Option<string>)
    ensures r == Some("Please enter a valid phone number.") <==> !PhonePattern(RemoveSpaces(contact))
    ensures r == Some("Age must be between 18 and 70.") <==>
              PhonePattern(RemoveSpaces(contact)) && ParseInt(age).Some? &&
              (ParseInt(age).value < 18 || ParseInt(age).value > 70)
    ensures r == Some("Salary cannot be empty.") <==>
              PhonePattern(RemoveSpaces(contact)) &&
              !(ParseInt(age).Some? && (ParseInt(age).value < 18 || ParseInt(age).value > 70)) &&
              IsBlank(salary)
    ensures r.None? <==>
              PhonePattern(RemoveSpaces(contact)) &&
              (ParseInt(age).None? || 18 <= ParseInt(age).value <= 70) &&
              !IsBlank(salary)
  {
    var n := ParseInt(age);
    if !PhonePattern(RemoveSpaces(contact)) then Some("Please enter a valid phone number.")
    else if n.Some? && (n.value < 18 || n.value > 70) then Some("Age must be between 18 and 70.")
    else if IsBlank(salary) then Some("Salary cannot be empty.")
    else None
  }

  /** White space anywhere in the contact does not change the verdict. */
  lemma ContactSpacingIgnored(a: string, b: string, c: char)
    requires IsSpace(c)
    ensures PhonePattern(RemoveSpaces(a + [c] + b)) == PhonePattern(RemoveSpaces(a + b))
  {
    FilterAppend(a + [c], b, NotSpace);
    FilterAppend(a, [c], NotSpace);
    FilterAppend(a, b, NotSpace);
    assert Filter([c], NotSpace) == [] by {
      assert [c][1..] == [];
    }
    assert RemoveSpaces(a + [c] + b) == RemoveSpaces(a + b);
  }
}
