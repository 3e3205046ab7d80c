/** The account rules of the login page: the password and e-mail checks
    of the sign-up form, the credential lookup over the user file, the
    e-mail lookup and the menu each role sees. The user file is the list
    of its rows, oldest first. */
module Accounts {
  import opened Wrappers

  /** One row of the user file. */
  datatype UserRecord = UserRecord(username: string, email: string, password: string, role: string)

  // ---------------------------------------------------------------------
  // Characters

  /** The characters `str.strip()` removes: the code points Python counts
      as whitespace. */
  predicate IsSpace(c: char) {
    var n := c as int;
    || 0x09 <= n <= 0x0D || 0x1C <= n <= 0x20
    || n == 0x85 || n == 0xA0 || n == 0x1680
    || 0x2000 <= n <= 0x200A
    || n == 0x2028 || n == 0x2029 || n == 0x202F || n == 0x205F || n == 0x3000
  }

  predicate IsAsciiLetter(c: char) {
    'a' <= c <= 'z' || 'A' <= c <= 'Z'
  }

  predicate IsAsciiDigit(c: char) {
    '0' <= c <= '9'
  }

  // ---------------------------------------------------------------------
  // Strip and lower

  /** Number of whitespace characters `s` starts with. */
  function LeadingSpaces(s: string): (n: nat)
    ensures n <= |s| && (n < |s| ==> !IsSpace(s[n]))
    ensures forall i :: 0 <= i < n ==> IsSpace(s[i])
  {
    if s == [] || !IsSpace(s[0]) then 0 else 1 + LeadingSpaces(s[1..])
  }

  /** Number of whitespace characters `s` ends with. */
  function TrailingSpaces(s: string): (n: nat)
    ensures n <= |s| && (n < |s| ==> !IsSpace(s[|s| - 1 - n]))
    ensures forall i :: |s| - n <= i < |s| ==> IsSpace(s[i])
  {
    if s == [] || !IsSpace(s[|s| - 1]) then 0 else 1 + TrailingSpaces(s[..|s| - 1])
  }

  /** `str.strip()`: the text between the leading and the trailing
      whitespace. */
  function Strip(s: string): (r: string)
    ensures |r| <= |s|
    ensures r == [] || (!IsSpace(r[0]) && !IsSpace(r[|r| - 1]))
  {
    var a := LeadingSpaces(s);
    if a == |s| then [] else s[a..|s| - TrailingSpaces(s)]
  }

  /** What `Strip` removes is whitespace at either end and nothing else:
      it returns the slice of `s` starting at `i`. */
  lemma StripIsTrim(s: string) returns (i: nat)
    ensures i + |Strip(s)| <= |s| && Strip(s) == s[i..i + |Strip(s)|]
    ensures forall k :: 0 <= k < i ==> IsSpace(s[k])
    ensures forall k :: i + |Strip(s)| <= k < |s| ==> IsSpace(s[k])
  {
    i := LeadingSpaces(s);
  }

  /** Stripping twice strips nothing more. */
  lemma StripIdempotent(s: string)
    ensures Strip(Strip(s)) == Strip(s)
  {
  }

  function LowerChar(c: char): char {
    if 'A' <= c <= 'Z' then (c as int + 32) as char else c
  }

  /** `str.lower()` on ASCII letters. */
  function Lower(s: string): (r: string)
    ensures |r| == |s| && forall i :: 0 <= i < |s| ==> r[i] == LowerChar(s[i])
  {
    if s == [] then [] else [LowerChar(s[0])] + Lower(s[1..])
  }

  // ---------------------------------------------------------------------
  // Password

  function HasLetter(s: string): (b: bool)
    ensures b <==> exists i :: 0 <= i < |s| && IsAsciiLetter(s[i])
  {
    if s == [] then false
    else
      assert forall i :: 0 <= i < |s| - 1 ==> s[1..][i] == s[i + 1];
      IsAsciiLetter(s[0]) || HasLetter(s[1..])
  }

  function HasDigit(s: string): (b: bool)
    ensures b <==> exists i :: 0 <= i < |s| && IsAsciiDigit(s[i])
  {
    if s == [] then false
    else
      assert forall i :: 0 <= i < |s| - 1 ==> s[1..][i] == s[i + 1];
      IsAsciiDigit(s[0]) || HasDigit(s[1..])
  }

  const MinPasswordLength: nat := 6

  /** `is_valid_password`: at least six characters, among them a letter
      and a digit. */
  function IsValidPassword(p: string): (ok: bool)
    ensures ok <==> |p| >= MinPasswordLength
                    && (exists i :: 0 <= i < |p| && IsAsciiLetter(p[i]))
                    && (exists i :: 0 <= i < |p| && IsAsciiDigit(p[i]))
  {
    if |p| < MinPasswordLength then false else HasLetter(p) && HasDigit(p)
  }

  // ---------------------------------------------------------------------
  // E-mail

  /** `[a-zA-Z0-9._%+-]` */
  predicate IsLocalChar(c: char) {
    IsAsciiLetter(c) || IsAsciiDigit(c) || c in "._%+-"
  }

  /** `[a-zA-Z0-9.-]` */
  predicate IsDomainChar(c: char) {
    IsAsciiLetter(c) || IsAsciiDigit(c) || c == '.' || c == '-'
  }

  predicate AllFrom(s: string, lo: int, hi: int, ok: char -> bool)
    requires 0 <= lo <= hi <= |s|
  {
    forall i :: lo <= i < hi ==> ok(s[i])
  }

  /** The pattern `[a-zA-Z0-9._%+-]+@[a-zA-Z0-9.-]+\.[a-zA-Z]{2,}` matching
      the whole of `s`, read off the pattern: a non-empty local part, an
      `@` at `at`, a non-empty domain part, a dot at `dot` and at least two
      letters after it. */
  ghost predicate EmailShape(s: string) {
    exists at: nat, dot: nat :: 0 < at && at + 1 < dot && dot + 3 <= |s|
      && s[at] == '@' && s[dot] == '.'
      && AllFrom(s, 0, at, IsLocalChar)
      && AllFrom(s, at + 1, dot, IsDomainChar)
      && AllFrom(s, dot + 1, |s|, IsAsciiLetter)
  }

  /** Index of the first `c` in `s`, if any. */
  function Find(s: string, c: char): (r: Option<nat>)
    ensures r.None? <==> c !in s
    ensures r.Some? ==> r.value < |s| && s[r.value] == c && c !in s[..r.value]
  {
    if s == [] then None
    else if s[0] == c then Some(0)
    else
      match Find(s[1..], c)
      case None => None
      case Some(k) =>
        assert s[..k + 1] == [s[0]] + s[1..][..k];
        Some(k + 1)
  }

  /** Index of the last `c` in `s`, if any. */
  function FindLast(s: string, c: char): (r: Option<nat>)
    ensures r.None? <==> c !in s
    ensures r.Some? ==> r.value < |s| && s[r.value] == c && c !in s[r.value + 1..]
  {
    if s == [] then None
    else if s[|s| - 1] == c then Some(|s| - 1)
    else
      var r := FindLast(s[..|s| - 1], c);
      if r.Some? then
        assert s[r.value + 1..] == s[..|s| - 1][r.value + 1..] + [s[|s| - 1]];
        r
      else r
  }

  /** The whole-string match, computed: the `@` is the first one (the
      local part cannot hold one) and the dot is the last one (the
      letters after it cannot hold one). */
  function MatchesEmail(s: string): (ok: bool)
  {
    match Find(s, '@')
    case None => false
    case Some(at) =>
      match FindLast(s, '.')
      case None => false
      case Some(dot) =>
        0 < at && at + 1 < dot && dot + 3 <= |s|
        && AllFrom(s, 0, at, IsLocalChar)
        && AllFrom(s, at + 1, dot, IsDomainChar)
        && AllFrom(s, dot + 1, |s|, IsAsciiLetter)
  }

  /** The search agrees with the pattern in both directions. */
  lemma MatchesEmailShape(s: string)
    ensures MatchesEmail(s) <==> EmailShape(s)
  {
    if EmailShape(s) {
      var at: nat, dot: nat :| 0 < at && at + 1 < dot && dot + 3 <= |s|
        && s[at] == '@' && s[dot] == '.'
        && AllFrom(s, 0, at, IsLocalChar)
        && AllFrom(s, at + 1, dot, IsDomainChar)
        && AllFrom(s, dot + 1, |s|, IsAsciiLetter);
      var at' := Find(s, '@').value;
      var dot' := FindLast(s, '.').value;
      assert at' == at;
      assert dot' == dot;
    }
  }

  /** `is_valid_email`: `re.match` with a final `$`, which also accepts one
      newline after the match. */
  function IsValidEmail(e: string): (ok: bool)
    ensures ok <==> EmailShape(e) || (|e| > 0 && e[|e| - 1] == '\n' && EmailShape(e[..|e| - 1]))
  {
    MatchesEmailShape(e);
    if |e| > 0 && e[|e| - 1] == '\n' then MatchesEmailShape(e[..|e| - 1]); MatchesEmail(e) || MatchesEmail(e[..|e| - 1])
    else MatchesEmail(e)
  }

  // ---------------------------------------------------------------------
  // Lookups over the user file

  /** Row `r` matches the login when its stripped, lower-cased username
      equals the stripped, lower-cased input and its stripped password
      equals the stripped input. */
  predicate Matches(r: UserRecord, username: string, password: string) {
    LoginKey(r.username, r.password) == LoginKey(username, password)
  }

  /** The stripped, lower-cased username and the stripped password. */
  function LoginKey(username: string, password: string): (string, string) {
    (Lower(Strip(username)), Strip(password))
  }

  /** Position of the first row satisfying `p`, if any. */
  function FirstWhere(records: seq<UserRecord>, p: UserRecord -> bool): (k: Option<nat>)
    ensures k.None? <==> forall i :: 0 <= i < |records| ==> !p(records[i])
    ensures k.Some? ==> k.value < |records| && p(records[k.value])
    ensures k.Some? ==> forall i :: 0 <= i < k.value ==> !p(records[i])
  {
    if records == [] then None
    else
      var init := records[..|records| - 1];
      var k := FirstWhere(init, p);
      assert forall i :: 0 <= i < |init| ==> init[i] == records[i];
      if k.Some? then k
      else if p(records[|records| - 1]) then Some(|records| - 1)
      else None
  }

  /** `validate_user`: the role of the first matching row, or nothing
      (also when the file does not exist, which is an empty list). */
  function ValidateUser(records: seq<UserRecord>, username: string, password: string): (role: Option<string>)
    ensures role.None? <==> forall i :: 0 <= i < |records| ==> !Matches(records[i], username, password)
    ensures role.Some? ==> exists i :: (0 <= i < |records| && Matches(records[i], username, password)
      && role.value == records[i].role
      && forall k :: 0 <= k < i ==> !Matches(records[k], username, password))
  {
    match FirstWhere(records, r => Matches(r, username, password))
    case None => None
    case Some(k) => Some(records[k].role)
  }

  /** Appending a row leaves the answer for earlier matches alone and
      answers with the new row's role when nothing earlier matched. */
  lemma ValidateUserAppend(records: seq<UserRecord>, r: UserRecord, username: string, password: string)
    ensures ValidateUser(records, username, password).Some? ==>
      ValidateUser(records + [r], username, password) == ValidateUser(records, username, password)
    ensures ValidateUser(records, username, password).None? ==>
      ValidateUser(records + [r], username, password) == if Matches(r, username, password) then Some(r.role) else None
  {
    var all := records + [r];
    var p := (x: UserRecord) => Matches(x, username, password);
    assert all[..|all| - 1] == records;
    assert FirstWhere(all, p) == if FirstWhere(records, p).Some? then FirstWhere(records, p)
      else if p(r) then Some(|records|) else None;
  }

  /** `is_email_registered`: some row's e-mail is exactly the input. */
  function IsEmailRegistered(records: seq<UserRecord>, email: string): (b: bool)
    ensures b <==> exists i :: 0 <= i < |records| && records[i].email == email
  {
    if records == [] then false
    else
      assert forall i :: 0 <= i < |records| - 1 ==> records[1..][i] == records[i + 1];
      records[0].email == email || IsEmailRegistered(records[1..], email)
  }

  // ---------------------------------------------------------------------
  // Menus

  const Logout := "Logout"

  /** `get_pages_by_role`. */
  function PagesByRole(role: Option<string>): (pages: seq<string>)
    ensures role == Some("admin") ==> pages == ["Admin Page", "PTR Page", "JIRA Page", Logout]
    ensures role == Some("user") ==> pages == ["PTR Page", "JIRA Page", Logout]
    ensures role == Some("guest") ==> pages == ["Guest Page", Logout]
    ensures role !in {Some("admin"), Some("user"), Some("guest")} ==> pages == []
  {
    match role
    case Some("admin") => ["Admin Page", "PTR Page", "JIRA Page", Logout]
    case Some("user") => ["PTR Page", "JIRA Page", Logout]
    case Some("guest") => ["Guest Page", Logout]
    case _ => []
  }

  /** Every menu that is not empty ends with the logout entry, and only
      the admin sees the admin page. */
  lemma MenuShape(role: Option<string>)
    ensures var pages := PagesByRole(role);
      (pages == [] || pages[|pages| - 1] == Logout)
      && ("Admin Page" in pages <==> role == Some("admin"))
      && ("PTR Page" in pages <==> role == Some("admin") || role == Some("user"))
      && (pages != [] <==> role in {Some("admin"), Some("user"), Some("guest")})
  {
  }
}
