/** The accumulating validators: every check that fails adds one
    (field, problem) entry, nothing stops early except an empty required
    field, and each entry point starts from a cleared error list.

    The error dictionary of the source maps a field to its messages in the
    order they were added; here it is the sequence of entries in insertion
    order, and `ErrorsFor` reads one field's list back from it. The
    messages themselves are the `Problem` values. */
module EntityValidators {
  import opened Wrappers
  import opened Text
  import opened Patterns
  import SolutionEntity

  datatype Field =
    | UsernameField | EmailField | FullNameField | PasswordField | RoleField
    | NameField | DescriptionField | RepositoryUrlField | SolutionTypeField | VersionField | AccessUrlField
    | UserIdField | SolutionIdField | UserIdsField | SolutionIdsField

  datatype Problem =
    | Required | TooShort | TooLong | BadCharacters | Reserved
    | BadFormat | BlockedDomain | DigitRun | NoSurname | Weak | Common
    | Unknown | NotHttp | NotPositive | NoneSelected | TooMany | Unparsable

  datatype FieldError = FieldError(field: Field, problem: Problem)

  // ---------------------------------------------------------------------
  // BaseValidator
  // ---------------------------------------------------------------------

  datatype Validator = Validator(errors: seq<FieldError>)

  /** One field's messages, in the order they were added. */
  function ErrorsFor(errors: seq<FieldError>, f: Field): (r: seq<Problem>)
    ensures |r| <= |errors|
  {
    if errors == [] then []
    else (if errors[0].field == f then [errors[0].problem] else []) + ErrorsFor(errors[1..], f)
  }

  lemma {:induction false} ErrorsForConcat(a: seq<FieldError>, b: seq<FieldError>, f: Field)
    ensures ErrorsFor(a + b, f) == ErrorsFor(a, f) + ErrorsFor(b, f)
    decreases |a|
  {
    if a != [] {
      var h := if a[0].field == f then [a[0].problem] else [];
      assert ErrorsFor(a + b, f) == h + ErrorsFor(a[1..] + b, f) by {
        assert (a + b)[0] == a[0];
        assert (a + b)[1..] == a[1..] + b;
      }
      ErrorsForConcat(a[1..], b, f);
      assert h + (ErrorsFor(a[1..], f) + ErrorsFor(b, f)) == (h + ErrorsFor(a[1..], f)) + ErrorsFor(b, f);
    } else {
      assert a + b == b;
    }
  }

  /** A field's problems as entries of the error list. */
  function Tag(f: Field, problems: seq<Problem>): (r: seq<FieldError>)
    ensures |r| == |problems|
  {
    seq(|problems|, i requires 0 <= i < |problems| => FieldError(f, problems[i]))
  }

  /** Reading back a tagged list gives the problems for its own field and
      nothing for any other. */
  lemma {:induction false} ErrorsForTag(f: Field, problems: seq<Problem>, g: Field)
    ensures ErrorsFor(Tag(f, problems), g) == if f == g then problems else []
    decreases |problems|
  {
    if problems != [] {
      assert Tag(f, problems)[1..] == Tag(f, problems[1..]);
      ErrorsForTag(f, problems[1..], g);
      assert problems == [problems[0]] + problems[1..];
    }
  }

  function AddError(v: Validator, f: Field, p: Problem): (r: Validator)
    ensures ErrorsFor(r.errors, f) == ErrorsFor(v.errors, f) + [p]
    ensures forall g | g != f :: ErrorsFor(r.errors, g) == ErrorsFor(v.errors, g)
  {
    var r := Validator(v.errors + [FieldError(f, p)]);
    forall g ensures ErrorsFor(r.errors, g) == ErrorsFor(v.errors, g) + (if g == f then [p] else []) {
      ErrorsForConcat(v.errors, [FieldError(f, p)], g);
    }
    r
  }

  /** `is_valid`: no field holds a message. */
  predicate IsValid(v: Validator) { v.errors == [] }

  /** A validator with any error recorded is invalid; clearing makes it
      valid again. */
  lemma AddThenClear(v: Validator, f: Field, p: Problem)
    ensures !IsValid(AddError(v, f, p))
    ensures IsValid(ClearErrors(AddError(v, f, p)))
    ensures IsValid(v) <==> forall g :: ErrorsFor(v.errors, g) == []
  {
    if !IsValid(v) {
      assert ErrorsFor(v.errors, v.errors[0].field) != [];
    }
  }

  function ClearErrors(v: Validator): (r: Validator)
    ensures IsValid(r)
  {
    Validator([])
  }

  // ---------------------------------------------------------------------
  // UserValidator field checks
  // ---------------------------------------------------------------------

  /** The problem `p` when its check `failed`. */
  function When(failed: bool, p: Problem): (r: seq<Problem>)
    ensures p in r <==> failed
    ensures forall q :: q in r <==> failed && q == p
    ensures |r| <= 1
  {
    if failed then [p] else []
  }

  /** Which problems a run of three independent checks reports. */
  lemma InThree(b1: bool, p1: Problem, b2: bool, p2: Problem, b3: bool, p3: Problem)
    ensures forall q :: q in When(b1, p1) + When(b2, p2) + When(b3, p3) <==> (q == p1 && b1) || (q == p2 && b2) || (q == p3 && b3)
  {
    forall q ensures q in When(b1, p1) + When(b2, p2) + When(b3, p3) <==> q in When(b1, p1) || q in When(b2, p2) || q in When(b3, p3) {
    }
  }

  /** Which problems a run of four independent checks reports. */
  lemma InFour(b1: bool, p1: Problem, b2: bool, p2: Problem, b3: bool, p3: Problem, b4: bool, p4: Problem)
    ensures forall q :: q in When(b1, p1) + When(b2, p2) + When(b3, p3) + When(b4, p4)
                        <==> (q == p1 && b1) || (q == p2 && b2) || (q == p3 && b3) || (q == p4 && b4)
  {
    forall q ensures q in When(b1, p1) + When(b2, p2) + When(b3, p3) + When(b4, p4)
                     <==> q in When(b1, p1) || q in When(b2, p2) || q in When(b3, p3) || q in When(b4, p4) {
    }
  }

  const ReservedUsernames: seq<string> := ["admin", "root", "system", "api", "www", "mail", "ftp"]

  /** `_validate_username`: a missing name gives `Required` alone; otherwise
      each failing check on the stripped name adds its own problem. */
  function UsernameErrors(username: string): (r: seq<Problem>)
    ensures username == "" ==> r == [Required]
    ensures username != "" ==>
      var u := Strip(username);
      && (TooShort in r <==> |u| < 3)
      && (TooLong in r <==> |u| > 30)
      && (BadCharacters in r <==> !UsernameMatches(u))
      && (Reserved in r <==> Lower(u) in ReservedUsernames)
      && Required !in r
    ensures forall q | q in r :: q == Required || q == TooShort || q == TooLong || q == BadCharacters || q == Reserved
  {
    if username == "" then [Required]
    else
      var u := Strip(username);
      var b1, b2, b3, b4 := |u| < 3, |u| > 30, !UsernameMatches(u), Lower(u) in ReservedUsernames;
      InFour(b1, TooShort, b2, TooLong, b3, BadCharacters, b4, Reserved);
      When(b1, TooShort) + When(b2, TooLong) + When(b3, BadCharacters) + When(b4, Reserved)
  }

  const BlockedDomains: seq<string> := ["tempmail.com", "10minutemail.com", "guerrillamail.com"]

  /** The text after the first `@` up to the next one, as
      `email.split('@')[1]` gives it, or empty when there is no `@`. */
  function DomainOf(email: string): (d: string)
    ensures '@' !in d
    ensures '@' !in email ==> d == ""
  {
    if '@' in email then Split(email, '@')[1] else ""
  }

  /** Every address with an `@` reads `local@d` followed by nothing or by
      a further `@`, with no `@` in `local` or `d`; the domain is then `d`. */
  lemma DomainOfParts(local: string, d: string, rest: string)
    requires '@' !in local && '@' !in d && (rest == [] || rest[0] == '@')
    ensures DomainOf(local + ['@'] + d + rest) == d
  {
    assert local + ['@'] + d + rest == local + ['@'] + (d + rest);
    SplitAtFirst(local, '@', d + rest);
    if rest == [] {
      assert d + rest == d;
      assert IndexOf(d, '@').None?;
    } else {
      assert d + rest == d + ['@'] + rest[1..];
      SplitAtFirst(d, '@', rest[1..]);
    }
  }

  /** `_validate_email`: the address is stripped and lowercased before the
      pattern, length and blocked-domain checks. */
  function EmailErrors(email: string): (r: seq<Problem>)
    ensures email == "" ==> r == [Required]
    ensures email != "" ==>
      var e := Lower(Strip(email));
      && (BadFormat in r <==> !EmailMatches(e))
      && (TooLong in r <==> |e| > 254)
      && (BlockedDomain in r <==> DomainOf(e) in BlockedDomains)
      && Required !in r
    ensures forall q | q in r :: q == Required || q == BadFormat || q == TooLong || q == BlockedDomain
  {
    if email == "" then [Required]
    else
      var e := Lower(Strip(email));
      var b1, b2, b3 := !EmailMatches(e), |e| > 254, DomainOf(e) in BlockedDomains;
      InThree(b1, BadFormat, b2, TooLong, b3, BlockedDomain);
      When(b1, BadFormat) + When(b2, TooLong) + When(b3, BlockedDomain)
  }

  /** `\d{3,}` found anywhere. */
  predicate HasDigitRun(s: string) {
    exists i | 0 <= i && i + 3 <= |s| :: IsDigit(s[i]) && IsDigit(s[i + 1]) && IsDigit(s[i + 2])
  }

  /** `_validate_full_name`, on the stripped name. The source strips the
      name once more before looking for a space; stripping twice is
      stripping once (`Text.StripIdempotent`). */
  function FullNameErrors(fullName: string): (r: seq<Problem>)
    ensures fullName == "" ==> r == [Required]
    ensures fullName != "" ==>
      var n := Strip(fullName);
      && (TooShort in r <==> |n| < 2)
      && (TooLong in r <==> |n| > 100)
      && (DigitRun in r <==> HasDigitRun(n))
      && (NoSurname in r <==> ' ' !in n)
      && Required !in r
    ensures forall q | q in r :: q == Required || q == TooShort || q == TooLong || q == DigitRun || q == NoSurname
  {
    if fullName == "" then [Required]
    else
      var n := Strip(fullName);
      var b1, b2, b3, b4 := |n| < 2, |n| > 100, HasDigitRun(n), ' ' !in n;
      InFour(b1, TooShort, b2, TooLong, b3, DigitRun, b4, NoSurname);
      When(b1, TooShort) + When(b2, TooLong) + When(b3, DigitRun) + When(b4, NoSurname)
  }

  /** `[!@#$%^&*(),.?":{}|<>]` */
  predicate IsSpecial(c: char) {
    c in "!@#$%^&*(),.?\":{}|<>"
  }

  predicate HasChar(s: string, cls: char -> bool) {
    exists i | 0 <= i < |s| :: cls(s[i])
  }

  /** How many of upper case, lower case, digit and special character the
      password lacks. */
  function MissingCriteria(password: string): (n: nat)
    ensures n <= 4
    ensures n == 0 <==> HasChar(password, IsUpper) && HasChar(password, IsLower)
                        && HasChar(password, IsDigit) && HasChar(password, IsSpecial)
  {
    (if HasChar(password, IsUpper) then 0 else 1)
    + (if HasChar(password, IsLower) then 0 else 1)
    + (if HasChar(password, IsDigit) then 0 else 1)
    + (if HasChar(password, IsSpecial) then 0 else 1)
  }

  const CommonPasswords: seq<string> := ["password", "12345678", "qwerty123", "admin123"]

  /** `_validate_password`: the complexity problem needs two or more
      criteria missing; a password lacking only one kind passes it. */
  function PasswordErrors(password: string): (r: seq<Problem>)
    ensures password == "" ==> r == [Required]
    ensures password != "" ==>
      && (TooShort in r <==> |password| < 8)
      && (TooLong in r <==> |password| > 128)
      && (Weak in r <==> MissingCriteria(password) > 1)
      && (Common in r <==> Lower(password) in CommonPasswords)
      && Required !in r
    ensures forall q | q in r :: q == Required || q == TooShort || q == TooLong || q == Weak || q == Common
  {
    if password == "" then [Required]
    else
      var b1, b2, b3, b4 := |password| < 8, |password| > 128, MissingCriteria(password) > 1, Lower(password) in CommonPasswords;
      InFour(b1, TooShort, b2, TooLong, b3, Weak, b4, Common);
      When(b1, TooShort) + When(b2, TooLong) + When(b3, Weak) + When(b4, Common)
  }

  /** `_validate_role` */
  function RoleErrors(role: string): (r: seq<Problem>)
    ensures r == [] <==> role == "user" || role == "super_admin"
    ensures role == "" ==> r == [Required]
  {
    if role == "" then [Required]
    else if role != "user" && role != "super_admin" then [Unknown]
    else []
  }

  // ---------------------------------------------------------------------
  // UserValidator entry points
  // ---------------------------------------------------------------------

  function CreateUserErrors(username: string, email: string, fullName: string, password: string, role: string): seq<FieldError> {
    Tag(UsernameField, UsernameErrors(username)) + Tag(EmailField, EmailErrors(email))
    + Tag(FullNameField, FullNameErrors(fullName)) + Tag(PasswordField, PasswordErrors(password))
    + Tag(RoleField, RoleErrors(role))
  }

  /** `validate_create_user`: clears, runs the five field checks, and
      answers whether nothing was recorded. */
  function ValidateCreateUser(v: Validator, username: string, email: string, fullName: string, password: string, role: string)
    : (r: (Validator, bool))
    ensures r.1 <==> IsValid(r.0)
    ensures r.1 <==> UsernameErrors(username) == [] && EmailErrors(email) == [] && FullNameErrors(fullName) == []
                     && PasswordErrors(password) == [] && RoleErrors(role) == []
  {
    var errors := CreateUserErrors(username, email, fullName, password, role);
    (Validator(errors), errors == [])
  }

  /** Reading one field back from five tagged lists in a row. */
  lemma ErrorsForFive(f1: Field, p1: seq<Problem>, f2: Field, p2: seq<Problem>, f3: Field, p3: seq<Problem>,
                      f4: Field, p4: seq<Problem>, f5: Field, p5: seq<Problem>, g: Field)
    ensures ErrorsFor(Tag(f1, p1) + Tag(f2, p2) + Tag(f3, p3) + Tag(f4, p4) + Tag(f5, p5), g)
         == (if f1 == g then p1 else []) + (if f2 == g then p2 else []) + (if f3 == g then p3 else [])
            + (if f4 == g then p4 else []) + (if f5 == g then p5 else [])
  {
    var a, b, c, d, e := Tag(f1, p1), Tag(f2, p2), Tag(f3, p3), Tag(f4, p4), Tag(f5, p5);
    ErrorsForConcat(a + b + c + d, e, g);
    ErrorsForConcat(a + b + c, d, g);
    ErrorsForConcat(a + b, c, g);
    ErrorsForConcat(a, b, g);
    ErrorsForTag(f1, p1, g);
    ErrorsForTag(f2, p2, g);
    ErrorsForTag(f3, p3, g);
    ErrorsForTag(f4, p4, g);
    ErrorsForTag(f5, p5, g);
  }

  /** Each field's list after `validate_create_user` is exactly what its own
      check produced, whatever the validator held before. */
  lemma CreateUserFieldErrors(v: Validator, username: string, email: string, fullName: string, password: string, role: string,
                              g: Field)
    ensures ErrorsFor(ValidateCreateUser(v, username, email, fullName, password, role).0.errors, g)
         == match g
            case UsernameField => UsernameErrors(username)
            case EmailField => EmailErrors(email)
            case FullNameField => FullNameErrors(fullName)
            case PasswordField => PasswordErrors(password)
            case RoleField => RoleErrors(role)
            case _ => []
  {
    var p1, p2, p3 := UsernameErrors(username), EmailErrors(email), FullNameErrors(fullName);
    var p4, p5 := PasswordErrors(password), RoleErrors(role);
    ErrorsForFive(UsernameField, p1, EmailField, p2, FullNameField, p3, PasswordField, p4, RoleField, p5, g);
  }

  /** `validate_update_user`: no password check, and the role is checked
      only when one is given and non-empty. */
  function ValidateUpdateUser(v: Validator, username: string, email: string, fullName: string, role: Option<string>)
    : (r: (Validator, bool))
    ensures r.1 <==> IsValid(r.0)
    ensures r.1 <==> UsernameErrors(username) == [] && EmailErrors(email) == [] && FullNameErrors(fullName) == []
                     && (role.None? || role.value == "" || RoleErrors(role.value) == [])
  {
    var errors := Tag(UsernameField, UsernameErrors(username)) + Tag(EmailField, EmailErrors(email))
                  + Tag(FullNameField, FullNameErrors(fullName))
                  + (if role.Some? && role.value != "" then Tag(RoleField, RoleErrors(role.value)) else []);
    (Validator(errors), errors == [])
  }

  /** A user that passes creation passes the update check with the same
      fields and role. */
  lemma CreateImpliesUpdate(v: Validator, username: string, email: string, fullName: string, password: string, role: string)
    requires ValidateCreateUser(v, username, email, fullName, password, role).1
    ensures ValidateUpdateUser(v, username, email, fullName, Some(role)).1
    ensures ValidateUpdateUser(v, username, email, fullName, None).1
  {
  }

  // ---------------------------------------------------------------------
  // SolutionValidator
  // ---------------------------------------------------------------------

  /** `_validate_name` */
  function SolutionNameErrors(name: string): (r: seq<Problem>)
    ensures name == "" ==> r == [Required]
    ensures name != "" ==>
      var n := Strip(name);
      && (TooShort in r <==> |n| < 3)
      && (TooLong in r <==> |n| > 100)
      && (BadCharacters in r <==> !SolutionNameMatches(n))
      && Required !in r
    ensures forall q | q in r :: q == Required || q == TooShort || q == TooLong || q == BadCharacters
  {
    if name == "" then [Required]
    else
      var n := Strip(name);
      var b1, b2, b3 := |n| < 3, |n| > 100, !SolutionNameMatches(n);
      InThree(b1, TooShort, b2, TooLong, b3, BadCharacters);
      When(b1, TooShort) + When(b2, TooLong) + When(b3, BadCharacters)
  }

  /** `_validate_description`, on the stripped text. */
  function DescriptionErrors(description: string): (r: seq<Problem>)
    ensures r == [] <==> description != "" && 10 <= |Strip(description)| <= 1000
  {
    if description == "" then [Required]
    else
      var d := Strip(description);
      (if |d| < 10 then [TooShort] else []) + (if |d| > 1000 then [TooLong] else [])
  }

  /** `_WHATWG_C0_CONTROL_OR_SPACE`: the C0 control characters and the
      space, which `urlsplit` strips from the left of its input. */
  predicate IsC0OrSpace(c: char) { c <= ' ' }

  /** `_UNSAFE_URL_BYTES_TO_REMOVE`: tab, carriage return and line feed,
      which `urlsplit` deletes wherever they occur. */
  predicate IsUnsafeUrlChar(c: char) { c == '\t' || c == '\r' || c == '\n' }

  predicate NoUnsafe(s: string) {
    forall k | 0 <= k < |s| :: !IsUnsafeUrlChar(s[k])
  }

  /** `url.lstrip(_WHATWG_C0_CONTROL_OR_SPACE)`: a suffix of the input that
      does not start with a control or a space. */
  function LStripC0(s: string): (r: string)
    ensures |r| <= |s| && r == s[|s| - |r|..]
    ensures r != [] ==> !IsC0OrSpace(r[0])
    ensures s == [] || !IsC0OrSpace(s[0]) ==> r == s
    decreases |s|
  {
    if s != [] && IsC0OrSpace(s[0]) then
      var r := LStripC0(s[1..]);
      assert s[1..][|s| - 1 - |r|..] == s[|s| - |r|..];
      r
    else s
  }

  /** Every tab, carriage return and line feed deleted, the rest kept in
      order. */
  function DropUnsafe(s: string): (r: string)
    ensures |r| <= |s| && NoUnsafe(r)
    decreases |s|
  {
    if s == [] then []
    else
      var rest := DropUnsafe(s[1..]);
      if IsUnsafeUrlChar(s[0]) then rest
      else
        assert forall k | 1 <= k < 1 + |rest| :: ([s[0]] + rest)[k] == rest[k - 1];
        [s[0]] + rest
  }

  /** A text without those characters is left as it is. */
  lemma {:induction false} DropUnsafeClean(s: string)
    requires NoUnsafe(s)
    ensures DropUnsafe(s) == s
    decreases |s|
  {
    if s != [] {
      assert NoUnsafe(s[1..]) by {
        forall k | 0 <= k < |s[1..]| ensures !IsUnsafeUrlChar(s[1..][k]) {
          assert s[1..][k] == s[k + 1];
        }
      }
      DropUnsafeClean(s[1..]);
      assert !IsUnsafeUrlChar(s[0]);
      assert [s[0]] + s[1..] == s;
    }
  }

  lemma NoUnsafeConcat(a: string, b: string)
    ensures NoUnsafe(a + b) <==> NoUnsafe(a) && NoUnsafe(b)
  {
    if NoUnsafe(a + b) {
      forall k | 0 <= k < |b| ensures !IsUnsafeUrlChar(b[k]) {
        assert (a + b)[|a| + k] == b[k];
      }
      forall k | 0 <= k < |a| ensures !IsUnsafeUrlChar(a[k]) {
        assert (a + b)[k] == a[k];
      }
    }
  }

  /** The text `urlsplit` goes on to parse. */
  function UrlsplitInput(url: string): (r: string)
    ensures NoUnsafe(r)
    ensures |r| <= |url|
  {
    DropUnsafe(LStripC0(url))
  }

  /** A URL that starts with neither a control nor a space and holds no
      tab or line break is parsed as given. */
  lemma UrlsplitInputClean(url: string)
    requires NoUnsafe(url) && (url == [] || !IsC0OrSpace(url[0]))
    ensures UrlsplitInput(url) == url
  {
    DropUnsafeClean(url);
  }

  /** `[a-zA-Z0-9+\-.]`, the characters `urlsplit` allows in a scheme. */
  predicate IsSchemeChar(c: char) {
    IsAlnum(c) || c == '+' || c == '-' || c == '.'
  }

  /** The scheme `urlsplit` finds: the lowercased text before the first `:`
      when it is non-empty, starts with a letter and holds only scheme
      characters; the rest of the URL follows. */
  function SplitScheme(url: string): (r: (string, string))
    ensures r.0 == [] ==> r.1 == url
  {
    match IndexOf(url, ':')
    case None => ("", url)
    case Some(i) =>
      if i > 0 && IsLetter(url[0]) && AllIn(url[..i], IsSchemeChar) then (Lower(url[..i]), url[i + 1..])
      else ("", url)
  }

  predicate IsNetlocEnd(c: char) { c == '/' || c == '?' || c == '#' }

  predicate IsNetlocChar(c: char) { !IsNetlocEnd(c) }

  /** The network location after `//`, up to the first `/`, `?` or `#`. */
  function Netloc(rest: string): (n: string)
    ensures forall k | 0 <= k < |n| :: !IsNetlocEnd(n[k])
  {
    if |rest| >= 2 && rest[0] == '/' && rest[1] == '/' then
      rest[2..RunEnd(rest, 2, IsNetlocChar)]
    else ""
  }

  /** A network location holding one kind of square bracket but not the
      other, which makes `urlsplit` raise `ValueError`. */
  predicate UnbalancedBrackets(n: string) {
    ('[' in n && ']' !in n) || (']' in n && '[' !in n)
  }

  /** The checks shared by the repository and access URLs: a URL that
      `urlsplit` refuses to parse is reported as such; otherwise a scheme
      and a network location must both be present, and the scheme must be
      http or https. */
  function UrlErrors(url: string): (r: seq<Problem>)
    ensures r == [Unparsable] <==> var (_, rest) := SplitScheme(UrlsplitInput(url));
                                   UnbalancedBrackets(Netloc(rest))
    ensures r == [] <==> var (scheme, rest) := SplitScheme(UrlsplitInput(url));
                         && (scheme == "http" || scheme == "https") && Netloc(rest) != ""
                         && !UnbalancedBrackets(Netloc(rest))
    ensures |r| <= 1
  {
    var (scheme, rest) := SplitScheme(UrlsplitInput(url));
    var netloc := Netloc(rest);
    if UnbalancedBrackets(netloc) then [Unparsable]
    else if scheme == "" || netloc == "" then [BadFormat]
    else if scheme != "http" && scheme != "https" then [NotHttp]
    else []
  }

  /** Controls and spaces before a URL change nothing about it. */
  lemma {:induction false} LStripC0Pad(pad: string, url: string)
    requires AllIn(pad, IsC0OrSpace)
    ensures LStripC0(pad + url) == LStripC0(url)
    decreases |pad|
  {
    if pad != [] {
      assert (pad + url)[0] == pad[0] && (pad + url)[1..] == pad[1..] + url;
      assert AllIn(pad[1..], IsC0OrSpace) by {
        forall k | 0 <= k < |pad[1..]| ensures IsC0OrSpace(pad[1..][k]) {
          assert pad[1..][k] == pad[k + 1];
        }
      }
      LStripC0Pad(pad[1..], url);
    } else {
      assert pad + url == url;
    }
  }

  lemma UrlErrorsIgnoresLeadingControls(pad: string, url: string)
    requires AllIn(pad, IsC0OrSpace)
    ensures UrlErrors(pad + url) == UrlErrors(url)
  {
    LStripC0Pad(pad, url);
  }

  /** A scheme of scheme characters before the first `:` is split off and
      lowercased. */
  lemma SchemeSplit(url: string, scheme: string, rest: string)
    requires |scheme| > 0 && IsLetter(scheme[0]) && AllIn(scheme, IsSchemeChar)
    requires url == scheme + ":" + rest
    ensures SplitScheme(url) == (Lower(scheme), rest)
  {
    assert forall k | 0 <= k < |scheme| :: url[k] == scheme[k] && url[k] != ':';
    assert url[|scheme|] == ':';
    assert IndexOf(url, ':') == Some(|scheme|) by {
      assert ':' !in url[..|scheme|];
    }
    assert url[..|scheme|] == scheme;
    assert url[|scheme| + 1..] == rest;
  }

  /** The host after `//` runs up to the path, query or fragment. */
  lemma NetlocOfHost(rest: string, host: string, path: string)
    requires forall k | 0 <= k < |host| :: !IsNetlocEnd(host[k])
    requires path == [] || IsNetlocEnd(path[0])
    requires rest == "//" + host + path
    ensures Netloc(rest) == host
  {
    var e := RunEnd(rest, 2, IsNetlocChar);
    assert forall k | 2 <= k < 2 + |host| :: rest[k] == host[k - 2];
    assert 2 + |host| < |rest| ==> rest[2 + |host|] == path[0];
    assert e == 2 + |host|;
    assert rest[2..e] == host;
  }

  /** `scheme://host` followed by a path, query or fragment, and free of
      tabs and line breaks, is accepted exactly when the scheme is http or
      https in any case mix and the host is non-empty with balanced
      brackets; a host with one kind of bracket only cannot be parsed. */
  lemma UrlWithHost(scheme: string, host: string, path: string)
    requires |scheme| > 0 && IsLetter(scheme[0]) && AllIn(scheme, IsSchemeChar)
    requires forall k | 0 <= k < |host| :: !IsNetlocEnd(host[k])
    requires path == [] || IsNetlocEnd(path[0])
    requires NoUnsafe(host) && NoUnsafe(path)
    ensures UrlErrors(scheme + "://" + host + path) == []
            <==> (Lower(scheme) == "http" || Lower(scheme) == "https") && host != "" && !UnbalancedBrackets(host)
    ensures UnbalancedBrackets(host) ==> UrlErrors(scheme + "://" + host + path) == [Unparsable]
  {
    var rest := "//" + host + path;
    var url := scheme + "://" + host + path;
    CleanUrlOfParts(scheme, host, path);
    assert url == scheme + ":" + rest;
    SchemeSplit(url, scheme, rest);
    NetlocOfHost(rest, host, path);
  }

  lemma CleanUrlOfParts(scheme: string, host: string, path: string)
    requires |scheme| > 0 && IsLetter(scheme[0]) && AllIn(scheme, IsSchemeChar)
    requires NoUnsafe(host) && NoUnsafe(path)
    ensures UrlsplitInput(scheme + "://" + host + path) == scheme + "://" + host + path
  {
    var url := scheme + "://" + host + path;
    assert NoUnsafe(scheme + "://") by {
      forall k | 0 <= k < |scheme| ensures !IsUnsafeUrlChar(scheme[k]) {
        assert IsSchemeChar(scheme[k]);
      }
      NoUnsafeConcat(scheme, "://");
    }
    NoUnsafeConcat(scheme + "://", host);
    NoUnsafeConcat(scheme + "://" + host, path);
    assert url[0] == scheme[0];
    UrlsplitInputClean(url);
  }

  /** `_validate_repository_url` */
  function RepositoryUrlErrors(url: string): (r: seq<Problem>)
    ensures url == "" ==> r == [Required]
    ensures url != "" ==> r == UrlErrors(url)
  {
    if url == "" then [Required] else UrlErrors(url)
  }

  /** `_validate_solution_type`: one of the nine stored type values. */
  function SolutionTypeErrors(solutionType: string): (r: seq<Problem>)
    ensures r == [] <==> SolutionEntity.TypeFromValue(solutionType).Some?
  {
    if solutionType == "" then [Required]
    else if SolutionEntity.TypeFromValue(solutionType).None? then [Unknown]
    else []
  }

  /** `_validate_version` */
  function VersionErrors(version: string): (r: seq<Problem>)
    ensures r == [] <==> SemverMatches(version)
  {
    if version == "" then [Required]
    else if !SemverMatches(version) then [BadFormat]
    else []
  }

  function CreateSolutionErrors(name: string, description: string, repositoryUrl: string, solutionType: string,
                                version: string, accessUrl: Option<string>): seq<FieldError> {
    Tag(NameField, SolutionNameErrors(name)) + Tag(DescriptionField, DescriptionErrors(description))
    + Tag(RepositoryUrlField, RepositoryUrlErrors(repositoryUrl)) + Tag(SolutionTypeField, SolutionTypeErrors(solutionType))
    + Tag(VersionField, VersionErrors(version))
    + (if accessUrl.Some? && accessUrl.value != "" then Tag(AccessUrlField, UrlErrors(accessUrl.value)) else [])
  }

  /** `validate_create_solution`: the access URL is checked only when it is
      given and non-empty. */
  function ValidateCreateSolution(v: Validator, name: string, description: string, repositoryUrl: string,
                                  solutionType: string, version: string, accessUrl: Option<string>)
    : (r: (Validator, bool))
    ensures r.1 <==> IsValid(r.0)
    ensures r.1 <==> SolutionNameErrors(name) == [] && DescriptionErrors(description) == []
                     && RepositoryUrlErrors(repositoryUrl) == [] && SolutionTypeErrors(solutionType) == []
                     && VersionErrors(version) == []
                     && (accessUrl.None? || accessUrl.value == "" || UrlErrors(accessUrl.value) == [])
  {
    var errors := CreateSolutionErrors(name, description, repositoryUrl, solutionType, version, accessUrl);
    (Validator(errors), errors == [])
  }

  /** Leaving the access URL out, or giving it empty, never changes the
      verdict; a stored type value always passes the type check. */
  lemma AccessUrlOptional(v: Validator, name: string, description: string, repositoryUrl: string,
                          t: SolutionEntity.SolutionType, version: string)
    ensures ValidateCreateSolution(v, name, description, repositoryUrl, SolutionEntity.TypeValue(t), version, None)
         == ValidateCreateSolution(v, name, description, repositoryUrl, SolutionEntity.TypeValue(t), version, Some(""))
    ensures SolutionTypeErrors(SolutionEntity.TypeValue(t)) == []
  {
    SolutionEntity.TypeValueRoundTrip(t);
  }

  // ---------------------------------------------------------------------
  // AssignmentValidator
  // ---------------------------------------------------------------------

  /** `validate_assignment`: both ids must be positive. */
  function ValidateAssignment(v: Validator, userId: int, solutionId: int): (r: (Validator, bool))
    ensures r.1 <==> IsValid(r.0)
    ensures r.1 <==> userId > 0 && solutionId > 0
    ensures |r.0.errors| == (if userId > 0 then 0 else 1) + (if solutionId > 0 then 0 else 1)
  {
    var errors := (if userId <= 0 then [FieldError(UserIdField, NotPositive)] else [])
                  + (if solutionId <= 0 then [FieldError(SolutionIdField, NotPositive)] else []);
    (Validator(errors), errors == [])
  }

  /** `validate_bulk_assignment`: non-empty lists of at most 100 users and
      50 solutions. */
  function ValidateBulkAssignment(v: Validator, userIds: seq<int>, solutionIds: seq<int>): (r: (Validator, bool))
    ensures r.1 <==> IsValid(r.0)
    ensures r.1 <==> 1 <= |userIds| <= 100 && 1 <= |solutionIds| <= 50
    ensures |r.0.errors| <= 2
  {
    var errors := (if userIds == [] then [FieldError(UserIdsField, NoneSelected)] else [])
                  + (if solutionIds == [] then [FieldError(SolutionIdsField, NoneSelected)] else [])
                  + (if |userIds| > 100 then [FieldError(UserIdsField, TooMany)] else [])
                  + (if |solutionIds| > 50 then [FieldError(SolutionIdsField, TooMany)] else []);
    (Validator(errors), errors == [])
  }
}
