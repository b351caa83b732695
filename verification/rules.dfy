/** `ValidationRules`: the pure format rules, each returning the FIRST
    problem found (or, for password strength and pagination, the full list
    together with the verdict). The problems reuse the vocabulary of the
    accumulating validators, so the two can be compared directly. */
module ValidationRules {
  import opened Wrappers
  import opened Text
  import opened Patterns
  import opened EntityValidators

  /** `RESERVED_USERNAMES`: the validators' list plus `dess`. */
  const RuleReservedUsernames: seq<string> := ReservedUsernames + ["dess"]

  /** `COMMON_PASSWORDS`: the validators' list plus `password123`. */
  const RuleCommonPasswords: seq<string> := CommonPasswords + ["password123"]

  /** `validate_username_format`: required, at least 3, at most 30, the
      character pattern, then the reserved words, on the stripped name. */
  function UsernameFormat(username: string): (r: Option<Problem>)
    ensures username == "" ==> r == Some(Required)
  {
    if username == "" then Some(Required)
    else
      var u := Strip(username);
      if |u| < 3 then Some(TooShort)
      else if |u| > 30 then Some(TooLong)
      else if !UsernameMatches(u) then Some(BadCharacters)
      else if Lower(u) in RuleReservedUsernames then Some(Reserved)
      else None
  }

  /** The rule reports the first problem the accumulating check lists, and
      accepts exactly what the check accepts, minus the name `dess` in any
      case. */
  lemma UsernameFormatIsFirstError(username: string)
    ensures UsernameErrors(username) != [] ==> UsernameFormat(username) == Some(UsernameErrors(username)[0])
    ensures UsernameFormat(username).None? <==> UsernameErrors(username) == [] && Lower(Strip(username)) != "dess"
  {
    if username != "" {
      var u := Strip(username);
      var e := UsernameErrors(username);
      assert Lower(u) in RuleReservedUsernames <==> Lower(u) in ReservedUsernames || Lower(u) == "dess";
      assert e == When(|u| < 3, TooShort) + When(|u| > 30, TooLong)
                  + When(!UsernameMatches(u), BadCharacters) + When(Lower(u) in ReservedUsernames, Reserved);
    }
  }

  /** `validate_email_format`: required, pattern, at most 254, blocked
      domain, on the stripped and lowercased address. */
  function EmailFormat(email: string): (r: Option<Problem>)
    ensures email == "" ==> r == Some(Required)
  {
    if email == "" then Some(Required)
    else
      var e := Lower(Strip(email));
      if !EmailMatches(e) then Some(BadFormat)
      else if |e| > 254 then Some(TooLong)
      else if DomainOf(e) in BlockedDomains then Some(BlockedDomain)
      else None
  }

  /** The email rule is the first problem of the accumulating check. */
  lemma EmailFormatIsFirstError(email: string)
    ensures EmailFormat(email) == if EmailErrors(email) == [] then None else Some(EmailErrors(email)[0])
  {
    if email != "" {
      var e := Lower(Strip(email));
      assert EmailErrors(email) == When(!EmailMatches(e), BadFormat) + When(|e| > 254, TooLong)
                                  + When(DomainOf(e) in BlockedDomains, BlockedDomain);
    }
  }

  datatype Criterion = Uppercase | Lowercase | Digit | Special

  /** Whether a password meets one criterion. */
  predicate Meets(password: string, c: Criterion) {
    match c
    case Uppercase => HasChar(password, IsUpper)
    case Lowercase => HasChar(password, IsLower)
    case Digit => HasChar(password, IsDigit)
    case Special => HasChar(password, IsSpecial)
  }

  /** The criteria a password misses, in the order the rule lists them. */
  function Missing(password: string): (r: seq<Criterion>)
    ensures forall c :: c in r <==> !Meets(password, c)
    ensures |r| == MissingCriteria(password)
  {
    (if Meets(password, Uppercase) then [] else [Uppercase])
    + (if Meets(password, Lowercase) then [] else [Lowercase])
    + (if Meets(password, Digit) then [] else [Digit])
    + (if Meets(password, Special) then [] else [Special])
  }

  datatype StrengthProblem = Problem(p: Problem) | MissingKinds(kinds: seq<Criterion>)

  /** `validate_password_strength`: the verdict and every problem found;
      the complexity problem names each missing criterion and appears only
      when two or more are missing. */
  function PasswordStrength(password: string): (r: (bool, seq<StrengthProblem>))
    ensures r.0 <==> r.1 == []
    ensures password == "" ==> r.1 == [Problem(Required)]
    ensures password != "" ==>
      (MissingKinds(Missing(password)) in r.1 <==> |Missing(password)| > 1)
    ensures forall e | e in r.1 && e.MissingKinds? :: e.kinds == Missing(password)
  {
    if password == "" then (false, [Problem(Required)])
    else
      var m := Missing(password);
      var errors := StrengthList(|password| < 8, |password| > 128, m, Lower(password) in RuleCommonPasswords);
      (errors == [], errors)
  }

  /** The problems of a non-empty password from the outcome of each check. */
  function StrengthList(short: bool, long: bool, missing: seq<Criterion>, common: bool): (r: seq<StrengthProblem>)
    ensures MissingKinds(missing) in r <==> |missing| > 1
    ensures forall i | 0 <= i < |r| && r[i].MissingKinds? :: r[i].kinds == missing
    ensures (Problem(TooShort) in r <==> short) && (Problem(TooLong) in r <==> long) && (Problem(Common) in r <==> common)
  {
    (if short then [Problem(TooShort)] else []) + (if long then [Problem(TooLong)] else [])
    + (if |missing| > 1 then [MissingKinds(missing)] else []) + (if common then [Problem(Common)] else [])
  }

  /** The rule and the accumulating check agree on every password outside
      the one extra common word. */
  lemma PasswordStrengthAgrees(password: string)
    requires Lower(password) != "password123"
    ensures PasswordStrength(password).0 <==> PasswordErrors(password) == []
  {
    assert Lower(password) in RuleCommonPasswords <==> Lower(password) in CommonPasswords;
  }

  const MaxRangeSeconds: int := 730 * 86400

  /** `validate_date_range` over instants in seconds: open ends are fine;
      otherwise the start must come first and the span be at most 730 days. */
  function DateRange(start: Option<int>, end: Option<int>): (r: Option<Problem>)
    ensures r.None? <==> start.None? || end.None? || (start.value < end.value && end.value - start.value <= MaxRangeSeconds)
    ensures r.Some? && start.value >= end.value ==> r == Some(BadFormat)
  {
    if start.None? || end.None? then None
    else if start.value >= end.value then Some(BadFormat)
    else if end.value - start.value > MaxRangeSeconds then Some(TooLong)
    else None
  }

  /** Narrowing a valid range keeps it valid. */
  lemma DateRangeNarrowing(start: int, end: int, start2: int, end2: int)
    requires DateRange(Some(start), Some(end)).None?
    requires start <= start2 < end2 <= end
    ensures DateRange(Some(start2), Some(end2)).None?
  {
  }

  datatype PageProblem = PageBelowOne | PerPageBelowOne | PerPageAboveMax

  /** `validate_pagination_params` in the rules: every failing bound adds
      its problem, in order. */
  function PaginationRule(page: int, perPage: int): (r: (bool, seq<PageProblem>))
    ensures r.0 <==> r.1 == []
    ensures r.0 <==> page >= 1 && 1 <= perPage <= 100
    ensures (PageBelowOne in r.1 <==> page < 1) && (PerPageBelowOne in r.1 <==> perPage < 1)
            && (PerPageAboveMax in r.1 <==> perPage > 100)
    ensures |r.1| <= 2
  {
    var errors := (if page < 1 then [PageBelowOne] else [])
                  + (if perPage < 1 then [PerPageBelowOne] else [])
                  + (if perPage > 100 then [PerPageAboveMax] else []);
    (errors == [], errors)
  }

  /** `< > ; & | `` are refused in a search. */
  predicate IsDangerous(c: char) {
    c == '<' || c == '>' || c == ';' || c == '&' || c == '|' || c == '`'
  }

  /** `validate_search_query`: required, 2 to 100 characters once
      stripped, and no dangerous character. */
  function SearchQuery(query: string): (r: Option<Problem>)
    ensures r.None? <==> var q := Strip(query);
      2 <= |q| <= 100 && forall k | 0 <= k < |q| :: !IsDangerous(q[k])
    ensures query == "" ==> r == Some(Required)
  {
    if query == "" then Some(Required)
    else
      var q := Strip(query);
      if |q| < 2 then Some(TooShort)
      else if |q| > 100 then Some(TooLong)
      else if exists k | 0 <= k < |q| :: IsDangerous(q[k]) then Some(BadCharacters)
      else None
  }

  /** Padding an accepted query with white space changes nothing. */
  lemma SearchQueryIgnoresPadding(query: string, pad: string)
    requires AllSpace(pad)
    requires SearchQuery(query).None?
    ensures SearchQuery(pad + Strip(query) + pad).None?
  {
    var q := Strip(query);
    StripPadded(pad, q);
  }

  /** Stripping removes white space added around a stripped text. */
  lemma StripPadded(pad: string, q: string)
    requires AllSpace(pad) && |q| > 0 && !IsSpace(q[0]) && !IsSpace(q[|q| - 1])
    ensures Strip(pad + q + pad) == q
  {
    var s := pad + q + pad;
    var a := SkipSpaces(s, 0);
    assert forall k | 0 <= k < |pad| :: s[k] == pad[k];
    assert s[|pad|] == q[0];
    assert a == |pad|;
    var b := SkipSpacesBack(s, a, |s|);
    assert forall k | |pad| + |q| <= k < |s| :: s[k] == pad[k - |pad| - |q|];
    assert s[|pad| + |q| - 1] == q[|q| - 1];
    assert b == |pad| + |q|;
    assert s[a..b] == q;
  }
}
