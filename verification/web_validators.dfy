/** `APIValidator` and its user and solution subclasses: checks over a
    decoded JSON body that return the list of problems found, in the order
    the checks run. Absent keys are skipped by every check except the
    required-field one. */
module ApiValidators {
  import opened Wrappers
  import opened Patterns
  import opened Limits
  import SolutionEntity

  /** A decoded JSON value, as far as the checks look at it. */
  datatype Value = Null | Str(s: string) | Num(n: int) | Flag(b: bool) | Composite

  /** The keys the checks read; any other key of the body is `OtherKey`. */
  datatype Key =
    | UsernameKey | EmailKey | PasswordKey | FullNameKey | RoleKey
    | NameKey | DescriptionKey | RepositoryUrlKey | SolutionTypeKey
    | OtherKey(name: string)

  type Body = map<Key, Value>

  datatype ApiError =
    | FieldRequired(field: Key)
    | NotText(field: Key)
    | ShorterThan(field: Key, min: int)
    | LongerThan(field: Key, max: int)
    | EmailNotText
    | EmailFormat
    | UrlFormat(field: Key)
    | RoleNotAllowed
    | TypeNotAllowed

  /** A required field is missing when absent, null or the empty string. */
  predicate MissingField(data: Body, field: Key) {
    field !in data || data[field] == Null || data[field] == Str("")
  }

  /** `validate_required_fields`: one problem per missing field, in the
      order the fields are listed. */
  function RequiredFields(data: Body, fields: seq<Key>): (r: seq<ApiError>)
    ensures |r| <= |fields|
  {
    if fields == [] then [] else RequiredOne(data, fields[0]) + RequiredFields(data, fields[1..])
  }

  /** Exactly the missing fields are reported, and nothing else. */
  lemma {:induction false} RequiredFieldsReportsMissing(data: Body, fields: seq<Key>)
    ensures forall f :: FieldRequired(f) in RequiredFields(data, fields) <==> f in fields && MissingField(data, f)
    ensures forall e | e in RequiredFields(data, fields) :: e.FieldRequired?
    ensures RequiredFields(data, fields) == [] <==> forall i | 0 <= i < |fields| :: !MissingField(data, fields[i])
  {
    if fields != [] {
      RequiredFieldsReportsMissing(data, fields[1..]);
      assert forall f :: f in fields <==> f == fields[0] || f in fields[1..];
      assert forall i | 1 <= i < |fields| :: fields[i] == fields[1..][i - 1];
    }
  }

  /** The problem for one required field, if it is missing. */
  function RequiredOne(data: Body, field: Key): (r: seq<ApiError>)
    ensures r == [] <==> !MissingField(data, field)
  {
    if MissingField(data, field) then [FieldRequired(field)] else []
  }

  /** `validate_string_length`: not text, then too short, then too long. */
  function StringLength(value: Value, field: Key, min: int, max: int): (r: Option<ApiError>)
    ensures r.None? <==> value.Str? && min <= |value.s| <= max
    ensures !value.Str? ==> r == Some(NotText(field))
    ensures value.Str? && |value.s| < min ==> r == Some(ShorterThan(field, min))
    ensures value.Str? && min <= |value.s| && |value.s| > max ==> r == Some(LongerThan(field, max))
  {
    if !value.Str? then Some(NotText(field))
    else if |value.s| < min then Some(ShorterThan(field, min))
    else if |value.s| > max then Some(LongerThan(field, max))
    else None
  }

  /** `validate_email` */
  function EmailCheck(value: Value): (r: Option<ApiError>)
    ensures r.None? <==> value.Str? && EmailMatches(value.s)
  {
    if !value.Str? then Some(EmailNotText)
    else if !EmailMatches(value.s) then Some(EmailFormat)
    else None
  }

  /** `validate_url`. The pattern is a parameter: `urlMatches`. */
  function UrlCheck(value: Value, field: Key, urlMatches: string -> bool): (r: Option<ApiError>)
    ensures r.None? <==> value.Str? && urlMatches(value.s)
  {
    if !value.Str? then Some(NotText(field))
    else if !urlMatches(value.s) then Some(UrlFormat(field))
    else None
  }

  function AsList(e: Option<ApiError>): (r: seq<ApiError>)
    ensures r == [] <==> e.None?
  {
    if e.Some? then [e.value] else []
  }

  /** A check that runs only when its key is present. */
  function IfPresent(data: Body, field: Key, check: Value -> Option<ApiError>): (r: seq<ApiError>)
    ensures field !in data ==> r == []
    ensures field in data ==> r == AsList(check(data[field]))
  {
    if field in data then AsList(check(data[field])) else []
  }

  predicate RoleAllowed(v: Value) { v == Str("super_admin") || v == Str("user") }

  function RoleCheck(v: Value): Option<ApiError> {
    if RoleAllowed(v) then None else Some(RoleNotAllowed)
  }

  lemma RequiredFieldsCons(data: Body, f: Key, rest: seq<Key>)
    ensures RequiredFields(data, [f] + rest) == RequiredOne(data, f) + RequiredFields(data, rest)
  {
    assert ([f] + rest)[1..] == rest;
  }

  /** Required-field problems for a list of four fields, spelled out one
      field at a time. */
  lemma RequiredFieldsOfFour(data: Body, a: Key, b: Key, c: Key, d: Key)
    ensures RequiredFields(data, [a, b, c, d])
         == RequiredOne(data, a) + (RequiredOne(data, b) + (RequiredOne(data, c) + RequiredOne(data, d)))
  {
    assert [d][1..] == [];
    assert RequiredFields(data, [d]) == RequiredOne(data, d) + [];
    assert [c, d][1..] == [d];
    assert RequiredFields(data, [c, d]) == RequiredOne(data, c) + RequiredFields(data, [d]);
    assert [b, c, d][1..] == [c, d];
    assert RequiredFields(data, [b, c, d]) == RequiredOne(data, b) + RequiredFields(data, [c, d]);
    assert [a, b, c, d][1..] == [b, c, d];
    assert RequiredFields(data, [a, b, c, d]) == RequiredOne(data, a) + RequiredFields(data, [b, c, d]);
    assert RequiredOne(data, d) + [] == RequiredOne(data, d);
  }

  lemma RequiredFieldsOfFive(data: Body, a: Key, b: Key, c: Key, d: Key, e: Key)
    ensures RequiredFields(data, [a, b, c, d, e]) == RequiredOne(data, a) + RequiredFields(data, [b, c, d, e])
  {
    RequiredFieldsCons(data, a, [b, c, d, e]);
    assert [a] + [b, c, d, e] == [a, b, c, d, e];
  }

  const UserRequiredFields: seq<Key> := [UsernameKey, EmailKey, PasswordKey, FullNameKey, RoleKey]

  function UsernameLength(v: Value): Option<ApiError> {
    StringLength(v, UsernameKey, MinUsernameLength, MaxUsernameLength)
  }

  function PasswordLength(v: Value): Option<ApiError> {
    StringLength(v, PasswordKey, MinPasswordLength, MaxPasswordLength)
  }

  function FullNameLength(v: Value): Option<ApiError> {
    StringLength(v, FullNameKey, MinFullNameLength, MaxFullNameLength)
  }

  /** The per-field user checks on present keys, with or without the
      password length. */
  function UserFieldChecks(data: Body, withPassword: bool): (r: seq<ApiError>)
    ensures UsernameKey !in data && EmailKey !in data && FullNameKey !in data && RoleKey !in data
            && (!withPassword || PasswordKey !in data)
            ==> r == []
  {
    IfPresent(data, UsernameKey, UsernameLength) + IfPresent(data, EmailKey, EmailCheck)
    + (if withPassword then IfPresent(data, PasswordKey, PasswordLength) else [])
    + IfPresent(data, FullNameKey, FullNameLength) + IfPresent(data, RoleKey, RoleCheck)
  }

  /** `validate_update_user_data`: only present keys are checked, and the
      password is not among them. */
  function UpdateUserData(data: Body): (r: seq<ApiError>)
    ensures data == map[] ==> r == []
    ensures PasswordKey in data ==> r == UpdateUserData(data - {PasswordKey})
  {
    UserFieldChecks(data, false)
  }

  /** `validate_create_user_data`: the five required fields, then the field
      checks including the password length. */
  function CreateUserData(data: Body): (r: seq<ApiError>)
    ensures |r| >= |RequiredFields(data, UserRequiredFields)|
  {
    RequiredFields(data, UserRequiredFields) + UserFieldChecks(data, true)
  }

  /** A complete, well-formed user body. */
  predicate UserBodyValid(data: Body) {
    && UsernameKey in data && data[UsernameKey].Str?
    && MinUsernameLength <= |data[UsernameKey].s| <= MaxUsernameLength
    && EmailKey in data && data[EmailKey].Str? && EmailMatches(data[EmailKey].s)
    && PasswordKey in data && data[PasswordKey].Str?
    && MinPasswordLength <= |data[PasswordKey].s| <= MaxPasswordLength
    && FullNameKey in data && data[FullNameKey].Str?
    && MinFullNameLength <= |data[FullNameKey].s| <= MaxFullNameLength
    && RoleKey in data && RoleAllowed(data[RoleKey])
  }

  /** Creation finds nothing exactly for complete, well-formed bodies. */
  lemma CreateUserDataAccepts(data: Body)
    ensures CreateUserData(data) == [] <==> UserBodyValid(data)
  {
    RequiredFieldsOfFive(data, UsernameKey, EmailKey, PasswordKey, FullNameKey, RoleKey);
    RequiredFieldsOfFour(data, EmailKey, PasswordKey, FullNameKey, RoleKey);
  }

  /** Without a password key, creation reports the missing fields, the
      password first among them if the others are there, and then exactly
      what an update reports. */
  lemma CreateUserIsRequiredPlusUpdate(data: Body)
    requires PasswordKey !in data
    ensures CreateUserData(data) == RequiredFields(data, UserRequiredFields) + UpdateUserData(data)
    ensures FieldRequired(PasswordKey) in CreateUserData(data)
  {
    var a := IfPresent(data, UsernameKey, UsernameLength) + IfPresent(data, EmailKey, EmailCheck);
    assert a + IfPresent(data, PasswordKey, PasswordLength) == a + [];
    RequiredFieldsReportsMissing(data, UserRequiredFields);
    assert PasswordKey in UserRequiredFields;
  }

  /** The types the API accepts. */
  const ApiSolutionTypes: seq<string> := ["web", "api", "desktop", "mobile", "script"]

  /** A type value is accepted when it equals one of the five listed
      names; anything else, including a value that is not text, is
      refused with the type message. */
  function TypeCheck(v: Value): (r: Option<ApiError>)
    ensures r.None? <==> v in [Str("web"), Str("api"), Str("desktop"), Str("mobile"), Str("script")]
    ensures r.Some? ==> r.value == TypeNotAllowed
  {
    if v.Str? && v.s in ApiSolutionTypes then None else Some(TypeNotAllowed)
  }

  function NameLength(v: Value): Option<ApiError> {
    StringLength(v, NameKey, MinSolutionNameLength, MaxSolutionNameLength)
  }

  function DescriptionLength(v: Value): Option<ApiError> {
    StringLength(v, DescriptionKey, MinDescriptionLength, MaxDescriptionLength)
  }

  const SolutionRequiredFields: seq<Key> := [NameKey, DescriptionKey, RepositoryUrlKey, SolutionTypeKey]

  /** `validate_update_solution_data`; the URL pattern is the parameter
      `urlMatches`. */
  function UpdateSolutionData(data: Body, urlMatches: string -> bool): (r: seq<ApiError>)
    ensures data == map[] ==> r == []
  {
    IfPresent(data, NameKey, NameLength) + IfPresent(data, DescriptionKey, DescriptionLength)
    + IfPresent(data, RepositoryUrlKey, v => UrlCheck(v, RepositoryUrlKey, urlMatches))
    + IfPresent(data, SolutionTypeKey, TypeCheck)
  }

  /** `validate_create_solution_data`: the four required fields, then the
      same checks, in the same order, as an update. */
  function CreateSolutionData(data: Body, urlMatches: string -> bool): (r: seq<ApiError>)
    ensures |r| >= |RequiredFields(data, SolutionRequiredFields)|
  {
    RequiredFields(data, SolutionRequiredFields) + UpdateSolutionData(data, urlMatches)
  }

  /** An update that touches no checked key is always accepted, and a
      creation body without any of them is refused once per field. */
  lemma SolutionChecksOnlyPresentKeys(data: Body, urlMatches: string -> bool)
    requires NameKey !in data && DescriptionKey !in data && RepositoryUrlKey !in data && SolutionTypeKey !in data
    ensures UpdateSolutionData(data, urlMatches) == []
    ensures CreateSolutionData(data, urlMatches) == [FieldRequired(NameKey), FieldRequired(DescriptionKey),
                                                     FieldRequired(RepositoryUrlKey), FieldRequired(SolutionTypeKey)]
  {
    RequiredFieldsOfFour(data, NameKey, DescriptionKey, RepositoryUrlKey, SolutionTypeKey);
    assert RequiredOne(data, NameKey) == [FieldRequired(NameKey)];
    assert RequiredOne(data, DescriptionKey) == [FieldRequired(DescriptionKey)];
    assert RequiredOne(data, RepositoryUrlKey) == [FieldRequired(RepositoryUrlKey)];
    assert RequiredOne(data, SolutionTypeKey) == [FieldRequired(SolutionTypeKey)];
  }

  /** A complete, well-formed solution body. */
  predicate SolutionBodyValid(data: Body, urlMatches: string -> bool) {
    && NameKey in data && data[NameKey].Str?
    && MinSolutionNameLength <= |data[NameKey].s| <= MaxSolutionNameLength
    && DescriptionKey in data && data[DescriptionKey].Str?
    && MinDescriptionLength <= |data[DescriptionKey].s| <= MaxDescriptionLength
    && RepositoryUrlKey in data && data[RepositoryUrlKey].Str? && data[RepositoryUrlKey].s != ""
    && urlMatches(data[RepositoryUrlKey].s)
    && SolutionTypeKey in data && TypeCheck(data[SolutionTypeKey]).None?
  }

  /** Creation finds nothing exactly for complete, well-formed bodies. */
  lemma CreateSolutionDataAccepts(data: Body, urlMatches: string -> bool)
    ensures CreateSolutionData(data, urlMatches) == [] <==> SolutionBodyValid(data, urlMatches)
  {
    RequiredFieldsOfFour(data, NameKey, DescriptionKey, RepositoryUrlKey, SolutionTypeKey);
  }

  /** The type message appears, in a creation as in an update, exactly
      when the type key is present with a value outside the five names;
      no other check produces it. */
  lemma SolutionTypeRule(data: Body, urlMatches: string -> bool)
    ensures TypeNotAllowed in UpdateSolutionData(data, urlMatches)
            <==> SolutionTypeKey in data && TypeCheck(data[SolutionTypeKey]).Some?
    ensures TypeNotAllowed in CreateSolutionData(data, urlMatches)
            <==> SolutionTypeKey in data && TypeCheck(data[SolutionTypeKey]).Some?
  {
    RequiredFieldsReportsMissing(data, SolutionRequiredFields);
    var a := IfPresent(data, NameKey, NameLength);
    var b := IfPresent(data, DescriptionKey, DescriptionLength);
    var c := IfPresent(data, RepositoryUrlKey, v => UrlCheck(v, RepositoryUrlKey, urlMatches));
    var d := IfPresent(data, SolutionTypeKey, TypeCheck);
    assert TypeNotAllowed !in a && TypeNotAllowed !in b && TypeNotAllowed !in c;
    assert UpdateSolutionData(data, urlMatches) == a + b + c + d;
    assert TypeNotAllowed in RequiredFields(data, SolutionRequiredFields) ==> false;
  }

  /** None of the type values the API accepts is a type value of the
      solution entity, so an accepted body never names a stored type. */
  lemma ApiTypesAreNotEntityTypes(t: string)
    requires t in ApiSolutionTypes
    ensures SolutionEntity.TypeFromValue(t).None?
  {
  }
}
