/** `DjangoUserRepository`: the users table as a sequence of rows in
    insertion order, each row a `User` whose id the database assigned. The
    stored password stands for its hash; it never leaves the repository. */
module UserRepository {
  import opened Wrappers
  import opened Tables
  import opened UserEntity
  import opened Text
  import opened AssignmentRows

  /** The rows and the next value of the auto-increment key. */
  datatype UserTable = UserTable(rows: seq<User>, nextId: int)

  /** The counter starts at one, every row has a key below it and above
      zero, and keys and usernames are unique (the model's `username` is a
      unique column). */
  ghost predicate WellFormed(t: UserTable) {
    1 <= t.nextId
    && (forall i | 0 <= i < |t.rows| :: t.rows[i].id.Some? && 1 <= t.rows[i].id.value < t.nextId)
    && UniqueBy(t.rows, KeyOf) && UniqueBy(t.rows, NameOf)
  }

  function KeyOf(u: User): Option<int> { u.id }
  function NameOf(u: User): string { u.username }

  datatype RepoError = MissingPassword | EmptyUsername | UniqueViolation | Lookup(e: LookupError)

  /** `_django_user_to_entity`: the row without its password. */
  function ToEntity(row: User): (u: User)
    ensures u.password.None? && u == row.(password := None)
  {
    row.(password := None)
  }

  function WithId(id: int): User -> bool { (u: User) => u.id == Some(id) }
  function WithUsername(name: string): User -> bool { (u: User) => u.username == name }
  function WithEmail(email: string): User -> bool { (u: User) => u.email == email }

  /** `get_by_id`: the row with this key, password removed. */
  function GetById(t: UserTable, id: int): (r: Option<User>)
    requires WellFormed(t)
    ensures r.Some? <==> exists i | 0 <= i < |t.rows| :: t.rows[i].id == Some(id)
    ensures r.Some? ==> r.value.id == Some(id) && r.value.password.None?
  {
    IdsUnique(t, id);
    ExistsMeansSome(t.rows, WithId(id));
    match Get(t.rows, WithId(id))
    case Ok(Some(row)) => Some(ToEntity(row))
    case _ => None
  }

  /** At most one row carries a key. */
  lemma IdsUnique(t: UserTable, id: int)
    requires WellFormed(t)
    ensures Count(t.rows, WithId(id)) <= 1
  {
    AtMostOneWithKey(t.rows, KeyOf, WithId(id), Some(id));
  }

  /** `get_by_username`: the row with this name, password removed. */
  function GetByUsername(t: UserTable, name: string): (r: Option<User>)
    ensures r.Some? ==> r.value.username == name && r.value.password.None?
    ensures r.None? && WellFormed(t) ==> forall i | 0 <= i < |t.rows| :: t.rows[i].username != name
  {
    ExistsMeansSome(t.rows, WithUsername(name));
    match Get(t.rows, WithUsername(name))
    case Ok(Some(row)) => Some(ToEntity(row))
    case Ok(None) => None
    case Err(_) => UsernamesUnique(t, name); None
  }

  lemma UsernamesUnique(t: UserTable, name: string)
    requires Count(t.rows, WithUsername(name)) > 1
    ensures !WellFormed(t)
  {
    if WellFormed(t) {
      AtMostOneWithKey(t.rows, NameOf, WithUsername(name), name);
    }
  }

  /** `get_by_email`: e-mail is not a unique column, so two rows sharing
      an address make the lookup raise. */
  function GetByEmail(t: UserTable, email: string): (r: Result<Option<User>, RepoError>)
    ensures r == Ok(None) <==> !Exists(t.rows, WithEmail(email))
    ensures r.Err? <==> Count(t.rows, WithEmail(email)) > 1
    ensures r.Ok? && r.value.Some? ==> r.value.value.email == email && r.value.value.password.None?
  {
    match Get(t.rows, WithEmail(email))
    case Ok(Some(row)) => Ok(Some(ToEntity(row)))
    case Ok(None) => Ok(None)
    case Err(e) => Err(Lookup(e))
  }

  /** `t` with the part after position `k` lower-cased. */
  function LowerAfter(t: string, k: nat): (r: string)
    requires k < |t|
    ensures |r| == |t| && r[..k + 1] == t[..k + 1]
    ensures forall i | k < i < |t| :: r[i] == LowerChar(t[i])
  {
    t[..k + 1] + Lower(t[k + 1..])
  }

  /** Django's `BaseUserManager.normalize_email`: an address with an `@`
      is stripped and its domain, after the last `@`, lower-cased; one
      without an `@` is kept as it is. */
  function NormalizeEmail(e: string): (r: string)
    ensures '@' !in e ==> r == e
    ensures '@' in e ==> |r| == |Strip(e)|
  {
    if '@' !in e then e
    else
      StripKeepsInner(e, '@');
      var t := Strip(e);
      LowerAfter(t, LastIndexOf(t, '@').value)
  }

  /** The local part, up to the last `@`, is the stripped one; the last
      `@` stays where it was and no capital follows it. */
  lemma NormalizeEmailShape(e: string)
    requires '@' in e
    ensures var r := NormalizeEmail(e);
      && LastIndexOf(r, '@') == LastIndexOf(Strip(e), '@')
      && r[..LastIndexOf(r, '@').value] == Strip(e)[..LastIndexOf(Strip(e), '@').value]
      && forall i | LastIndexOf(r, '@').value < i < |r| :: !IsUpper(r[i])
  {
    NormalizeEmailAt(e);
    var t := Strip(e);
    LowerAfterKeepsLastAt(t, LastIndexOf(t, '@').value);
  }

  /** Lower-casing after the last `@` leaves that `@` the last one, keeps
      what precedes it, and leaves no capital after it. */
  lemma LowerAfterKeepsLastAt(t: string, k: nat)
    requires LastIndexOf(t, '@') == Some(k)
    ensures LastIndexOf(LowerAfter(t, k), '@') == Some(k)
    ensures LowerAfter(t, k)[..k] == t[..k]
    ensures forall i | k < i < |t| :: !IsUpper(LowerAfter(t, k)[i])
  {
    var r := LowerAfter(t, k);
    var tail := t[k + 1..];
    assert k < |t| && t[k] == '@' && '@' !in tail;
    LowerAfterParts(t, k);
    LowerKeepsAt(tail);
    LastIndexOfAt(r, '@', k);
    forall i | k < i < |t| ensures !IsUpper(r[i]) {
      LowerCharKeepsClass(t[i]);
    }
  }

  lemma LowerAfterParts(t: string, k: nat)
    requires k < |t|
    ensures LowerAfter(t, k)[k] == t[k]
    ensures LowerAfter(t, k)[k + 1..] == Lower(t[k + 1..])
    ensures LowerAfter(t, k)[..k] == t[..k]
  {
    var r := LowerAfter(t, k);
    assert r[k] == r[..k + 1][k];
    assert r[..k] == r[..k + 1][..k];
  }

  lemma NormalizeEmailAt(e: string)
    requires '@' in e
    ensures '@' in Strip(e)
    ensures NormalizeEmail(e) == LowerAfter(Strip(e), LastIndexOf(Strip(e), '@').value)
  {
    StripKeepsInner(e, '@');
  }

  /** An address whose domain is already lower-case and that carries no
      white space at either end is left alone. */
  lemma NormalizeEmailKeeps(e: string, k: nat)
    requires LastIndexOf(e, '@') == Some(k) && !IsSpace(e[0]) && !IsSpace(e[|e| - 1])
    requires forall i | k < i < |e| :: LowerChar(e[i]) == e[i]
    ensures NormalizeEmail(e) == e
  {
    StripUnpadded(e);
    NormalizeEmailAt(e);
    LowerAfterFixed(e, k);
  }

  /** Lower-casing after `k` changes nothing when nothing there has a
      lower-case form. */
  lemma LowerAfterFixed(t: string, k: nat)
    requires k < |t|
    requires forall i | k < i < |t| :: LowerChar(t[i]) == t[i]
    ensures LowerAfter(t, k) == t
  {
    var r := LowerAfter(t, k);
    forall i | 0 <= i < |t| ensures r[i] == t[i] {
      if i <= k {
        assert r[i] == r[..k + 1][i];
      }
    }
  }

  /** Lower-casing after the last `@` of an unpadded address keeps that
      `@` last, keeps the ends free of white space, and leaves nothing after
      it that lower-casing would change. */
  lemma LowerAfterNormal(t: string, k: nat)
    requires LastIndexOf(t, '@') == Some(k) && !IsSpace(t[0]) && !IsSpace(t[|t| - 1])
    ensures LastIndexOf(LowerAfter(t, k), '@') == Some(k)
    ensures !IsSpace(LowerAfter(t, k)[0]) && !IsSpace(LowerAfter(t, k)[|t| - 1])
    ensures forall i | k < i < |t| :: LowerChar(LowerAfter(t, k)[i]) == LowerAfter(t, k)[i]
  {
    LowerAfterLastAt(t, k);
    LowerAfterUnpadded(t, k);
    LowerAfterLowered(t, k);
  }

  lemma LowerAfterLastAt(t: string, k: nat)
    requires LastIndexOf(t, '@') == Some(k)
    ensures LastIndexOf(LowerAfter(t, k), '@') == Some(k)
  {
    LowerAfterKeepsLastAt(t, k);
  }

  lemma LowerAfterUnpadded(t: string, k: nat)
    requires k < |t| && !IsSpace(t[0]) && !IsSpace(t[|t| - 1]) && t[k] == '@'
    ensures !IsSpace(LowerAfter(t, k)[0]) && !IsSpace(LowerAfter(t, k)[|t| - 1])
  {
    LowerAfterEnds(t, k);
    LowerCharKeepsClass(t[|t| - 1]);
  }

  /** The first character is kept; the last is lower-cased unless it is
      the `@` at `k`. */
  lemma LowerAfterEnds(t: string, k: nat)
    requires k < |t|
    ensures LowerAfter(t, k)[0] == t[0]
    ensures LowerAfter(t, k)[|t| - 1] == if k + 1 < |t| then LowerChar(t[|t| - 1]) else t[k]
  {
    var r := LowerAfter(t, k);
    assert r[0] == r[..k + 1][0];
    if k + 1 == |t| {
      assert r[|t| - 1] == r[..k + 1][k];
    }
  }

  lemma LowerAfterLowered(t: string, k: nat)
    requires k < |t|
    ensures forall i | k < i < |t| :: LowerChar(LowerAfter(t, k)[i]) == LowerAfter(t, k)[i]
  {
    forall i | k < i < |t| ensures LowerChar(LowerAfter(t, k)[i]) == LowerAfter(t, k)[i] {
      LowerCharTwice(t[i]);
    }
  }

  /** Normalising twice is normalising once. */
  lemma NormalizeEmailIdempotent(e: string)
    ensures NormalizeEmail(NormalizeEmail(e)) == NormalizeEmail(e)
  {
    if '@' in e {
      NormalizeEmailAt(e);
      var t := Strip(e);
      var k := LastIndexOf(t, '@').value;
      LowerAfterNormal(t, k);
      NormalizeEmailKeeps(NormalizeEmail(e), k);
    }
  }

  /** `create`: refuses a missing or empty password before touching the
      table; `create_user` refuses an empty username and normalises the
      email; the database refuses a username already taken. The new row
      takes the next key and the caller gets it back without password. */
  function Create(t: UserTable, u: User): (r: Result<(UserTable, User), RepoError>)
    ensures r == Err(MissingPassword) <==> u.password.None? || u.password.value == ""
    ensures r == Err(EmptyUsername) <==> u.password.Some? && u.password.value != "" && u.username == ""
    ensures r.Err? <==> r == Err(MissingPassword) || r == Err(EmptyUsername)
                        || Exists(t.rows, WithUsername(u.username))
    ensures r.Ok? ==> r.value.1 == ToEntity(u.(id := Some(t.nextId), email := NormalizeEmail(u.email)))
    ensures r.Ok? ==> r.value.0 == UserTable(t.rows + [u.(id := Some(t.nextId), email := NormalizeEmail(u.email))],
                                             t.nextId + 1)
  {
    if u.password.None? || u.password.value == "" then Err(MissingPassword)
    else if u.username == "" then Err(EmptyUsername)
    else if Exists(t.rows, WithUsername(u.username)) then Err(UniqueViolation)
    else
      var row := u.(id := Some(t.nextId), email := NormalizeEmail(u.email));
      Ok((UserTable(t.rows + [row], t.nextId + 1), ToEntity(row)))
  }

  /** Creating keeps the table well formed, and the new user is found again
      by its key. */
  lemma CreateThenGet(t: UserTable, u: User)
    requires WellFormed(t) && t.nextId >= 1 && Create(t, u).Ok?
    ensures WellFormed(Create(t, u).value.0)
    ensures GetById(Create(t, u).value.0, t.nextId) == Some(Create(t, u).value.1)
  {
    CreateKeepsWellFormed(t, u);
    CreateFindsRow(t, u);
  }

  lemma CreateKeepsWellFormed(t: UserTable, u: User)
    requires WellFormed(t) && Create(t, u).Ok?
    ensures WellFormed(Create(t, u).value.0)
  {
    ExistsMeansSome(t.rows, WithUsername(u.username));
  }

  lemma CreateFindsRow(t: UserTable, u: User)
    requires WellFormed(t) && Create(t, u).Ok? && WellFormed(Create(t, u).value.0)
    ensures GetById(Create(t, u).value.0, t.nextId) == Some(Create(t, u).value.1)
  {
    var t2 := Create(t, u).value.0;
    var row := u.(id := Some(t.nextId), email := NormalizeEmail(u.email));
    assert t2.rows[|t.rows|] == row;
    IdsUnique(t2, t.nextId);
    var f := Filter(t2.rows, WithId(t.nextId));
    assert row in f;
  }

  /** The columns `update` may change; an absent entry is left alone. */
  datatype UserChange = UserChange(
    username: Option<string>,
    email: Option<string>,
    fullName: Option<string>,
    role: Option<Role>,
    isActive: Option<bool>)

  function Apply(row: User, c: UserChange): (r: User)
    ensures r.id == row.id && r.password == row.password
  {
    row.(username := c.username.GetOr(row.username),
         email := c.email.GetOr(row.email),
         fullName := c.fullName.GetOr(row.fullName),
         role := c.role.GetOr(row.role),
         isActive := c.isActive.GetOr(row.isActive))
  }

  /** The rows with the one whose key is `id` replaced by `f(row)`. */
  function ReplaceRow(rows: seq<User>, id: int, c: UserChange): (r: seq<User>)
    ensures |r| == |rows|
    ensures forall k | 0 <= k < |rows| ::
      r[k] == if rows[k].id == Some(id) then Apply(rows[k], c) else rows[k]
  {
    if rows == [] then []
    else [if rows[0].id == Some(id) then Apply(rows[0], c) else rows[0]] + ReplaceRow(rows[1..], id, c)
  }

  /** `update`: an unknown key gives `None` and no change; a username
      another row holds makes the database refuse the save. */
  function Update(t: UserTable, id: int, c: UserChange): (r: Result<(UserTable, Option<User>), RepoError>)
    requires WellFormed(t)
    ensures r.Ok? && r.value.1.None? ==> r.value.0 == t && GetById(t, id).None?
    ensures r.Ok? && r.value.1.Some? ==>
      && |r.value.0.rows| == |t.rows| && r.value.0.nextId == t.nextId
      && (forall k | 0 <= k < |t.rows| && t.rows[k].id != Some(id) :: r.value.0.rows[k] == t.rows[k])
      && r.value.1.value.id == Some(id) && r.value.1.value.password.None?
    ensures r.Ok? && r.value.1.Some? ==>
      exists i | 0 <= i < |t.rows| && t.rows[i].id == Some(id) ::
        && r.value.0.rows == t.rows[i := Apply(t.rows[i], c)]
        && r.value.1 == Some(ToEntity(Apply(t.rows[i], c)))
    ensures r.Ok? && r.value.1.None? <==> GetById(t, id).None?
    ensures r.Err? ==> r == Err(UniqueViolation) && c.username.Some?
    ensures r.Err? <==>
      && GetById(t, id).Some? && c.username.Some?
      && exists k | 0 <= k < |t.rows| :: t.rows[k].username == c.username.value && t.rows[k].id != Some(id)
  {
    match Get(t.rows, WithId(id))
    case Ok(Some(row)) =>
      if c.username.Some? && exists k | 0 <= k < |t.rows| :: t.rows[k].username == c.username.value && t.rows[k].id != Some(id)
      then Err(UniqueViolation)
      else
        ReplaceFound(t, id, c, row);
        Ok((UserTable(ReplaceRow(t.rows, id, c), t.nextId), Some(ToEntity(Apply(row, c)))))
    case _ =>
      IdsUnique(t, id);
      ExistsMeansSome(t.rows, WithId(id));
      Ok((t, None))
  }

  /** The row found by its key sits at a position `i`, and replacing by
      key changes that position only. */
  lemma ReplaceFound(t: UserTable, id: int, c: UserChange, row: User)
    requires WellFormed(t) && row in t.rows && row.id == Some(id)
    ensures exists i | 0 <= i < |t.rows| && t.rows[i].id == Some(id) ::
      ReplaceRow(t.rows, id, c) == t.rows[i := Apply(t.rows[i], c)] && row == t.rows[i]
  {
    var i :| 0 <= i < |t.rows| && t.rows[i] == row;
    ReplaceRowOthers(t, id, c, i);
    assert ReplaceRow(t.rows, id, c) == t.rows[i := Apply(t.rows[i], c)];
  }

  /** A successful update keeps the table well formed and the user read
      back carries the new columns. */
  lemma UpdateThenGet(t: UserTable, id: int, c: UserChange)
    requires WellFormed(t) && Update(t, id, c).Ok? && Update(t, id, c).value.1.Some?
    ensures WellFormed(Update(t, id, c).value.0)
    ensures GetById(Update(t, id, c).value.0, id) == Update(t, id, c).value.1
  {
    var row := Get(t.rows, WithId(id)).value.value;
    var i :| 0 <= i < |t.rows| && t.rows[i] == row;
    var t2 := UserTable(ReplaceRow(t.rows, id, c), t.nextId);
    assert Update(t, id, c) == Ok((t2, Some(ToEntity(Apply(row, c)))));
    ReplaceRowKeepsWellFormed(t, id, c, i);
    assert t2.rows[i] == Apply(row, c);
    FoundByKey(t2, id, i);
  }

  /** Only the row carrying the key changes, and a new username taken by
      no other row keeps names unique. */
  lemma ReplaceRowKeepsWellFormed(t: UserTable, id: int, c: UserChange, i: int)
    requires WellFormed(t) && 0 <= i < |t.rows| && t.rows[i].id == Some(id)
    requires c.username.Some? ==>
      forall k | 0 <= k < |t.rows| :: t.rows[k].id != Some(id) ==> t.rows[k].username != c.username.value
    ensures WellFormed(UserTable(ReplaceRow(t.rows, id, c), t.nextId))
  {
    ReplaceRowOthers(t, id, c, i);
    ReplaceRowKeys(t, id, c, i);
    ReplaceRowNames(t, id, c, i);
  }

  /** Keys are unique, so only row `i` carries the key `id`. */
  lemma ReplaceRowOthers(t: UserTable, id: int, c: UserChange, i: int)
    requires WellFormed(t) && 0 <= i < |t.rows| && t.rows[i].id == Some(id)
    ensures forall k | 0 <= k < |t.rows| && k != i :: ReplaceRow(t.rows, id, c)[k] == t.rows[k]
  {
    var r := ReplaceRow(t.rows, id, c);
    forall k | 0 <= k < |t.rows| && k != i ensures r[k] == t.rows[k] {
      if k < i {
        assert KeyOf(t.rows[k]) != KeyOf(t.rows[i]);
      } else {
        assert KeyOf(t.rows[i]) != KeyOf(t.rows[k]);
      }
    }
  }

  lemma ReplaceRowKeys(t: UserTable, id: int, c: UserChange, i: int)
    requires WellFormed(t) && 0 <= i < |t.rows| && t.rows[i].id == Some(id)
    requires forall k | 0 <= k < |t.rows| && k != i :: ReplaceRow(t.rows, id, c)[k] == t.rows[k]
    ensures UniqueBy(ReplaceRow(t.rows, id, c), KeyOf)
  {
    var r := ReplaceRow(t.rows, id, c);
    forall a, b | 0 <= a < b < |r| ensures KeyOf(r[a]) != KeyOf(r[b]) {
      assert KeyOf(t.rows[a]) != KeyOf(t.rows[b]);
    }
  }

  lemma ReplaceRowNames(t: UserTable, id: int, c: UserChange, i: int)
    requires WellFormed(t) && 0 <= i < |t.rows| && t.rows[i].id == Some(id)
    requires c.username.Some? ==>
      forall k | 0 <= k < |t.rows| :: t.rows[k].id != Some(id) ==> t.rows[k].username != c.username.value
    requires forall k | 0 <= k < |t.rows| && k != i :: ReplaceRow(t.rows, id, c)[k] == t.rows[k]
    ensures UniqueBy(ReplaceRow(t.rows, id, c), NameOf)
  {
    var r := ReplaceRow(t.rows, id, c);
    forall a, b | 0 <= a < b < |r| ensures NameOf(r[a]) != NameOf(r[b]) {
      assert KeyOf(t.rows[a]) != KeyOf(t.rows[b]);
    }
  }

  /** In a well-formed table the row at position `i` is the one found by
      its key. */
  lemma FoundByKey(t: UserTable, id: int, i: int)
    requires WellFormed(t) && 0 <= i < |t.rows| && t.rows[i].id == Some(id)
    ensures GetById(t, id) == Some(ToEntity(t.rows[i]))
  {
    GetFinds(t.rows, KeyOf, WithId(id), Some(id), i);
  }

  /** The columns `save` writes for a user that already has a key. */
  function ChangeOf(u: User): UserChange {
    UserChange(Some(u.username), Some(u.email), Some(u.fullName), Some(u.role), Some(u.isActive))
  }

  /** `save`: a truthy key (not `None`, not 0) updates, anything else
      creates. */
  function Save(t: UserTable, u: User): (r: Result<(UserTable, Option<User>), RepoError>)
    requires WellFormed(t)
    ensures u.id.Some? && u.id.value != 0 ==> r == Update(t, u.id.value, ChangeOf(u))
    ensures u.id.None? || u.id.value == 0 ==>
      r == match Create(t, u) case Ok((t2, created)) => Ok((t2, Some(created))) case Err(e) => Err(e)
  {
    if u.id.Some? && u.id.value != 0 then Update(t, u.id.value, ChangeOf(u))
    else
      match Create(t, u)
      case Ok((t2, created)) => Ok((t2, Some(created)))
      case Err(e) => Err(e)
  }

  /** Saving a user with key 0 inserts a new row rather than updating:
      the key is tested for truth, not for presence. */
  lemma SaveZeroIdCreates(t: UserTable, u: User)
    requires WellFormed(t) && u.id == Some(0) && Create(t, u).Ok?
    ensures Save(t, u).Ok? && |Save(t, u).value.0.rows| == |t.rows| + 1
  {
  }

  /** `delete`: removes the row with the key; false when there is none. */
  function Delete(t: UserTable, id: int): (r: (UserTable, bool))
    requires WellFormed(t)
    ensures r.1 <==> GetById(t, id).Some?
    ensures r.0.rows == Filter(t.rows, (u: User) => u.id != Some(id)) && r.0.nextId == t.nextId
  {
    (UserTable(Filter(t.rows, (u: User) => u.id != Some(id)), t.nextId), Exists(t.rows, WithId(id)))
  }

  /** After a delete the key is gone and the table stays well formed. */
  lemma DeleteRemoves(t: UserTable, id: int)
    requires WellFormed(t)
    ensures WellFormed(Delete(t, id).0)
    ensures GetById(Delete(t, id).0, id).None?
  {
    var t2 := Delete(t, id).0;
    SubsequenceKeepsUnique(t2.rows, t.rows, KeyOf);
    SubsequenceKeepsUnique(t2.rows, t.rows, NameOf);
    forall k | 0 <= k < |t2.rows| ensures t2.rows[k].id.Some? && 1 <= t2.rows[k].id.value < t2.nextId {
      SubsequenceMember(t2.rows, t.rows, k);
    }
  }

  /** Every assignment row names a stored user. */
  ghost predicate UsersReferenced(t: UserTable, rows: seq<Assignment>) {
    forall k | 0 <= k < |rows| :: HasKey(t, rows[k].userId)
  }

  /** Some stored row has the key. */
  ghost predicate HasKey(t: UserTable, key: int) {
    exists i | 0 <= i < |t.rows| :: t.rows[i].id == Some(key)
  }

  /** `delete` as the database performs it: the assignment table's foreign
      key to the user is `CASCADE`, so the user's assignment rows go with
      the user row. */
  function DeleteCascading(t: UserTable, rows: seq<Assignment>, id: int): (r: (UserTable, seq<Assignment>, bool))
    requires WellFormed(t)
    ensures (r.0, r.2) == Delete(t, id)
    ensures forall k | 0 <= k < |r.1| :: r.1[k] in rows && r.1[k].userId != id
    ensures forall k | 0 <= k < |rows| && rows[k].userId != id :: rows[k] in r.1
    ensures Subsequence(r.1, rows)
  {
    var keep := (a: Assignment) => a.userId != id;
    var left := Filter(rows, keep);
    assert forall k | 0 <= k < |left| :: keep(left[k]);
    (Delete(t, id).0, left, Delete(t, id).1)
  }

  /** The cascade keeps the assignment table's references intact: when
      every row named a stored user before, every row still does. */
  lemma DeleteCascadingKeepsReferences(t: UserTable, rows: seq<Assignment>, id: int)
    requires WellFormed(t) && UsersReferenced(t, rows)
    ensures var r := DeleteCascading(t, rows, id); UsersReferenced(r.0, r.1)
  {
  }

  /** The listing filters: an empty or absent role filter and an absent
      active filter keep everything. */
  function ListFilter(roleFilter: Option<string>, activeFilter: Option<bool>): User -> bool {
    (u: User) => (roleFilter.None? || roleFilter.value == "" || RoleValue(u.role) == roleFilter.value)
         && (activeFilter.None? || u.isActive == activeFilter.value)
  }

  /** `list`: the requested page of the filtered rows, and how many rows
      pass the filters. */
  function List(t: UserTable, page: int, pageSize: int, roleFilter: Option<string>, activeFilter: Option<bool>)
    : (r: Result<(seq<User>, nat), SliceError>)
    ensures r.Ok? ==> r.value.1 == Count(t.rows, ListFilter(roleFilter, activeFilter))
    ensures r.Ok? <==> PageOf(Filter(t.rows, ListFilter(roleFilter, activeFilter)), page, pageSize).Ok?
    ensures r.Ok? ==> forall k | 0 <= k < |r.value.0| :: r.value.0[k].password.None?
  {
    var filtered := Filter(t.rows, ListFilter(roleFilter, activeFilter));
    match PageOf(filtered, page, pageSize)
    case Ok(rows) => Ok((seq(|rows|, k requires 0 <= k < |rows| => ToEntity(rows[k])), |filtered|))
    case Err(e) => Err(e)
  }

  /** Every user passing the filters appears on the page its position
      gives, and the pages are counted over the filtered rows only. */
  lemma ListShowsEveryMatch(t: UserTable, i: nat, pageSize: int, roleFilter: Option<string>, activeFilter: Option<bool>)
    requires pageSize >= 1 && i < Count(t.rows, ListFilter(roleFilter, activeFilter))
    ensures var r := List(t, i / pageSize + 1, pageSize, roleFilter, activeFilter);
      r.Ok? && i % pageSize < |r.value.0|
      && r.value.0[i % pageSize] == ToEntity(Filter(t.rows, ListFilter(roleFilter, activeFilter))[i])
  {
    PageHolds(Filter(t.rows, ListFilter(roleFilter, activeFilter)), i, pageSize);
  }

  predicate IsActiveRow(u: User) { u.isActive }
  predicate IsInactiveRow(u: User) { !u.isActive }
  predicate IsSuperAdminRow(u: User) { u.role == SuperAdmin }
  predicate IsRegularRow(u: User) { u.role == RegularUser }

  datatype UserStats = UserStats(total: nat, active: nat, inactive: int, superAdmins: nat, regularUsers: nat)

  /** `get_stats`: inactive users are computed as total minus active. */
  function Stats(t: UserTable): (r: UserStats)
    ensures r.total == |t.rows| && r.active <= r.total && r.superAdmins <= r.total
  {
    var total := |t.rows|;
    var active := Count(t.rows, IsActiveRow);
    UserStats(total, active, total - active, Count(t.rows, IsSuperAdminRow), Count(t.rows, IsRegularRow))
  }

  /** The derived figure agrees with counting inactive rows, and the two
      roles split the users. */
  lemma StatsAddUp(t: UserTable)
    ensures Stats(t).inactive == Count(t.rows, IsInactiveRow)
    ensures Stats(t).superAdmins + Stats(t).regularUsers == Stats(t).total
  {
    CountComplement(t.rows, IsActiveRow, IsInactiveRow);
    CountPartition(t.rows, IsSuperAdminRow, IsRegularRow);
  }
}
