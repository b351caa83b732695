/** The `UserRepository` interface the use cases are written against: the
    users table of `UserRepository` read through the interface's queries.
    Unlike the database repository it hands back each user as it was saved,
    password included. */
module UserStore {
  import opened Wrappers
  import opened Tables
  import opened UserEntity
  import UserRepository

  type Store = UserRepository.UserTable

  function WithId(id: int): User -> bool { UserRepository.WithId(id) }
  function WithUsername(name: string): User -> bool { UserRepository.WithUsername(name) }
  function WithEmail(email: string): User -> bool { UserRepository.WithEmail(email) }
  function WithRole(role: Role): User -> bool { (u: User) => u.role == role }

  /** `find_by_id`. */
  function FindById(s: Store, id: int): (r: Option<User>)
    ensures r.Some? ==> r.value in s.rows && r.value.id == Some(id)
    ensures r.None? <==> forall i | 0 <= i < |s.rows| :: s.rows[i].id != Some(id)
  {
    ExistsMeansSome(s.rows, WithId(id));
    First(s.rows, WithId(id))
  }

  /** With unique keys the user found is the one stored under the key. */
  lemma FindByIdFinds(s: Store, i: int)
    requires UserRepository.WellFormed(s) && 0 <= i < |s.rows|
    ensures FindById(s, s.rows[i].id.value) == Some(s.rows[i])
  {
    FirstFinds(s.rows, UserRepository.KeyOf, WithId(s.rows[i].id.value), s.rows[i].id, i);
  }

  /** The keys of the stored users. */
  function Keys(s: Store): (ks: set<int>)
    ensures forall id :: id in ks <==> FindById(s, id).Some?
  {
    set i | 0 <= i < |s.rows| && s.rows[i].id.Some? :: s.rows[i].id.value
  }

  /** `find_by_username`. */
  function FindByUsername(s: Store, name: string): (r: Option<User>)
    ensures r.Some? ==> r.value in s.rows && r.value.username == name
    ensures r.None? <==> forall i | 0 <= i < |s.rows| :: s.rows[i].username != name
  {
    ExistsMeansSome(s.rows, WithUsername(name));
    First(s.rows, WithUsername(name))
  }

  /** `find_by_email`: the first user with the address; addresses are not
      a key of the table. */
  function FindByEmail(s: Store, email: string): (r: Option<User>)
    ensures r.Some? ==> r.value in s.rows && r.value.email == email
    ensures r.None? <==> forall i | 0 <= i < |s.rows| :: s.rows[i].email != email
  {
    ExistsMeansSome(s.rows, WithEmail(email));
    First(s.rows, WithEmail(email))
  }

  /** `exists_by_username`: some stored user has the name. */
  predicate ExistsByUsername(s: Store, name: string) {
    Exists(s.rows, WithUsername(name))
  }

  /** `exists_by_email`: some stored user has the address. */
  predicate ExistsByEmail(s: Store, email: string) {
    Exists(s.rows, WithEmail(email))
  }

  /** The existence checks agree with the finders. */
  lemma ExistsAgreesWithFind(s: Store, name: string, email: string)
    ensures ExistsByUsername(s, name) <==> FindByUsername(s, name).Some?
    ensures ExistsByEmail(s, email) <==> FindByEmail(s, email).Some?
    ensures ExistsByUsername(s, name) <==> exists i | 0 <= i < |s.rows| :: s.rows[i].username == name
  {
    ExistsMeansSome(s.rows, WithUsername(name));
  }

  /** `find_by_role`: the users holding the role, in table order. */
  function FindByRole(s: Store, role: Role): (r: seq<User>)
    ensures forall k | 0 <= k < |r| :: r[k] in s.rows && r[k].role == role
    ensures forall i | 0 <= i < |s.rows| && s.rows[i].role == role :: s.rows[i] in r
  {
    Filter(s.rows, WithRole(role))
  }

  /** `count_total`. */
  function CountTotal(s: Store): (n: nat)
    ensures n == |s.rows|
  {
    |s.rows|
  }

  /** `count_active`. */
  function CountActive(s: Store): (n: nat)
    ensures n <= CountTotal(s)
  {
    Count(s.rows, UserRepository.IsActiveRow)
  }

  /** The stored users with the one whose key is `u`'s replaced by `u`. */
  function Replace(rows: seq<User>, u: User): (r: seq<User>)
    ensures |r| == |rows|
    ensures forall k | 0 <= k < |rows| :: r[k] == if rows[k].id == u.id then u else rows[k]
  {
    seq(|rows|, k requires 0 <= k < |rows| => if rows[k].id == u.id then u else rows[k])
  }

  /** The user's key names a stored user. */
  predicate Stored(s: Store, u: User) {
    u.id.Some? && FindById(s, u.id.value).Some?
  }

  /** `save`: a user whose key is stored replaces the stored one; any other
      user is added under the next key. The saved user is returned. */
  function Save(s: Store, u: User): (r: (Store, User))
    ensures Stored(s, u) ==> r.1 == u && |r.0.rows| == |s.rows| && r.0.nextId == s.nextId
    ensures !Stored(s, u) ==> r.1 == u.(id := Some(s.nextId)) && r.0.rows == s.rows + [r.1]
                              && r.0.nextId == s.nextId + 1
  {
    if Stored(s, u) then (UserRepository.UserTable(Replace(s.rows, u), s.nextId), u)
    else
      var added := u.(id := Some(s.nextId));
      (UserRepository.UserTable(s.rows + [added], s.nextId + 1), added)
  }

  /** No stored user other than `u` itself has `u`'s username. */
  predicate NameFree(s: Store, u: User) {
    forall i | 0 <= i < |s.rows| :: s.rows[i].username == u.username ==> u.id.Some? && s.rows[i].id == u.id
  }

  /** Saving a user whose name is free keeps keys and names unique, and the
      saved user is then found under its key, and under its name. */
  lemma SaveThenFind(s: Store, u: User)
    requires UserRepository.WellFormed(s) && NameFree(s, u)
    ensures var r := Save(s, u);
      && UserRepository.WellFormed(r.0)
      && r.1.id.Some?
      && FindById(r.0, r.1.id.value) == Some(r.1)
      && FindByUsername(r.0, u.username) == Some(r.1)
  {
    var r := Save(s, u);
    if Stored(s, u) {
      SaveReplaceWellFormed(s, u);
      var i :| 0 <= i < |s.rows| && s.rows[i].id == u.id;
      assert r.0.rows[i] == u;
      FindByIdFinds(r.0, i);
      FirstFinds(r.0.rows, UserRepository.NameOf, WithUsername(u.username), u.username, i);
    } else {
      SaveAppendWellFormed(s, u);
      var n := |s.rows|;
      assert r.0.rows[n] == r.1;
      FindByIdFinds(r.0, n);
      FirstFinds(r.0.rows, UserRepository.NameOf, WithUsername(u.username), u.username, n);
    }
  }

  /** Replacing a stored user by one with the same key and a free name. */
  lemma SaveReplaceWellFormed(s: Store, u: User)
    requires UserRepository.WellFormed(s) && NameFree(s, u) && Stored(s, u)
    ensures UserRepository.WellFormed(Save(s, u).0)
  {
    var rows := Save(s, u).0.rows;
    forall a, b | 0 <= a < b < |rows| ensures rows[a].id != rows[b].id && rows[a].username != rows[b].username {
      assert s.rows[a].id != s.rows[b].id && s.rows[a].username != s.rows[b].username;
    }
    forall k | 0 <= k < |rows| ensures rows[k].id.Some? && 1 <= rows[k].id.value < s.nextId {
      assert s.rows[k].id.Some? && 1 <= s.rows[k].id.value < s.nextId;
    }
  }

  /** Adding a user under the next key, with a free name. */
  lemma SaveAppendWellFormed(s: Store, u: User)
    requires UserRepository.WellFormed(s) && NameFree(s, u) && !Stored(s, u)
    ensures UserRepository.WellFormed(Save(s, u).0)
  {
    var rows := Save(s, u).0.rows;
    var n := |s.rows|;
    forall a, b | 0 <= a < b < |rows| ensures rows[a].id != rows[b].id && rows[a].username != rows[b].username {
      if b < n {
        assert s.rows[a].id != s.rows[b].id && s.rows[a].username != s.rows[b].username;
      } else {
        assert rows[a] == s.rows[a];
      }
    }
  }
}
