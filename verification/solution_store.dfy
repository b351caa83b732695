/** The `SolutionRepository` interface the solution use cases are written
    against: the stored solutions in insertion order, each under the key
    it was given when first saved. */
module SolutionStore {
  import opened Wrappers
  import opened Tables
  import opened SolutionEntity

  datatype Store = Store(rows: seq<Solution>, nextId: int)

  function KeyOf(s: Solution): Option<int> { s.id }
  function NameOf(s: Solution): string { s.name }

  /** The counter starts at one, every solution has a key below it and
      above zero, and keys and names are unique. */
  ghost predicate WellFormed(st: Store) {
    1 <= st.nextId
    && (forall i | 0 <= i < |st.rows| :: st.rows[i].id.Some? && 1 <= st.rows[i].id.value < st.nextId)
    && UniqueBy(st.rows, KeyOf) && UniqueBy(st.rows, NameOf)
  }

  function WithId(id: int): Solution -> bool { (s: Solution) => s.id == Some(id) }
  function WithoutId(id: int): Solution -> bool { (s: Solution) => s.id != Some(id) }
  function WithName(name: string): Solution -> bool { (s: Solution) => s.name == name }

  /** `find_by_id`. */
  function FindById(st: Store, id: int): (r: Option<Solution>)
    ensures r.Some? ==> r.value in st.rows && r.value.id == Some(id)
    ensures r.None? <==> forall i | 0 <= i < |st.rows| :: st.rows[i].id != Some(id)
  {
    ExistsMeansSome(st.rows, WithId(id));
    First(st.rows, WithId(id))
  }

  /** With unique keys the solution found is the one stored under the key. */
  lemma FindByIdFinds(st: Store, i: int)
    requires WellFormed(st) && 0 <= i < |st.rows|
    ensures FindById(st, st.rows[i].id.value) == Some(st.rows[i])
  {
    FirstFinds(st.rows, KeyOf, WithId(st.rows[i].id.value), st.rows[i].id, i);
  }

  /** `exists_by_name`. */
  predicate ExistsByName(st: Store, name: string) {
    Exists(st.rows, WithName(name))
  }

  /** The existence check finds exactly the names some solution holds. */
  lemma ExistsByNameMeansHeld(st: Store, name: string)
    ensures ExistsByName(st, name) <==> exists i | 0 <= i < |st.rows| :: st.rows[i].name == name
  {
    ExistsMeansSome(st.rows, WithName(name));
  }

  /** The keys of the stored solutions. */
  function Keys(st: Store): (ks: set<int>)
    ensures forall id :: id in ks <==> FindById(st, id).Some?
  {
    set i | 0 <= i < |st.rows| && st.rows[i].id.Some? :: st.rows[i].id.value
  }

  /** The stored solutions with the one whose key is `s`'s replaced by `s`. */
  function Replace(rows: seq<Solution>, s: Solution): (r: seq<Solution>)
    ensures |r| == |rows|
    ensures forall k | 0 <= k < |rows| :: r[k] == if rows[k].id == s.id then s else rows[k]
  {
    seq(|rows|, k requires 0 <= k < |rows| => if rows[k].id == s.id then s else rows[k])
  }

  /** The solution's key names a stored solution. */
  predicate Stored(st: Store, s: Solution) {
    s.id.Some? && FindById(st, s.id.value).Some?
  }

  /** `save`: a solution whose key is stored replaces the stored one; any
      other solution is added under the next key. */
  function Save(st: Store, s: Solution): (r: (Store, Solution))
    ensures Stored(st, s) ==> r.1 == s && |r.0.rows| == |st.rows| && r.0.nextId == st.nextId
    ensures !Stored(st, s) ==> r.1 == s.(id := Some(st.nextId)) && r.0.rows == st.rows + [r.1]
                               && r.0.nextId == st.nextId + 1
  {
    if Stored(st, s) then (Store(Replace(st.rows, s), st.nextId), s)
    else
      var added := s.(id := Some(st.nextId));
      (Store(st.rows + [added], st.nextId + 1), added)
  }

  /** No stored solution other than `s` itself has `s`'s name. */
  predicate NameFree(st: Store, s: Solution) {
    forall i | 0 <= i < |st.rows| :: st.rows[i].name == s.name ==> s.id.Some? && st.rows[i].id == s.id
  }

  /** A solution keeping its stored name, or taking one nobody holds, has a
      free name. */
  lemma RenamedNameFree(st: Store, prior: Solution, s: Solution)
    requires WellFormed(st) && prior in st.rows && s.id == prior.id
    requires s.name == prior.name || !ExistsByName(st, s.name)
    ensures NameFree(st, s)
  {
    ExistsByNameMeansHeld(st, s.name);
    if s.name == prior.name {
      var j :| 0 <= j < |st.rows| && st.rows[j] == prior;
      forall i | 0 <= i < |st.rows| && st.rows[i].name == s.name ensures s.id.Some? && st.rows[i].id == s.id {
        assert i == j;
      }
    }
  }

  /** Saving a solution whose name is free keeps keys and names unique, and
      the saved solution is then found under its key. */
  lemma SaveThenFind(st: Store, s: Solution)
    requires WellFormed(st) && NameFree(st, s)
    ensures var r := Save(st, s);
      && WellFormed(r.0)
      && r.1.id.Some?
      && FindById(r.0, r.1.id.value) == Some(r.1)
      && ExistsByName(r.0, s.name)
  {
    var r := Save(st, s);
    if Stored(st, s) {
      SaveReplaceWellFormed(st, s);
      var i :| 0 <= i < |st.rows| && st.rows[i].id == s.id;
      assert r.0.rows[i] == s;
      FindByIdFinds(r.0, i);
      ExistsByNameMeansHeld(r.0, s.name);
    } else {
      SaveAppendWellFormed(st, s);
      var n := |st.rows|;
      assert r.0.rows[n] == r.1;
      FindByIdFinds(r.0, n);
      ExistsByNameMeansHeld(r.0, s.name);
    }
  }

  lemma SaveReplaceWellFormed(st: Store, s: Solution)
    requires WellFormed(st) && NameFree(st, s) && Stored(st, s)
    ensures WellFormed(Save(st, s).0)
  {
    var rows := Save(st, s).0.rows;
    forall a, b | 0 <= a < b < |rows| ensures rows[a].id != rows[b].id && rows[a].name != rows[b].name {
      assert st.rows[a].id != st.rows[b].id && st.rows[a].name != st.rows[b].name;
    }
    forall k | 0 <= k < |rows| ensures rows[k].id.Some? && 1 <= rows[k].id.value < st.nextId {
      assert st.rows[k].id.Some? && 1 <= st.rows[k].id.value < st.nextId;
    }
  }

  lemma SaveAppendWellFormed(st: Store, s: Solution)
    requires WellFormed(st) && NameFree(st, s) && !Stored(st, s)
    ensures WellFormed(Save(st, s).0)
  {
    var rows := Save(st, s).0.rows;
    var n := |st.rows|;
    forall a, b | 0 <= a < b < |rows| ensures rows[a].id != rows[b].id && rows[a].name != rows[b].name {
      if b < n {
        assert st.rows[a].id != st.rows[b].id && st.rows[a].name != st.rows[b].name;
      } else {
        assert rows[a] == st.rows[a];
      }
    }
  }

  /** Saving a stored solution whose name is free leaves every other key's
      solution as it was. */
  lemma SaveKeepsOthers(st: Store, s: Solution, other: int)
    requires WellFormed(st) && NameFree(st, s) && Stored(st, s) && s.id != Some(other)
    ensures FindById(Save(st, s).0, other) == FindById(st, other)
  {
    SaveReplaceWellFormed(st, s);
    var after := Save(st, s).0;
    assert after.rows == Replace(st.rows, s);
    if FindById(st, other).Some? {
      var i :| 0 <= i < |st.rows| && st.rows[i] == FindById(st, other).value;
      assert after.rows[i] == st.rows[i];
      FindByIdFinds(st, i);
      FindByIdFinds(after, i);
    } else {
      forall k | 0 <= k < |after.rows| ensures after.rows[k].id != Some(other) {
        assert after.rows[k] == s || after.rows[k] == st.rows[k];
      }
    }
  }

  /** `delete`: removes the solution with the key; false when there is
      none. */
  function Delete(st: Store, id: int): (r: (Store, bool))
    ensures r.1 <==> FindById(st, id).Some?
    ensures r.0.nextId == st.nextId
    ensures forall k | 0 <= k < |r.0.rows| :: r.0.rows[k].id != Some(id) && r.0.rows[k] in st.rows
    ensures forall i | 0 <= i < |st.rows| && st.rows[i].id != Some(id) :: st.rows[i] in r.0.rows
  {
    (Store(Filter(st.rows, WithoutId(id)), st.nextId), FindById(st, id).Some?)
  }

  /** A deleted solution is gone, the others stay, and the store stays
      well formed. */
  lemma DeleteRemoves(st: Store, id: int)
    requires WellFormed(st)
    ensures WellFormed(Delete(st, id).0)
    ensures FindById(Delete(st, id).0, id).None?
  {
    var after := Delete(st, id).0;
    SubsequenceKeepsUnique(after.rows, st.rows, KeyOf);
    SubsequenceKeepsUnique(after.rows, st.rows, NameOf);
    forall k | 0 <= k < |after.rows| ensures after.rows[k].id.Some? && 1 <= after.rows[k].id.value < after.nextId {
      SubsequenceMember(after.rows, st.rows, k);
    }
  }
}
