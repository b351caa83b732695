/** The assignment store of the database repositories: pairs are inserted
    once and removed by deleting their row. The users and solutions that
    exist are given as sets of keys, for the foreign-key checks. */
module HardAssignmentStore {
  import opened Tables
  import opened AssignmentRows

  /** `create`: false when a row for the pair exists, active or not, and
      false when the foreign keys fail (the error is swallowed); otherwise
      an active row is appended. */
  function Create(rows: seq<Assignment>, solutionId: int, userId: int, users: set<int>, solutions: set<int>)
    : (r: (seq<Assignment>, bool))
    ensures r.1 <==> !HasPair(rows, userId, solutionId) && userId in users && solutionId in solutions
    ensures r.1 ==> r.0 == rows + [Assignment(userId, solutionId, true)]
    ensures !r.1 ==> r.0 == rows
  {
    ExistsMeansSome(rows, ForPair(userId, solutionId));
    if Exists(rows, ForPair(userId, solutionId)) then (rows, false)
    else if userId !in users || solutionId !in solutions then (rows, false)
    else (rows + [Assignment(userId, solutionId, true)], true)
  }

  /** `assign_solution_to_user`. */
  function Assign(rows: seq<Assignment>, userId: int, solutionId: int, users: set<int>, solutions: set<int>)
    : (r: (seq<Assignment>, bool))
    ensures r == Create(rows, solutionId, userId, users, solutions)
  {
    Create(rows, solutionId, userId, users, solutions)
  }

  /** A created pair is assigned, the table stays free of duplicates, and
      creating it again is refused. */
  lemma CreateThenExists(rows: seq<Assignment>, solutionId: int, userId: int, users: set<int>, solutions: set<int>)
    requires WellFormed(rows) && Create(rows, solutionId, userId, users, solutions).1
    ensures var after := Create(rows, solutionId, userId, users, solutions).0;
      && WellFormed(after)
      && IsAssigned(after, userId, solutionId)
      && Create(after, solutionId, userId, users, solutions) == (after, false)
  {
    var after := Create(rows, solutionId, userId, users, solutions).0;
    assert after[|rows|] == Assignment(userId, solutionId, true);
    forall a, b | 0 <= a < b < |after| ensures PairOf(after[a]) != PairOf(after[b]) {
      if b < |rows| {
        assert PairOf(rows[a]) != PairOf(rows[b]);
      } else {
        assert after[a] == rows[a];
      }
    }
  }

  /** A pair whose row was deactivated can never be assigned again through
      this store: `create` sees the inactive row and refuses. */
  lemma InactivePairStaysUnassigned(rows: seq<Assignment>, i: int, users: set<int>, solutions: set<int>)
    requires WellFormed(rows) && 0 <= i < |rows| && !rows[i].isActive
    ensures var r := Create(rows, rows[i].solutionId, rows[i].userId, users, solutions);
      !r.1 && !IsAssigned(r.0, rows[i].userId, rows[i].solutionId)
  {
    forall j | 0 <= j < |rows| && j != i ensures PairOf(rows[j]) != PairOf(rows[i]) {
      if j < i {
        assert PairOf(rows[j]) != PairOf(rows[i]);
      } else {
        assert PairOf(rows[i]) != PairOf(rows[j]);
      }
    }
  }

  /** `delete` / `unassign_solution_from_user`: removes the pair's row,
      active or not; false when there is none. */
  function Delete(rows: seq<Assignment>, solutionId: int, userId: int): (r: (seq<Assignment>, bool))
    requires WellFormed(rows)
    ensures r.1 <==> HasPair(rows, userId, solutionId)
    ensures !HasPair(r.0, userId, solutionId)
    ensures Subsequence(r.0, rows)
    ensures forall i | 0 <= i < |rows| && PairOf(rows[i]) != Pair(userId, solutionId) :: rows[i] in r.0
  {
    ExistsMeansSome(rows, ForPair(userId, solutionId));
    var keep := (a: Assignment) => !(a.userId == userId && a.solutionId == solutionId);
    var left := Filter(rows, keep);
    assert forall k | 0 <= k < |left| :: keep(left[k]);
    (left, Exists(rows, ForPair(userId, solutionId)))
  }

  /** Deleting keeps the table free of duplicates, and afterwards the pair
      can be created afresh. */
  lemma DeleteThenCreate(rows: seq<Assignment>, solutionId: int, userId: int, users: set<int>, solutions: set<int>)
    requires WellFormed(rows) && userId in users && solutionId in solutions
    ensures WellFormed(Delete(rows, solutionId, userId).0)
    ensures Create(Delete(rows, solutionId, userId).0, solutionId, userId, users, solutions).1
  {
    SubsequenceKeepsUnique(Delete(rows, solutionId, userId).0, rows, PairOf);
  }

  /** `remove_all_user_assignments`: deletes every row of the user, active
      or not, and returns how many there were. */
  function RemoveAllUserAssignments(rows: seq<Assignment>, userId: int): (r: (seq<Assignment>, nat))
    ensures r.1 == Count(rows, ForUser(userId))
    ensures r.1 + |r.0| == |rows|
    ensures forall k | 0 <= k < |r.0| :: r.0[k].userId != userId && r.0[k] in rows
    ensures forall i | 0 <= i < |rows| && rows[i].userId != userId :: rows[i] in r.0
  {
    var other := (a: Assignment) => a.userId != userId;
    CountComplement(rows, ForUser(userId), other);
    (Filter(rows, other), Count(rows, ForUser(userId)))
  }

  /** `remove_all_solution_assignments`: the same, keyed on the solution. */
  function RemoveAllSolutionAssignments(rows: seq<Assignment>, solutionId: int): (r: (seq<Assignment>, nat))
    ensures r.1 == Count(rows, ForSolution(solutionId))
    ensures r.1 + |r.0| == |rows|
    ensures forall k | 0 <= k < |r.0| :: r.0[k].solutionId != solutionId && r.0[k] in rows
    ensures forall i | 0 <= i < |rows| && rows[i].solutionId != solutionId :: rows[i] in r.0
  {
    var other := (a: Assignment) => a.solutionId != solutionId;
    CountComplement(rows, ForSolution(solutionId), other);
    (Filter(rows, other), Count(rows, ForSolution(solutionId)))
  }

  /** After removing a user's rows none of its solutions is listed, while
      every other user keeps its listing. */
  lemma RemoveAllUserEmptiesListing(rows: seq<Assignment>, userId: int, other: int, solutionId: int)
    requires other != userId
    ensures UserSolutions(RemoveAllUserAssignments(rows, userId).0, userId) == []
    ensures IsAssigned(RemoveAllUserAssignments(rows, userId).0, other, solutionId) <==> IsAssigned(rows, other, solutionId)
  {
    var after := RemoveAllUserAssignments(rows, userId).0;
    ExistsMeansSome(after, ActiveForUser(userId));
    if IsAssigned(rows, other, solutionId) {
      var i :| 0 <= i < |rows| && rows[i].userId == other && rows[i].solutionId == solutionId && rows[i].isActive;
      assert rows[i] in after;
    }
    if IsAssigned(after, other, solutionId) {
      var k :| 0 <= k < |after| && after[k].userId == other && after[k].solutionId == solutionId && after[k].isActive;
      assert after[k] in rows;
    }
  }

  /** `get_user_assignments`: the user's active rows, in table order. */
  function UserAssignments(rows: seq<Assignment>, userId: int): (r: seq<Assignment>)
    ensures forall k | 0 <= k < |r| :: r[k] in rows && r[k].userId == userId && r[k].isActive
    ensures Project(r, SolutionOf) == UserSolutions(rows, userId)
  {
    Filter(rows, ActiveForUser(userId))
  }

  /** `get_solution_assignments`: the solution's active rows, in table
      order. */
  function SolutionAssignments(rows: seq<Assignment>, solutionId: int): (r: seq<Assignment>)
    ensures forall k | 0 <= k < |r| :: r[k] in rows && r[k].solutionId == solutionId && r[k].isActive
    ensures Project(r, UserOf) == SolutionUsers(rows, solutionId)
  {
    Filter(rows, ActiveForSolution(solutionId))
  }
}
