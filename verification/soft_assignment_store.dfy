/** The assignment store of `infrastructure/repositories`: unassigning
    only clears a pair's active flag, and assigning again sets it back.
    The users and solutions that exist are given as sets of keys. */
module SoftAssignmentStore {
  import opened Tables
  import opened AssignmentRows

  /** The rows with the flag of the pair's row set to `flag`. */
  function SetFlag(rows: seq<Assignment>, userId: int, solutionId: int, flag: bool): (r: seq<Assignment>)
    ensures |r| == |rows|
    ensures forall k | 0 <= k < |rows| ::
      r[k] == if PairOf(rows[k]) == Pair(userId, solutionId) then rows[k].(isActive := flag) else rows[k]
  {
    if rows == [] then []
    else
      [if PairOf(rows[0]) == Pair(userId, solutionId) then rows[0].(isActive := flag) else rows[0]]
      + SetFlag(rows[1..], userId, solutionId, flag)
  }

  /** Changing flags keeps pairs and so keeps them unique. */
  lemma SetFlagKeepsWellFormed(rows: seq<Assignment>, userId: int, solutionId: int, flag: bool)
    requires WellFormed(rows)
    ensures WellFormed(SetFlag(rows, userId, solutionId, flag))
  {
    var r := SetFlag(rows, userId, solutionId, flag);
    forall a, b | 0 <= a < b < |r| ensures PairOf(r[a]) != PairOf(r[b]) {
      assert PairOf(r[a]) == PairOf(rows[a]) && PairOf(r[b]) == PairOf(rows[b]);
    }
  }

  /** `assign_solution_to_user`: false when the user or the solution does
      not exist; otherwise the pair's row is created active, or set active
      again, and the answer is true. */
  function Assign(rows: seq<Assignment>, userId: int, solutionId: int, users: set<int>, solutions: set<int>)
    : (r: (seq<Assignment>, bool))
    ensures r.1 <==> userId in users && solutionId in solutions
    ensures !r.1 ==> r.0 == rows
    ensures r.1 && HasPair(rows, userId, solutionId) ==> r.0 == SetFlag(rows, userId, solutionId, true)
    ensures r.1 && !HasPair(rows, userId, solutionId) ==> r.0 == rows + [Assignment(userId, solutionId, true)]
  {
    if userId !in users || solutionId !in solutions then (rows, false)
    else if HasPair(rows, userId, solutionId) then (SetFlag(rows, userId, solutionId, true), true)
    else (rows + [Assignment(userId, solutionId, true)], true)
  }

  /** After a successful assign the pair is assigned, the table keeps one
      row per pair, and assigning again changes nothing. */
  lemma AssignIdempotent(rows: seq<Assignment>, userId: int, solutionId: int, users: set<int>, solutions: set<int>)
    requires WellFormed(rows) && userId in users && solutionId in solutions
    ensures var after := Assign(rows, userId, solutionId, users, solutions).0;
      && WellFormed(after)
      && IsAssigned(after, userId, solutionId)
      && Assign(after, userId, solutionId, users, solutions) == (after, true)
  {
    var after := Assign(rows, userId, solutionId, users, solutions).0;
    if HasPair(rows, userId, solutionId) {
      var i :| 0 <= i < |rows| && rows[i].userId == userId && rows[i].solutionId == solutionId;
      SetFlagKeepsWellFormed(rows, userId, solutionId, true);
      assert after[i].isActive;
      SetFlagTwice(rows, userId, solutionId);
    } else {
      assert after[|rows|] == Assignment(userId, solutionId, true);
      forall a, b | 0 <= a < b < |after| ensures PairOf(after[a]) != PairOf(after[b]) {
        if b < |rows| {
          assert PairOf(rows[a]) != PairOf(rows[b]);
        } else {
          assert after[a] == rows[a];
        }
      }
      var again := SetFlag(after, userId, solutionId, true);
      forall k | 0 <= k < |after| ensures again[k] == after[k] {
        if k < |rows| {
          assert after[k] == rows[k];
        }
      }
      assert again == after;
    }
  }

  /** Setting the same flag twice is setting it once. */
  lemma SetFlagTwice(rows: seq<Assignment>, userId: int, solutionId: int)
    ensures SetFlag(SetFlag(rows, userId, solutionId, true), userId, solutionId, true)
            == SetFlag(rows, userId, solutionId, true)
  {
    var once := SetFlag(rows, userId, solutionId, true);
    var twice := SetFlag(once, userId, solutionId, true);
    assert forall k | 0 <= k < |rows| :: twice[k] == once[k];
  }

  /** `unassign_solution_from_user`: only an active row is deactivated;
      false when the pair is not assigned. */
  function Unassign(rows: seq<Assignment>, userId: int, solutionId: int): (r: (seq<Assignment>, bool))
    ensures r.1 <==> IsAssigned(rows, userId, solutionId)
    ensures r.1 ==> r.0 == SetFlag(rows, userId, solutionId, false)
    ensures !r.1 ==> r.0 == rows
  {
    if IsAssigned(rows, userId, solutionId) then (SetFlag(rows, userId, solutionId, false), true)
    else (rows, false)
  }

  /** Assigning then unassigning leaves the pair unassigned, with its row
      kept; unassigning again is refused. */
  lemma AssignThenUnassign(rows: seq<Assignment>, userId: int, solutionId: int, users: set<int>, solutions: set<int>)
    requires WellFormed(rows) && userId in users && solutionId in solutions
    ensures var withPair := Assign(rows, userId, solutionId, users, solutions).0;
      var r := Unassign(withPair, userId, solutionId);
      && r.1 && !IsAssigned(r.0, userId, solutionId) && HasPair(r.0, userId, solutionId)
      && !Unassign(r.0, userId, solutionId).1
  {
    AssignIdempotent(rows, userId, solutionId, users, solutions);
    var withPair := Assign(rows, userId, solutionId, users, solutions).0;
    var i :| 0 <= i < |withPair| && withPair[i].userId == userId && withPair[i].solutionId == solutionId && withPair[i].isActive;
    var after := SetFlag(withPair, userId, solutionId, false);
    assert after[i].userId == userId && after[i].solutionId == solutionId;
  }

  /** No row is ever removed: the store only grows. */
  lemma RowsNeverRemoved(rows: seq<Assignment>, userId: int, solutionId: int, users: set<int>, solutions: set<int>)
    ensures |Assign(rows, userId, solutionId, users, solutions).0| >= |rows|
    ensures |Unassign(rows, userId, solutionId).0| == |rows|
  {
  }

  /** The rows with every active row matching `hit` deactivated. */
  function DeactivateWhere(rows: seq<Assignment>, hit: Assignment -> bool): (r: seq<Assignment>)
    ensures |r| == |rows|
    ensures forall k | 0 <= k < |rows| ::
      r[k] == if hit(rows[k]) && rows[k].isActive then rows[k].(isActive := false) else rows[k]
  {
    if rows == [] then []
    else
      [if hit(rows[0]) && rows[0].isActive then rows[0].(isActive := false) else rows[0]]
      + DeactivateWhere(rows[1..], hit)
  }

  /** `remove_all_user_assignments`: deactivates the user's active rows and
      returns how many there were. */
  function RemoveAllUserAssignments(rows: seq<Assignment>, userId: int): (r: (seq<Assignment>, nat))
    ensures r.1 == Count(rows, ActiveForUser(userId))
    ensures r.0 == DeactivateWhere(rows, ForUser(userId))
    ensures |r.0| == |rows|
    ensures forall k | 0 <= k < |rows| ::
      && r.0[k].userId == rows[k].userId && r.0[k].solutionId == rows[k].solutionId
      && (r.0[k].isActive <==> rows[k].isActive && rows[k].userId != userId)
  {
    (DeactivateWhere(rows, ForUser(userId)), Count(rows, ActiveForUser(userId)))
  }

  /** `remove_all_solution_assignments`: the same, keyed on the solution. */
  function RemoveAllSolutionAssignments(rows: seq<Assignment>, solutionId: int): (r: (seq<Assignment>, nat))
    ensures r.1 == Count(rows, ActiveForSolution(solutionId))
    ensures r.0 == DeactivateWhere(rows, ForSolution(solutionId))
    ensures |r.0| == |rows|
    ensures forall k | 0 <= k < |rows| ::
      && r.0[k].userId == rows[k].userId && r.0[k].solutionId == rows[k].solutionId
      && (r.0[k].isActive <==> rows[k].isActive && rows[k].solutionId != solutionId)
  {
    (DeactivateWhere(rows, ForSolution(solutionId)), Count(rows, ActiveForSolution(solutionId)))
  }

  /** After removing a user's assignments nothing of it is listed, other
      users keep theirs, and the count returned is the size of the listing
      that disappeared. */
  lemma RemoveAllUserClearsListing(rows: seq<Assignment>, userId: int, other: int, solutionId: int)
    requires other != userId
    ensures var r := RemoveAllUserAssignments(rows, userId);
      && UserSolutions(r.0, userId) == []
      && (IsAssigned(r.0, other, solutionId) <==> IsAssigned(rows, other, solutionId))
      && r.1 == |UserSolutions(rows, userId)|
  {
    var after := RemoveAllUserAssignments(rows, userId).0;
    ExistsMeansSome(after, ActiveForUser(userId));
    if IsAssigned(rows, other, solutionId) {
      var i :| 0 <= i < |rows| && rows[i].userId == other && rows[i].solutionId == solutionId && rows[i].isActive;
      assert after[i] == rows[i];
    }
    if IsAssigned(after, other, solutionId) {
      var k :| 0 <= k < |after| && after[k].userId == other && after[k].solutionId == solutionId && after[k].isActive;
      assert after[k] == rows[k];
    }
  }
}
