/** The user/solution assignment table shared by the two assignment
    stores: one row per pair (the table's `unique_together`), with an
    active flag. Rows are kept in insertion order. */
module AssignmentRows {
  import opened Tables

  datatype Assignment = Assignment(userId: int, solutionId: int, isActive: bool)

  datatype Pair = Pair(userId: int, solutionId: int)

  function PairOf(a: Assignment): Pair { Pair(a.userId, a.solutionId) }

  /** No pair is stored twice. */
  ghost predicate WellFormed(rows: seq<Assignment>) {
    UniqueBy(rows, PairOf)
  }

  function ForPair(userId: int, solutionId: int): Assignment -> bool {
    (a: Assignment) => a.userId == userId && a.solutionId == solutionId
  }

  function ActiveForPair(userId: int, solutionId: int): Assignment -> bool {
    (a: Assignment) => a.userId == userId && a.solutionId == solutionId && a.isActive
  }

  function ForUser(userId: int): Assignment -> bool { (a: Assignment) => a.userId == userId }
  function ForSolution(solutionId: int): Assignment -> bool { (a: Assignment) => a.solutionId == solutionId }
  function ActiveForUser(userId: int): Assignment -> bool { (a: Assignment) => a.userId == userId && a.isActive }
  function ActiveForSolution(solutionId: int): Assignment -> bool { (a: Assignment) => a.solutionId == solutionId && a.isActive }
  function IsActive(a: Assignment): bool { a.isActive }

  /** Some row, active or not, holds the pair. */
  predicate HasPair(rows: seq<Assignment>, userId: int, solutionId: int) {
    exists i | 0 <= i < |rows| :: rows[i].userId == userId && rows[i].solutionId == solutionId
  }

  /** `exists` / `is_solution_assigned_to_user`: an active row holds the
      pair. */
  predicate IsAssigned(rows: seq<Assignment>, userId: int, solutionId: int) {
    exists i | 0 <= i < |rows| :: rows[i].userId == userId && rows[i].solutionId == solutionId && rows[i].isActive
  }

  function SolutionOf(a: Assignment): int { a.solutionId }
  function UserOf(a: Assignment): int { a.userId }

  /** `get_user_solutions`: the solution of every active row of the user,
      in table order. */
  function UserSolutions(rows: seq<Assignment>, userId: int): (r: seq<int>)
    ensures forall k | 0 <= k < |r| :: IsAssigned(rows, userId, r[k])
    ensures forall i | 0 <= i < |rows| && rows[i].userId == userId && rows[i].isActive :: rows[i].solutionId in r
  {
    FilterProject(rows, ActiveForUser(userId), SolutionOf);
    Project(Filter(rows, ActiveForUser(userId)), SolutionOf)
  }

  /** `get_solution_users`: the user of every active row of the solution,
      in table order. */
  function SolutionUsers(rows: seq<Assignment>, solutionId: int): (r: seq<int>)
    ensures forall k | 0 <= k < |r| :: IsAssigned(rows, r[k], solutionId)
    ensures forall i | 0 <= i < |rows| && rows[i].solutionId == solutionId && rows[i].isActive :: rows[i].userId in r
  {
    FilterProject(rows, ActiveForSolution(solutionId), UserOf);
    Project(Filter(rows, ActiveForSolution(solutionId)), UserOf)
  }

  /** `get_all_assignments`: every active pair, in table order. */
  function AllAssignments(rows: seq<Assignment>): (r: seq<Pair>)
    ensures forall k | 0 <= k < |r| :: IsAssigned(rows, r[k].userId, r[k].solutionId)
    ensures forall i | 0 <= i < |rows| && rows[i].isActive :: PairOf(rows[i]) in r
  {
    FilterProject(rows, IsActive, PairOf);
    Project(Filter(rows, IsActive), PairOf)
  }

  /** The listings agree with one another: a pair is listed for its user
      exactly when it is listed for its solution, and exactly when it is
      assigned. */
  lemma ListingsAgree(rows: seq<Assignment>, userId: int, solutionId: int)
    ensures solutionId in UserSolutions(rows, userId) <==> IsAssigned(rows, userId, solutionId)
    ensures userId in SolutionUsers(rows, solutionId) <==> IsAssigned(rows, userId, solutionId)
    ensures Pair(userId, solutionId) in AllAssignments(rows) <==> IsAssigned(rows, userId, solutionId)
  {
  }
}
