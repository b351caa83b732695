/** The length bounds shared by the entities and the request validators. */
module Limits {
  const MinUsernameLength: nat := 3
  const MaxUsernameLength: nat := 150
  const MinPasswordLength: nat := 8
  const MaxPasswordLength: nat := 128
  const MinFullNameLength: nat := 2
  const MaxFullNameLength: nat := 200
  const MinSolutionNameLength: nat := 3
  const MaxSolutionNameLength: nat := 100
  const MinDescriptionLength: nat := 10
  const MaxDescriptionLength: nat := 1000
  /** The largest page size the API hands out. */
  const MaxResultsPerPage: nat := 100
}
