/** The session entity, the team-membership records attached to it, the
    store's error value, and the "active members only" decoration rule. */
module Sessions {
  import opened Rows

  /** One team membership of a user; only its deletion marker matters to
      the session store, which otherwise passes it through untouched. */
  datatype TeamMember = TeamMember(teamId: string, userId: string, roles: string, deleteAt: int)

  /** One authenticated login. Every field but `teamMembers` is a column of
      the Sessions table; `teamMembers` is transient and only filled in on
      the way back to a caller. Timestamps are milliseconds since the epoch,
      and `expiresAt == 0` means the session never expires. */
  datatype Session = Session(
    id: string,
    token: string,
    createAt: int,
    expiresAt: int,
    lastActivityAt: int,
    userId: string,
    deviceId: string,
    roles: string,
    props: string,
    teamMembers: seq<TeamMember>)

  /** A structured store error: the operation that failed, a
      machine-readable reason code and free-form details. */
  datatype AppError = AppError(where: string, id: string, details: string)

  /** The row that the table holds for `s`: every column, no team members. */
  function Persisted(s: Session): Session
  {
    s.(teamMembers := [])
  }

  /** A membership whose deletion marker is unset. */
  predicate IsActive(m: TeamMember)
  {
    m.deleteAt == 0
  }

  /** The memberships the store attaches to a session: exactly the active
      ones, in the order the team store returned them. */
  function ActiveMembers(members: seq<TeamMember>): (r: seq<TeamMember>)
    ensures forall i :: 0 <= i < |r| ==> r[i].deleteAt == 0 && r[i] in members
    ensures forall i :: 0 <= i < |members| && members[i].deleteAt == 0 ==> members[i] in r
  {
    Filter(members, IsActive)
  }

  /** The active members of a concatenation are those of each part, in
      order; together with ActiveMembersOfOne this determines
      ActiveMembers completely. */
  lemma ActiveMembersOfAppend(a: seq<TeamMember>, b: seq<TeamMember>)
    ensures ActiveMembers(a + b) == ActiveMembers(a) + ActiveMembers(b)
  {
    FilterAppend(a, b, IsActive);
  }

  /** A single membership is kept exactly when it is active. */
  lemma ActiveMembersOfOne(m: TeamMember)
    ensures ActiveMembers([m]) == if m.deleteAt == 0 then [m] else []
  {
    FilterSingleton(m, IsActive);
  }

  /** Of one live and one deleted membership, only the live one is kept. */
  lemma ActiveMembersExample(live: TeamMember, gone: TeamMember)
    requires live.deleteAt == 0 && gone.deleteAt != 0
    ensures ActiveMembers([live, gone]) == [live]
  {
    assert [live, gone] == [live] + [gone];
    ActiveMembersOfAppend([live], [gone]);
    ActiveMembersOfOne(live);
    ActiveMembersOfOne(gone);
  }
}
