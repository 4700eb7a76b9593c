/** The SQL-backed session store: a class owning the Sessions table, with
    one method per store operation. Each method returns what the store
    would deliver on its result channel: `None` when the operation returns
    without delivering anything, `Some(Ok(..))` or `Some(Err(..))` otherwise.

    What the environment decides is passed in: `now` is the clock reading,
    an `Option<string>` argument is the failure message of one backend
    statement (`None` when the statement succeeds), `teams` is the team
    store's answer for a user id, and `preSave` is the session's own
    pre-save stamping step. */
module SqlSessions {
  import opened Wrappers
  import opened Rows
  import opened Sessions
  import opened SessionQueries

  /** The team store's answer for a user: that user's memberships, or the
      message of the error it reported. */
  type TeamStore = string -> Result<seq<TeamMember>, string>

  /** Attaches to `s` the active members of `members`, in order, as the
      decoration loops of Save, Get and GetSessions do. */
  method AttachActiveMembers(s: Session, members: seq<TeamMember>) returns (d: Session)
    ensures d == s.(teamMembers := ActiveMembers(members))
  {
    var kept: seq<TeamMember> := [];
    for i := 0 to |members|
      invariant kept == ActiveMembers(members[..i])
    {
      assert members[..i + 1] == members[..i] + [members[i]];
      ActiveMembersOfAppend(members[..i], [members[i]]);
      ActiveMembersOfOne(members[i]);
      if members[i].deleteAt == 0 {
        kept := kept + [members[i]];
      }
    }
    assert members[..|members|] == members;
    d := s.(teamMembers := kept);
  }

  /** Decorates every session of `ss` with the same active members, as
      GetSessions does with its one team store answer. */
  method AttachToAll(ss: seq<Session>, members: seq<TeamMember>) returns (out: seq<Session>)
    ensures |out| == |ss|
    ensures forall j :: 0 <= j < |ss| ==> out[j] == ss[j].(teamMembers := ActiveMembers(members))
  {
    out := [];
    for i := 0 to |ss|
      invariant |out| == i
      invariant forall j :: 0 <= j < i ==> out[j] == ss[j].(teamMembers := ActiveMembers(members))
    {
      var d := AttachActiveMembers(ss[i], members);
      out := out + [d];
    }
  }

  /** The rows of `ss` as the table holds them, without team members. */
  function Undecorated(ss: seq<Session>): seq<Session>
  {
    seq(|ss|, i requires 0 <= i < |ss| => Persisted(ss[i]))
  }

  /** Stripping the team members from sessions decorated from stored rows
      gives back those rows. */
  lemma UndecoratedRestores(stored: seq<Session>, out: seq<Session>, members: seq<TeamMember>)
    requires |out| == |stored|
    requires forall j :: 0 <= j < |stored| ==>
      stored[j].teamMembers == [] && out[j] == stored[j].(teamMembers := members)
    ensures Undecorated(out) == stored
  {
  }

  class SqlSessionStore {
    /** The rows of the Sessions table. */
    var rows: seq<Session>

    /** Id is the table's primary key, and the table holds only columns:
        no row carries team members. */
    ghost predicate Valid()
      reads this
    {
      IdsUnique(rows) && forall i :: 0 <= i < |rows| ==> rows[i].teamMembers == []
    }

    /** A store over the Sessions table as the database already holds it:
        registering the table mapping leaves its rows as they are. */
    constructor (initial: seq<Session>)
      requires IdsUnique(initial) && forall i :: 0 <= i < |initial| ==> initial[i].teamMembers == []
      ensures Valid() && rows == initial
    {
      rows := initial;
    }

    /** Creates a session. A session that already has an Id is refused
        before the backend is touched. Otherwise the session is stamped,
        the user's expired sessions are cleaned up (a failure there is
        only logged), the row is inserted, and the stored session is
        returned with its user's active team members. An insert failure
        and a team store failure return without delivering a result;
        after the latter the row stays inserted. */
    method Save(session: Session, preSave: Session -> Session, now: int,
                cleanupErr: Option<string>, insertErr: Option<string>, teams: TeamStore)
      returns (r: Option<Result<Session, AppError>>)
      requires Valid()
      modifies this
      ensures Valid()
      ensures |session.id| > 0 ==>
        rows == old(rows) &&
        r == Some(Err(AppError("SqlSessionStore.Save", "store.sql_session.save.existing.app_error",
                               "id=" + session.id)))
      ensures |session.id| == 0 ==>
        var s := preSave(session);
        var cleaned := if cleanupErr.None? then CleanedUp(old(rows), s.userId, now) else old(rows);
        var inserted := insertErr.None? && !HasId(cleaned, s.id);
        && rows == (if inserted then cleaned + [Persisted(s)] else cleaned)
        && r == (if !inserted || teams(s.userId).Err? then None
                 else Some(Ok(s.(teamMembers := ActiveMembers(teams(s.userId).value)))))
    {
      if |session.id| > 0 {
        return Some(Err(AppError("SqlSessionStore.Save", "store.sql_session.save.existing.app_error",
                                 "id=" + session.id)));
      }
      var s := preSave(session);
      // Best effort: a cleanup failure is logged and the save goes on.
      var _ := CleanUpExpiredSessions(s.userId, now, cleanupErr);
      var fetched := teams(s.userId);
      if insertErr.Some? || HasId(rows, s.id) {
        return None;
      }
      var oldRows := rows;
      rows := rows + [Persisted(s)];
      assert IdsUnique(rows) by {
        forall i | 0 <= i < |oldRows| ensures oldRows[i].id != s.id {
        }
      }
      if fetched.Err? {
        return None;
      }
      var d := AttachActiveMembers(s, fetched.value);
      return Some(Ok(d));
    }

    /** Looks a session up by Id or Token. Any one matching row is
        returned, decorated with its user's active team members; no match
        and a failed query are "not found" errors; a team store failure
        returns without delivering a result. */
    method Get(sessionIdOrToken: string, selectErr: Option<string>, teams: TeamStore)
      returns (r: Option<Result<Session, AppError>>)
      ensures selectErr.Some? ==>
        r == Some(Err(AppError("SqlSessionStore.Get", "store.sql_session.get.app_error",
                               "sessionIdOrToken=" + sessionIdOrToken + ", " + selectErr.value)))
      ensures selectErr.None? && Matching(rows, sessionIdOrToken) == [] ==>
        r == Some(Err(AppError("SqlSessionStore.Get", "store.sql_session.get.app_error",
                               "sessionIdOrToken=" + sessionIdOrToken)))
      ensures selectErr.None? && Matching(rows, sessionIdOrToken) != [] ==>
        exists s :: s in rows && MatchesKey(s, sessionIdOrToken) &&
          r == (if teams(s.userId).Err? then None
                else Some(Ok(s.(teamMembers := ActiveMembers(teams(s.userId).value)))))
    {
      if selectErr.Some? {
        return Some(Err(AppError("SqlSessionStore.Get", "store.sql_session.get.app_error",
                                 "sessionIdOrToken=" + sessionIdOrToken + ", " + selectErr.value)));
      }
      var found := Matching(rows, sessionIdOrToken);
      if |found| == 0 {
        return Some(Err(AppError("SqlSessionStore.Get", "store.sql_session.get.app_error",
                                 "sessionIdOrToken=" + sessionIdOrToken)));
      }
      // LIMIT 1 without ORDER BY: the backend may return any matching row.
      var k :| 0 <= k < |found|;
      var s := found[k];
      var fetched := teams(s.userId);
      if fetched.Err? {
        return None;
      }
      var d := AttachActiveMembers(s, fetched.value);
      return Some(Ok(d));
    }

    /** Lists a user's sessions, most recently active first, each with the
        user's active team members. The user's expired sessions are
        cleaned up first (a failure there is only logged). A failed query
        still waits for the team store and then delivers its error; a team
        store failure returns without delivering a result. */
    method GetSessions(userId: string, now: int, cleanupErr: Option<string>,
                       selectErr: Option<string>, teams: TeamStore)
      returns (r: Option<Result<seq<Session>, AppError>>)
      requires Valid()
      modifies this
      ensures Valid()
      ensures rows == if cleanupErr.None? then CleanedUp(old(rows), userId, now) else old(rows)
      ensures teams(userId).Err? ==> r == None
      ensures teams(userId).Ok? && selectErr.Some? ==>
        r == Some(Err(AppError("SqlSessionStore.GetSessions", "store.sql_session.get_sessions.app_error",
                               selectErr.value)))
      ensures teams(userId).Ok? && selectErr.None? ==>
        r.Some? && r.value.Ok? &&
        var out := r.value.value;
        && SortedByActivity(out)
        && multiset(Undecorated(out)) == multiset(RowsOfUser(rows, userId))
        && (forall i :: 0 <= i < |out| ==>
              out[i].userId == userId && out[i].teamMembers == ActiveMembers(teams(userId).value))
        && (cleanupErr.None? ==> forall i :: 0 <= i < |out| ==> !Expired(out[i], now))
    {
      var _ := CleanUpExpiredSessions(userId, now, cleanupErr);
      var fetched := teams(userId);
      var selected: seq<Session> := [];
      if selectErr.None? {
        selected := UserSessions(rows, userId);
      }
      if fetched.Err? {
        return None;
      }
      var out := AttachToAll(selected, fetched.value);
      if selectErr.Some? {
        return Some(Err(AppError("SqlSessionStore.GetSessions", "store.sql_session.get_sessions.app_error",
                                 selectErr.value)));
      }
      forall j | 0 <= j < |selected| ensures selected[j].teamMembers == [] {
        assert selected[j] in rows;
      }
      UndecoratedRestores(selected, out, ActiveMembers(fetched.value));
      if cleanupErr.None? {
        NoExpiredAfterCleanUp(old(rows), userId, now);
      }
      return Some(Ok(out));
    }

    /** Deletes every row whose Id or Token is the given key; deleting
        nothing is not an error. */
    method Remove(sessionIdOrToken: string, dbErr: Option<string>)
      returns (r: Option<Result<(), AppError>>)
      requires Valid()
      modifies this
      ensures Valid()
      ensures dbErr.None? ==> rows == WithoutKey(old(rows), sessionIdOrToken) && r == Some(Ok(()))
      ensures dbErr.Some? ==>
        rows == old(rows) &&
        r == Some(Err(AppError("SqlSessionStore.RemoveSession", "store.sql_session.remove.app_error",
                               "id=" + sessionIdOrToken + ", err=" + dbErr.value)))
    {
      if dbErr.Some? {
        return Some(Err(AppError("SqlSessionStore.RemoveSession", "store.sql_session.remove.app_error",
                                 "id=" + sessionIdOrToken + ", err=" + dbErr.value)));
      }
      FilterKeepsIdsUnique(rows, (s: Session) => !MatchesKey(s, sessionIdOrToken));
      rows := WithoutKey(rows, sessionIdOrToken);
      return Some(Ok(()));
    }

    /** Deletes every row of the table. */
    method RemoveAllSessions(dbErr: Option<string>) returns (r: Option<Result<(), AppError>>)
      requires Valid()
      modifies this
      ensures Valid()
      ensures dbErr.None? ==> rows == [] && r == Some(Ok(()))
      ensures dbErr.Some? ==>
        rows == old(rows) &&
        r == Some(Err(AppError("SqlSessionStore.RemoveAllSessions",
                               "store.sql_session.remove_all_sessions_for_team.app_error", dbErr.value)))
    {
      if dbErr.Some? {
        return Some(Err(AppError("SqlSessionStore.RemoveAllSessions",
                                 "store.sql_session.remove_all_sessions_for_team.app_error", dbErr.value)));
      }
      rows := [];
      return Some(Ok(()));
    }

    /** Deletes every row of the given user. */
    method PermanentDeleteSessionsByUser(userId: string, dbErr: Option<string>)
      returns (r: Option<Result<(), AppError>>)
      requires Valid()
      modifies this
      ensures Valid()
      ensures dbErr.None? ==> rows == WithoutUser(old(rows), userId) && r == Some(Ok(()))
      ensures dbErr.Some? ==>
        rows == old(rows) &&
        r == Some(Err(AppError("SqlSessionStore.RemoveAllSessionsForUser",
                               "store.sql_session.permanent_delete_sessions_by_user.app_error",
                               "id=" + userId + ", err=" + dbErr.value)))
    {
      if dbErr.Some? {
        return Some(Err(AppError("SqlSessionStore.RemoveAllSessionsForUser",
                                 "store.sql_session.permanent_delete_sessions_by_user.app_error",
                                 "id=" + userId + ", err=" + dbErr.value)));
      }
      FilterKeepsIdsUnique(rows, (s: Session) => s.userId != userId);
      rows := WithoutUser(rows, userId);
      return Some(Ok(()));
    }

    /** Deletes the user's rows that have a non-zero expiry in the past of
        `now`, and delivers the user id. */
    method CleanUpExpiredSessions(userId: string, now: int, dbErr: Option<string>)
      returns (r: Option<Result<string, AppError>>)
      requires Valid()
      modifies this
      ensures Valid()
      ensures dbErr.None? ==> rows == CleanedUp(old(rows), userId, now) && r == Some(Ok(userId))
      ensures dbErr.Some? ==>
        rows == old(rows) &&
        r == Some(Err(AppError("SqlSessionStore.CleanUpExpiredSessions",
                               "store.sql_session.cleanup_expired_sessions.app_error", dbErr.value)))
    {
      if dbErr.Some? {
        return Some(Err(AppError("SqlSessionStore.CleanUpExpiredSessions",
                                 "store.sql_session.cleanup_expired_sessions.app_error", dbErr.value)));
      }
      FilterKeepsIdsUnique(rows, (s: Session) => !(s.userId == userId && Expired(s, now)));
      rows := CleanedUp(rows, userId, now);
      return Some(Ok(userId));
    }

    /** Sets LastActivityAt of the row with the given Id, and delivers
        that Id. */
    method UpdateLastActivityAt(sessionId: string, time: int, dbErr: Option<string>)
      returns (r: Option<Result<string, AppError>>)
      requires Valid()
      modifies this
      ensures Valid()
      ensures dbErr.None? ==> rows == WithActivity(old(rows), sessionId, time) && r == Some(Ok(sessionId))
      ensures dbErr.Some? ==>
        rows == old(rows) &&
        r == Some(Err(AppError("SqlSessionStore.UpdateLastActivityAt",
                               "store.sql_session.update_last_activity.app_error", "sessionId=" + sessionId)))
    {
      if dbErr.Some? {
        return Some(Err(AppError("SqlSessionStore.UpdateLastActivityAt",
                                 "store.sql_session.update_last_activity.app_error", "sessionId=" + sessionId)));
      }
      SameIdsKeepIdsUnique(rows, WithActivity(rows, sessionId, time));
      rows := WithActivity(rows, sessionId, time);
      return Some(Ok(sessionId));
    }

    /** Sets Roles of every row of the given user, and delivers the user id. */
    method UpdateRoles(userId: string, roles: string, dbErr: Option<string>)
      returns (r: Option<Result<string, AppError>>)
      requires Valid()
      modifies this
      ensures Valid()
      ensures dbErr.None? ==> rows == WithRoles(old(rows), userId, roles) && r == Some(Ok(userId))
      ensures dbErr.Some? ==>
        rows == old(rows) &&
        r == Some(Err(AppError("SqlSessionStore.UpdateRoles",
                               "store.sql_session.update_roles.app_error", "userId=" + userId)))
    {
      if dbErr.Some? {
        return Some(Err(AppError("SqlSessionStore.UpdateRoles",
                                 "store.sql_session.update_roles.app_error", "userId=" + userId)));
      }
      SameIdsKeepIdsUnique(rows, WithRoles(rows, userId, roles));
      rows := WithRoles(rows, userId, roles);
      return Some(Ok(userId));
    }

    /** Sets DeviceId and ExpiresAt of the row with the given Id, and
        delivers the device id. */
    method UpdateDeviceId(id: string, deviceId: string, expiresAt: int, dbErr: Option<string>)
      returns (r: Option<Result<string, AppError>>)
      requires Valid()
      modifies this
      ensures Valid()
      ensures dbErr.None? ==> rows == WithDevice(old(rows), id, deviceId, expiresAt) && r == Some(Ok(deviceId))
      ensures dbErr.Some? ==>
        rows == old(rows) &&
        r == Some(Err(AppError("SqlSessionStore.UpdateDeviceId",
                               "store.sql_session.update_device_id.app_error", dbErr.value)))
    {
      if dbErr.Some? {
        return Some(Err(AppError("SqlSessionStore.UpdateDeviceId",
                                 "store.sql_session.update_device_id.app_error", dbErr.value)));
      }
      SameIdsKeepIdsUnique(rows, WithDevice(rows, id, deviceId, expiresAt));
      rows := WithDevice(rows, id, deviceId, expiresAt);
      return Some(Ok(deviceId));
    }

    /** Counts the rows whose ExpiresAt lies strictly after `now`. */
    method AnalyticsSessionCount(now: int, selectErr: Option<string>)
      returns (r: Option<Result<int, AppError>>)
      ensures selectErr.None? ==> r == Some(Ok(|Filter(rows, (s: Session) => Live(s, now))|))
      ensures selectErr.Some? ==>
        r == Some(Err(AppError("SqlSessionStore.AnalyticsSessionCount",
                               "store.sql_session.analytics_session_count.app_error", selectErr.value)))
    {
      if selectErr.Some? {
        return Some(Err(AppError("SqlSessionStore.AnalyticsSessionCount",
                                 "store.sql_session.analytics_session_count.app_error", selectErr.value)));
      }
      LiveCountIsSizeOfLiveRows(rows, now);
      return Some(Ok(LiveCount(rows, now)));
    }
  }
}
