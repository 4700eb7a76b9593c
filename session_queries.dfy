/** The row sets named by the Sessions table's SQL statements, as
    functions of the table's rows, with the properties the store relies on. */
module SessionQueries {
  import opened Rows
  import opened Sessions

  /** `Id = k OR Token = k`: the condition of Get and Remove. */
  predicate MatchesKey(s: Session, k: string)
  {
    s.id == k || s.token == k
  }

  /** `ExpiresAt != 0 AND now > ExpiresAt`: the cleanup condition. */
  predicate Expired(s: Session, now: int)
  {
    s.expiresAt != 0 && now > s.expiresAt
  }

  /** `ExpiresAt > now`: the condition AnalyticsSessionCount counts. */
  predicate Live(s: Session, now: int)
  {
    s.expiresAt > now
  }

  /** The primary key: no two rows share an Id. */
  predicate IdsUnique(rows: seq<Session>)
  {
    forall i, j :: 0 <= i < |rows| && 0 <= j < |rows| && i != j ==> rows[i].id != rows[j].id
  }

  /** Some row already has Id `id`. */
  predicate HasId(rows: seq<Session>, id: string)
  {
    exists i :: 0 <= i < |rows| && rows[i].id == id
  }

  /** The rows Get may return for `k`. */
  function Matching(rows: seq<Session>, k: string): (r: seq<Session>)
    ensures forall i :: 0 <= i < |r| ==> r[i] in rows && MatchesKey(r[i], k)
    ensures forall i :: 0 <= i < |rows| && MatchesKey(rows[i], k) ==> rows[i] in r
  {
    Filter(rows, (s: Session) => MatchesKey(s, k))
  }

  /** The rows of user `u`, in table order. */
  function RowsOfUser(rows: seq<Session>, u: string): (r: seq<Session>)
    ensures forall i :: 0 <= i < |r| ==> r[i] in rows && r[i].userId == u
    ensures forall i :: 0 <= i < |rows| && rows[i].userId == u ==> rows[i] in r
  {
    Filter(rows, (s: Session) => s.userId == u)
  }

  /** The table after CleanUpExpiredSessions(u) at time `now`: the expired
      rows of `u` are gone, every other row is kept as it was, in order. */
  function CleanedUp(rows: seq<Session>, u: string, now: int): (r: seq<Session>)
    ensures forall i :: 0 <= i < |r| ==> r[i] in rows && !(r[i].userId == u && Expired(r[i], now))
    ensures forall i :: 0 <= i < |rows| && !(rows[i].userId == u && Expired(rows[i], now)) ==> rows[i] in r
  {
    Filter(rows, (s: Session) => !(s.userId == u && Expired(s, now)))
  }

  /** The table after Remove(k): the rows matching `k` are gone. */
  function WithoutKey(rows: seq<Session>, k: string): (r: seq<Session>)
    ensures forall i :: 0 <= i < |r| ==> r[i] in rows && !MatchesKey(r[i], k)
    ensures forall i :: 0 <= i < |rows| && !MatchesKey(rows[i], k) ==> rows[i] in r
  {
    Filter(rows, (s: Session) => !MatchesKey(s, k))
  }

  /** The table after PermanentDeleteSessionsByUser(u). */
  function WithoutUser(rows: seq<Session>, u: string): (r: seq<Session>)
    ensures forall i :: 0 <= i < |r| ==> r[i] in rows && r[i].userId != u
    ensures forall i :: 0 <= i < |rows| && rows[i].userId != u ==> rows[i] in r
  {
    Filter(rows, (s: Session) => s.userId != u)
  }

  /** The table after UpdateLastActivityAt(id, t): only the LastActivityAt
      column of the row with Id `id` changes. */
  function WithActivity(rows: seq<Session>, id: string, t: int): (r: seq<Session>)
    ensures |r| == |rows|
    ensures forall i :: 0 <= i < |rows| ==>
      r[i] == if rows[i].id == id then rows[i].(lastActivityAt := t) else rows[i]
  {
    UpdateWhere(rows, (s: Session) => s.id == id, (s: Session) => s.(lastActivityAt := t))
  }

  /** The table after UpdateRoles(u, roles): only the Roles column of the
      rows of user `u` changes. */
  function WithRoles(rows: seq<Session>, u: string, roles: string): (r: seq<Session>)
    ensures |r| == |rows|
    ensures forall i :: 0 <= i < |rows| ==>
      r[i] == if rows[i].userId == u then rows[i].(roles := roles) else rows[i]
  {
    UpdateWhere(rows, (s: Session) => s.userId == u, (s: Session) => s.(roles := roles))
  }

  /** The table after UpdateDeviceId(id, d, e): only the DeviceId and
      ExpiresAt columns of the row with Id `id` change. */
  function WithDevice(rows: seq<Session>, id: string, d: string, e: int): (r: seq<Session>)
    ensures |r| == |rows|
    ensures forall i :: 0 <= i < |rows| ==>
      r[i] == if rows[i].id == id then rows[i].(deviceId := d, expiresAt := e) else rows[i]
  {
    UpdateWhere(rows, (s: Session) => s.id == id, (s: Session) => s.(deviceId := d, expiresAt := e))
  }

  /** `SELECT COUNT(*) ... WHERE ExpiresAt > now`. */
  function LiveCount(rows: seq<Session>, now: int): (n: nat)
    ensures n <= |rows|
  {
    if rows == [] then 0
    else (if Live(rows[0], now) then 1 else 0) + LiveCount(rows[1..], now)
  }

  /** `ORDER BY LastActivityAt DESC`: most recently active first. */
  predicate SortedByActivity(ss: seq<Session>)
  {
    forall i, j :: 0 <= i < j < |ss| ==> ss[i].lastActivityAt >= ss[j].lastActivityAt
  }

  /** Inserts `s` into a sequence kept in descending LastActivityAt order;
      the result starts with `s` or with the old first row. */
  function InsertByActivity(s: Session, ss: seq<Session>): (r: seq<Session>)
    ensures multiset(r) == multiset(ss) + multiset{s}
    ensures |r| == |ss| + 1
    ensures r[0] == s || (ss != [] && r[0] == ss[0])
  {
    if ss == [] || s.lastActivityAt >= ss[0].lastActivityAt then [s] + ss
    else
      assert ss == [ss[0]] + ss[1..];
      [ss[0]] + InsertByActivity(s, ss[1..])
  }

  /** Insertion keeps a descending sequence descending. */
  lemma {:induction false} InsertKeepsSorted(s: Session, ss: seq<Session>)
    requires SortedByActivity(ss)
    ensures SortedByActivity(InsertByActivity(s, ss))
  {
    if ss != [] && s.lastActivityAt < ss[0].lastActivityAt {
      var t := InsertByActivity(s, ss[1..]);
      InsertKeepsSorted(s, ss[1..]);
      assert ss[0].lastActivityAt >= t[0].lastActivityAt;
      assert InsertByActivity(s, ss) == [ss[0]] + t;
    }
  }

  /** The rows of `ss` in descending LastActivityAt order. */
  function SortByActivity(ss: seq<Session>): (r: seq<Session>)
    ensures multiset(r) == multiset(ss)
    ensures SortedByActivity(r)
  {
    if ss == [] then []
    else
      assert ss == [ss[0]] + ss[1..];
      InsertKeepsSorted(ss[0], SortByActivity(ss[1..]));
      InsertByActivity(ss[0], SortByActivity(ss[1..]))
  }

  /** The rows GetSessions(u) returns: the user's rows, most recently
      active first. */
  function UserSessions(rows: seq<Session>, u: string): (r: seq<Session>)
    ensures SortedByActivity(r)
    ensures multiset(r) == multiset(RowsOfUser(rows, u))
    ensures forall i :: 0 <= i < |r| ==> r[i] in rows && r[i].userId == u
  {
    var r := SortByActivity(RowsOfUser(rows, u));
    assert forall i :: 0 <= i < |r| ==> r[i] in multiset(RowsOfUser(rows, u));
    r
  }

  /** Deleting rows never breaks the primary key. */
  lemma {:induction false} FilterKeepsIdsUnique(rows: seq<Session>, p: Session -> bool)
    requires IdsUnique(rows)
    ensures IdsUnique(Filter(rows, p))
  {
    if rows != [] {
      var tail := rows[1..];
      assert IdsUnique(tail) by {
        forall i, j | 0 <= i < |tail| && 0 <= j < |tail| && i != j
          ensures tail[i].id != tail[j].id
        {
          assert tail[i] == rows[i + 1] && tail[j] == rows[j + 1];
        }
      }
      FilterKeepsIdsUnique(tail, p);
      var t := Filter(tail, p);
      forall i | 0 <= i < |t| ensures t[i].id != rows[0].id {
        var j :| 0 <= j < |tail| && tail[j] == t[i];
        assert rows[j + 1] == t[i];
      }
    }
  }

  /** An update that leaves every Id alone keeps the primary key. */
  lemma SameIdsKeepIdsUnique(rows: seq<Session>, r: seq<Session>)
    requires IdsUnique(rows)
    requires |r| == |rows| && forall i :: 0 <= i < |rows| ==> r[i].id == rows[i].id
    ensures IdsUnique(r)
  {
  }

  /** A second cleanup at the same time deletes nothing. */
  lemma CleanUpIdempotent(rows: seq<Session>, u: string, now: int)
    ensures CleanedUp(CleanedUp(rows, u, now), u, now) == CleanedUp(rows, u, now)
  {
    FilterIdempotent(rows, (s: Session) => !(s.userId == u && Expired(s, now)));
  }

  /** Cleanup for `u` leaves the rows of every other user exactly as they
      were, in the same order. */
  lemma CleanUpSparesOtherUsers(rows: seq<Session>, u: string, v: string, now: int)
    requires u != v
    ensures RowsOfUser(CleanedUp(rows, u, now), v) == RowsOfUser(rows, v)
  {
    FilterFilterWeaker(rows, (s: Session) => !(s.userId == u && Expired(s, now)),
                       (s: Session) => s.userId == v);
  }

  /** Cleanup leaves a user whose rows have not expired untouched. */
  lemma CleanUpWithoutExpired(rows: seq<Session>, u: string, now: int)
    requires forall i :: 0 <= i < |rows| && rows[i].userId == u ==> !Expired(rows[i], now)
    ensures CleanedUp(rows, u, now) == rows
  {
    FilterKeepsAll(rows, (s: Session) => !(s.userId == u && Expired(s, now)));
  }

  /** Cleanup of one expired and one never-expiring session of `u` deletes
      exactly the expired one. */
  lemma CleanUpExample(expired: Session, forever: Session, now: int)
    requires expired.userId == forever.userId
    requires expired.expiresAt != 0 && expired.expiresAt < now && forever.expiresAt == 0
    ensures CleanedUp([expired, forever], expired.userId, now) == [forever]
  {
    var keep := (s: Session) => !(s.userId == expired.userId && Expired(s, now));
    assert [expired, forever] == [expired] + [forever];
    FilterAppend([expired], [forever], keep);
    FilterSingleton(expired, keep);
    FilterSingleton(forever, keep);
  }

  /** After a cleanup at `now`, GetSessions returns no expired session. */
  lemma NoExpiredAfterCleanUp(rows: seq<Session>, u: string, now: int)
    ensures forall i :: 0 <= i < |UserSessions(CleanedUp(rows, u, now), u)| ==>
      !Expired(UserSessions(CleanedUp(rows, u, now), u)[i], now)
  {
    var cleaned := CleanedUp(rows, u, now);
    var r := UserSessions(cleaned, u);
    forall i | 0 <= i < |r| ensures !Expired(r[i], now) {
      var j :| 0 <= j < |cleaned| && cleaned[j] == r[i];
    }
  }

  /** LastActivityAt values 100, 300, 200 come back as 300, 200, 100. */
  lemma UserSessionsOrderExample(a: Session, b: Session, c: Session)
    requires a.userId == b.userId == c.userId
    requires a.lastActivityAt == 100 && b.lastActivityAt == 300 && c.lastActivityAt == 200
    ensures UserSessions([a, b, c], a.userId) == [b, c, a]
  {
    var u := a.userId;
    FilterKeepsAll([a, b, c], (s: Session) => s.userId == u);
    SortExample(a, b, c);
  }

  /** The sorting step of UserSessionsOrderExample. */
  lemma SortExample(a: Session, b: Session, c: Session)
    requires a.lastActivityAt == 100 && b.lastActivityAt == 300 && c.lastActivityAt == 200
    ensures SortByActivity([a, b, c]) == [b, c, a]
  {
    assert [b, c][1..] == [c] && [c][1..] == [];
    assert SortByActivity([b, c]) == [b, c] by {
      assert SortByActivity([c]) == [c] by {
        assert InsertByActivity(c, []) == [c];
      }
      assert InsertByActivity(b, [c]) == [b, c];
    }
    assert InsertByActivity(a, [b, c]) == [b, c, a] by {
      assert InsertByActivity(a, []) == [a];
      assert InsertByActivity(a, [c]) == [c] + [a];
    }
    assert [a, b, c][1..] == [b, c];
  }

  /** A stored session is a candidate both for its Id and for its Token;
      when no other row has either of those keys as its Id or Token, it is
      the only candidate, so Get by either key returns that session. */
  lemma LookupSymmetry(rows: seq<Session>, i: nat)
    requires i < |rows|
    ensures rows[i] in Matching(rows, rows[i].id)
    ensures rows[i] in Matching(rows, rows[i].token)
    ensures (forall j :: 0 <= j < |rows| && j != i ==>
               !MatchesKey(rows[j], rows[i].id) && !MatchesKey(rows[j], rows[i].token)) ==>
      Matching(rows, rows[i].id) == [rows[i]] && Matching(rows, rows[i].token) == [rows[i]]
  {
    if forall j :: 0 <= j < |rows| && j != i ==>
         !MatchesKey(rows[j], rows[i].id) && !MatchesKey(rows[j], rows[i].token)
    {
      var id, token := rows[i].id, rows[i].token;
      FilterKeepsOnlyOne(rows, (s: Session) => MatchesKey(s, id), i);
      FilterKeepsOnlyOne(rows, (s: Session) => MatchesKey(s, token), i);
    }
  }

  /** After Remove(k), Get(k) finds nothing, and every row that did not
      match `k` is still there. */
  lemma RemoveThenGetFindsNothing(rows: seq<Session>, k: string)
    ensures Matching(WithoutKey(rows, k), k) == []
    ensures forall i :: 0 <= i < |rows| && !MatchesKey(rows[i], k) ==> rows[i] in WithoutKey(rows, k)
  {
    FilterKeepsNone(WithoutKey(rows, k), (s: Session) => MatchesKey(s, k));
  }

  /** `r` has the rows of `rows`, each with the same Id, Token and UserId. */
  predicate KeepsIdentity(rows: seq<Session>, r: seq<Session>)
  {
    |r| == |rows| &&
    forall i :: 0 <= i < |rows| ==>
      r[i].id == rows[i].id && r[i].token == rows[i].token && r[i].userId == rows[i].userId
  }

  /** No update changes a row's Id, Token or UserId, nor the number of rows. */
  lemma UpdatesKeepIdentity(rows: seq<Session>, key: string, t: int, roles: string, d: string)
    ensures KeepsIdentity(rows, WithActivity(rows, key, t))
    ensures KeepsIdentity(rows, WithRoles(rows, key, roles))
    ensures KeepsIdentity(rows, WithDevice(rows, key, d, t))
  {
  }

  /** Remove deletes nothing when no row matches the key. */
  lemma RemoveWithoutMatch(rows: seq<Session>, k: string)
    requires forall i :: 0 <= i < |rows| ==> !MatchesKey(rows[i], k)
    ensures WithoutKey(rows, k) == rows
  {
    FilterKeepsAll(rows, (s: Session) => !MatchesKey(s, k));
  }

  /** A second Remove of the same key deletes nothing more. */
  lemma RemoveIdempotent(rows: seq<Session>, k: string)
    ensures WithoutKey(WithoutKey(rows, k), k) == WithoutKey(rows, k)
  {
    FilterIdempotent(rows, (s: Session) => !MatchesKey(s, k));
  }

  /** After PermanentDeleteSessionsByUser(u) the user has no rows left,
      and every other user keeps all of theirs. */
  lemma DeleteByUserIsComplete(rows: seq<Session>, u: string, v: string)
    requires u != v
    ensures RowsOfUser(WithoutUser(rows, u), u) == []
    ensures RowsOfUser(WithoutUser(rows, u), v) == RowsOfUser(rows, v)
  {
    FilterKeepsNone(WithoutUser(rows, u), (s: Session) => s.userId == u);
    FilterFilterWeaker(rows, (s: Session) => s.userId != u, (s: Session) => s.userId == v);
  }

  /** The live count of a concatenation is the sum of the parts' counts. */
  lemma {:induction false} LiveCountAppend(a: seq<Session>, b: seq<Session>, now: int)
    ensures LiveCount(a + b, now) == LiveCount(a, now) + LiveCount(b, now)
  {
    if a == [] {
      assert a + b == b;
    } else {
      assert (a + b)[0] == a[0];
      assert (a + b)[1..] == a[1..] + b;
      LiveCountAppend(a[1..], b, now);
    }
  }

  /** The count is the number of rows with `ExpiresAt > now`. */
  lemma {:induction false} LiveCountIsSizeOfLiveRows(rows: seq<Session>, now: int)
    ensures LiveCount(rows, now) == |Filter(rows, (s: Session) => Live(s, now))|
  {
    if rows != [] {
      LiveCountIsSizeOfLiveRows(rows[1..], now);
    }
  }

  /** The comparison is strict: with a non-negative clock, a
      never-expiring row and a row expiring exactly now are not counted,
      and a row expiring later is. */
  lemma LiveCountBoundary(rows: seq<Session>, s: Session, now: int)
    ensures now >= 0 && (s.expiresAt == 0 || s.expiresAt == now) ==>
      LiveCount(rows + [s], now) == LiveCount(rows, now)
    ensures s.expiresAt > now ==> LiveCount(rows + [s], now) == LiveCount(rows, now) + 1
  {
    LiveCountAppend(rows, [s], now);
    assert [s][1..] == [];
  }

  /** Rows expiring a millisecond ago, in a second, and never, count 1. */
  lemma LiveCountExample(a: Session, b: Session, c: Session, now: int)
    requires now >= 0
    requires a.expiresAt == now - 1 && b.expiresAt == now + 1000 && c.expiresAt == 0
    ensures LiveCount([a, b, c], now) == 1
  {
    assert [a, b, c][1..] == [b, c] && [b, c][1..] == [c] && [c][1..] == [];
    assert LiveCount([c], now) == 0;
    assert LiveCount([b, c], now) == 1;
  }

  /** Cleanup never changes the live count: an expired row is not live. */
  lemma {:induction false} CleanUpKeepsLiveCount(rows: seq<Session>, u: string, now: int)
    ensures LiveCount(CleanedUp(rows, u, now), now) == LiveCount(rows, now)
  {
    if rows != [] {
      CleanUpKeepsLiveCount(rows[1..], u, now);
      var head := if !(rows[0].userId == u && Expired(rows[0], now)) then [rows[0]] else [];
      assert CleanedUp(rows, u, now) == head + CleanedUp(rows[1..], u, now);
      LiveCountAppend(head, CleanedUp(rows[1..], u, now), now);
      if head != [] { assert head[1..] == []; }
    }
  }
}
