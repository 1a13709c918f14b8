/** The read-only time-entry queries of `TimeEntryController`, identical in both backend
    variants: the per-user date window, the caller's own window, a manager's view of one
    user's entries, and the most recent entry. Results keep table order. */
module EntryQueries {
  import opened Common
  import opened Entities

  /** `ClockIn` lies within the inclusive window; an absent bound does not restrict. */
  predicate InWindow(e: TimeEntry, start: Option<int>, end: Option<int>) {
    (start.None? || e.clockIn >= start.value) && (end.None? || e.clockIn <= end.value)
  }

  /** The entries of `userId` whose clock-in lies in the window, in table order. */
  function EntriesOf(s: seq<TimeEntry>, userId: string, start: Option<int>, end: Option<int>): (r: seq<TimeEntry>)
    ensures forall e :: e in r <==> e in s && e.userId == userId && InWindow(e, start, end)
    ensures |r| == 0 <==> forall e :: e in s ==> !(e.userId == userId && InWindow(e, start, end))
  {
    var r := Filter(s, (e: TimeEntry) => e.userId == userId && InWindow(e, start, end));
    assert |r| > 0 ==> r[0] in r;
    r
  }

  /** Whose entries the date-window query reads: the user named in the route, or the caller
      when the route names nobody (an empty route value counts as none). */
  function Target(callerId: string, routeUser: string): string {
    if routeUser == "" then callerId else routeUser
  }

  /** `GetAllTimeEntriesByUserIdAndDate`: anyone may read their own entries, only a Manager
      another user's. The refusal is `Forbid(message)`, which throws, so it surfaces as
      `ServerError`; an empty result is `NotFound`. */
  function EntriesByUserAndDate(s: seq<TimeEntry>, callerId: string, callerRoles: set<Role>, routeUser: string,
                                start: Option<int>, end: Option<int>): (r: Response<seq<TimeEntry>>)
    ensures r == Err(ServerError) <==> routeUser != "" && Manager !in callerRoles && routeUser != callerId
    ensures r == Err(NotFound) <==>
      r != Err(ServerError) && forall e :: e in s ==> !(e.userId == Target(callerId, routeUser) && InWindow(e, start, end))
    ensures r.Err? ==> r.status in {ServerError, NotFound}
    ensures r.Ok? ==> |r.value| > 0 && forall e :: e in r.value <==>
      e in s && e.userId == Target(callerId, routeUser) && InWindow(e, start, end)
  {
    if routeUser != "" && Manager !in callerRoles && routeUser != callerId then Err(ServerError)
    else
      var found := EntriesOf(s, Target(callerId, routeUser), start, end);
      if |found| == 0 then Err(NotFound) else Ok(found)
  }

  /** `GetUserEntriesByDates`: the caller's entries with clock-in in `[start, end]`; a missing
      user claim is `Unauthorized` and an empty result `NotFound`. */
  function UserEntriesByDates(s: seq<TimeEntry>, userClaim: Option<string>, start: int, end: int): (r: Response<seq<TimeEntry>>)
    ensures userClaim.None? <==> r == Err(Unauthorized)
    ensures userClaim.Some? ==>
      (r == Err(NotFound) <==> forall e :: e in s ==> !(e.userId == userClaim.value && start <= e.clockIn <= end))
    ensures r.Ok? ==> |r.value| > 0 && forall e :: e in r.value <==>
      e in s && e.userId == userClaim.value && start <= e.clockIn <= end
  {
    if userClaim.None? then Err(Unauthorized)
    else
      var found := EntriesOf(s, userClaim.value, Some(start), Some(end));
      if |found| == 0 then Err(NotFound) else Ok(found)
  }

  /** `GetEntriesByUserIdAndDates`: a manager's view of one user's entries from `start` on. The
      user must exist and belong to an organisation. Open entries are included, closed ones
      only when they end by `end`, and an empty list is a success. */
  function EntriesByUserIdAndDates(users: seq<User>, s: seq<TimeEntry>, userId: string, start: int, end: int): (r: Response<seq<TimeEntry>>)
    ensures r.Err? <==> FindUser(users, userId).None? || FindUser(users, userId).value.organizationId.None?
    ensures r.Err? ==> r.status == Unauthorized
    ensures r.Ok? ==>
      var org := FindUser(users, userId).value.organizationId.value;
      forall e :: e in r.value <==>
        e in s && e.organizationId == org && e.userId == userId && e.clockIn >= start
        && (e.clockOut.None? || e.clockOut.value <= end)
  {
    var user := FindUser(users, userId);
    if user.None? || user.value.organizationId.None? then Err(Unauthorized)
    else
      var org := user.value.organizationId.value;
      Ok(Filter(s, (e: TimeEntry) => e.organizationId == org && e.userId == userId && e.clockIn >= start
                                     && (e.clockOut.None? || e.clockOut.value <= end)))
  }

  /** `GetRecentEntry`: an entry of the caller with the latest clock-in. The database orders
      entries that share that clock-in arbitrarily, so the contract does not say which of them
      is returned (this implementation keeps the first in table order). */
  method RecentEntry(s: seq<TimeEntry>, userClaim: Option<string>) returns (r: Response<TimeEntry>)
    ensures r == Err(Unauthorized) <==> userClaim.None?
    ensures userClaim.Some? ==>
      (r == Err(NotFound) <==> forall i :: 0 <= i < |s| ==> s[i].userId != userClaim.value)
    ensures r.Err? ==> r.status in {Unauthorized, NotFound}
    ensures userClaim.Some? && (exists i :: 0 <= i < |s| && s[i].userId == userClaim.value) ==> r.Ok?
    ensures r.Ok? ==> userClaim.Some? && exists k :: 0 <= k < |s| && s[k] == r.value && IsLatest(s, userClaim.value, k)
  {
    if userClaim.None? {
      return Err(Unauthorized);
    }
    var user := userClaim.value;
    var best: Option<nat> := None;
    var i := 0;
    while i < |s|
      invariant 0 <= i <= |s|
      invariant best.None? ==> forall j :: 0 <= j < i ==> s[j].userId != user
      invariant best.Some? ==> best.value < i && IsLatest(s[..i], user, best.value)
    {
      if s[i].userId == user && (best.None? || s[i].clockIn > s[best.value].clockIn) {
        best := Some(i);
      }
      assert s[..i + 1][..i] == s[..i];
      i := i + 1;
    }
    assert s[..i] == s;
    if best.None? {
      return Err(NotFound);
    }
    r := Ok(s[best.value]);
  }

  /** `s[k]` belongs to `user` and no entry of theirs clocks in later. */
  predicate IsLatest(s: seq<TimeEntry>, user: string, k: nat) {
    && k < |s| && s[k].userId == user
    && forall j :: 0 <= j < |s| && s[j].userId == user ==> s[j].clockIn <= s[k].clockIn
  }
}
