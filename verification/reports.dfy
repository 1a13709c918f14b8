/** The payroll and project reports of `TimeEntryController` (the same in both backend
    variants): select entries, group them by user in order of first occurrence, and total
    each user's hours. */
module Reports {
  import opened Common
  import opened Entities
  import opened Text

  /** `(ClockOut - ClockIn).TotalHours`, or 0 for an open entry. */
  function EntryHours(e: TimeEntry): (h: real)
    ensures e.IsOpen() ==> h == 0.0
    ensures e.clockOut.Some? ==> h * 3600.0 == (e.clockOut.value - e.clockIn) as real
    ensures e.EndsAfterStart() ==> h >= 0.0
  {
    if e.clockOut.Some? then (e.clockOut.value - e.clockIn) as real / 3600.0 else 0.0
  }

  /** The hours of all entries of `s`. */
  function TotalHours(s: seq<TimeEntry>): real {
    if |s| == 0 then 0.0 else TotalHours(s[..|s| - 1]) + EntryHours(s[|s| - 1])
  }

  /** The hours of the entries of `s` that belong to `user` (one group's `Sum`). */
  function UserHours(s: seq<TimeEntry>, user: string): (h: real)
    ensures (forall i :: 0 <= i < |s| ==> s[i].EndsAfterStart()) ==> h >= 0.0
  {
    if |s| == 0 then 0.0
    else UserHours(s[..|s| - 1], user) + (if s[|s| - 1].userId == user then EntryHours(s[|s| - 1]) else 0.0)
  }

  /** One line of either report. */
  datatype ReportRow = ReportRow(userId: string, userName: string, totalHours: real, payRate: real)

  /** Some entry of `s` belongs to `user`. */
  predicate HasUser(s: seq<TimeEntry>, user: string) {
    exists i :: 0 <= i < |s| && s[i].userId == user
  }

  /** Some row of the report is about `user`. */
  predicate HasRow(rows: seq<ReportRow>, user: string) {
    exists i :: 0 <= i < |rows| && rows[i].userId == user
  }

  /** The distinct user ids of `s` in order of first occurrence: the keys `GroupBy` yields. */
  function Keys(s: seq<TimeEntry>): (ks: seq<string>)
    ensures forall i, j :: 0 <= i < j < |ks| ==> ks[i] != ks[j]
    ensures forall u :: u in ks <==> HasUser(s, u)
  {
    if |s| == 0 then []
    else
      var p := s[..|s| - 1];
      var ks := Keys(p);
      assert forall i :: 0 <= i < |p| ==> p[i] == s[i];
      if s[|s| - 1].userId in ks then ks else ks + [s[|s| - 1].userId]
  }

  /** The row shows the account its user id names: an account with that id supplies the
      e-mail, or "Unknown" when it has none, and the pay rate, or 0 when it has none. An id
      without an account shows "Unknown" and 0 here; the required foreign key from an entry to
      its user keeps that case from arising in the database. */
  predicate NamesAccount(users: seq<User>, row: ReportRow) {
    if exists k :: 0 <= k < |users| && users[k].id == row.userId then
      exists k :: 0 <= k < |users| && users[k].id == row.userId
        && row.userName == users[k].email.GetOr("Unknown") && row.payRate == users[k].payRate.GetOr(0.0)
    else
      row.userName == "Unknown" && row.payRate == 0.0
  }

  /** The row of one group: the user's e-mail (or "Unknown") and pay rate (or 0), and the
      group's hours. */
  function RowFor(users: seq<User>, s: seq<TimeEntry>, user: string): (row: ReportRow)
    ensures row.userId == user && row.totalHours == UserHours(s, user)
    ensures NamesAccount(users, row)
  {
    var u := FindUser(users, user);
    ReportRow(user,
              if u.Some? && u.value.email.Some? then u.value.email.value else "Unknown",
              UserHours(s, user),
              if u.Some? && u.value.payRate.Some? then u.value.payRate.value else 0.0)
  }

  function RowsFor(users: seq<User>, s: seq<TimeEntry>, ks: seq<string>): (rows: seq<ReportRow>)
    ensures |rows| == |ks|
    ensures forall i :: 0 <= i < |ks| ==> rows[i] == RowFor(users, s, ks[i])
  {
    if |ks| == 0 then [] else RowsFor(users, s, ks[..|ks| - 1]) + [RowFor(users, s, ks[|ks| - 1])]
  }

  /** `GroupBy(te => te.UserId).Select(...)`: one row per distinct user, in order of first
      occurrence, each carrying that user's total hours. */
  function Rows(users: seq<User>, s: seq<TimeEntry>): (rows: seq<ReportRow>)
    ensures forall i, j :: 0 <= i < j < |rows| ==> rows[i].userId != rows[j].userId
    ensures forall u :: HasRow(rows, u) <==> HasUser(s, u)
    ensures forall i :: 0 <= i < |rows| ==> rows[i].totalHours == UserHours(s, rows[i].userId)
    ensures forall i :: 0 <= i < |rows| ==> NamesAccount(users, rows[i])
  {
    var ks := Keys(s);
    var rows := RowsFor(users, s, ks);
    forall u
      ensures HasRow(rows, u) <==> u in ks
    {
      if u in ks {
        var i :| 0 <= i < |ks| && ks[i] == u;
        assert rows[i].userId == u;
      }
    }
    rows
  }

  /** The sum of the rows' `TotalHours`. */
  function RowsTotal(rows: seq<ReportRow>): real {
    if |rows| == 0 then 0.0 else RowsTotal(rows[..|rows| - 1]) + rows[|rows| - 1].totalHours
  }

  // ---------------------------------------------------------------------------
  // The two reports

  /** The payroll report's filter. The lifted comparison `ClockOut <= end` is false for an
      open entry, so only closed entries are selected. */
  predicate PayrollSelects(e: TimeEntry, organization: int, start: int, end: int) {
    e.organizationId == organization && e.clockIn >= start && e.clockOut.Some? && e.clockOut.value <= end
  }

  /** `GetPayrollReport`: rejects an inverted window, needs a caller with an organisation,
      and reports the caller's organisation's closed entries within the window. */
  function PayrollReport(users: seq<User>, entries: seq<TimeEntry>, userClaim: Option<string>, start: int, end: int): (r: Response<seq<ReportRow>>)
    ensures start > end <==> r == Err(BadRequest)
    ensures r == Err(Unauthorized) <==>
      start <= end && (userClaim.None? || FindUser(users, userClaim.value).None? || FindUser(users, userClaim.value).value.organizationId.None?)
    ensures r.Ok? ==>
      var org := FindUser(users, userClaim.value).value.organizationId.value;
      && r.value == Rows(users, Filter(entries, (e: TimeEntry) => PayrollSelects(e, org, start, end)))
      && forall i :: 0 <= i < |r.value| ==> NamesAccount(users, r.value[i])
  {
    if start > end then Err(BadRequest)
    else if userClaim.None? then Err(Unauthorized)
    else
      var caller := FindUser(users, userClaim.value);
      if caller.None? || caller.value.organizationId.None? then Err(Unauthorized)
      else
        var org := caller.value.organizationId.value;
        Ok(Rows(users, Filter(entries, (e: TimeEntry) => PayrollSelects(e, org, start, end))))
  }

  predicate ProjectSelects(e: TimeEntry, project: int, organization: int, start: int, end: int) {
    e.projectId == Some(project) && e.organizationId == organization
    && e.clockIn >= start && e.clockOut.Some? && e.clockOut.value <= end
  }

  /** `GetProjectReport`: a missing or empty organisation claim is `Unauthorized`; the claim is
      then read with `int.Parse` while the query is built, which throws on anything but a
      32-bit numeral. The project's entries within the window are reported; no matching entry
      is `NotFound`. */
  function ProjectReport(users: seq<User>, entries: seq<TimeEntry>, organizationClaim: Option<string>,
                         project: int, start: int, end: int): (r: Response<seq<ReportRow>>)
    ensures r == Err(Unauthorized) <==> organizationClaim.None? || organizationClaim.value == ""
    ensures r == Err(ServerError) <==>
      organizationClaim.Some? && organizationClaim.value != "" && ParseInt32(organizationClaim.value).None?
    ensures r == Err(NotFound) <==>
      && organizationClaim.Some? && ParseInt32(organizationClaim.value).Some?
      && forall i :: 0 <= i < |entries| ==>
           !ProjectSelects(entries[i], project, ParseInt32(organizationClaim.value).value, start, end)
    ensures r.Ok? ==>
      var org := ParseInt32(organizationClaim.value).value;
      && r.value == Rows(users, Filter(entries, (e: TimeEntry) => ProjectSelects(e, project, org, start, end)))
      && |r.value| > 0
      && forall i :: 0 <= i < |r.value| ==> NamesAccount(users, r.value[i])
  {
    if organizationClaim.None? || organizationClaim.value == "" then Err(Unauthorized)
    else match ParseInt32(organizationClaim.value)
      case None => Err(ServerError)
      case Some(org) =>
        var selected := Filter(entries, (e: TimeEntry) => ProjectSelects(e, project, org, start, end));
        if |selected| == 0 then Err(NotFound)
        else
          assert HasUser(selected, selected[0].userId);
          Ok(Rows(users, selected))
  }
}
