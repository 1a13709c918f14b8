/** Properties of the reports: grouping by user neither loses nor double-counts hours, each
    report has one row per user it selected, and open entries never reach a report. */
module ReportLaws {
  import opened Common
  import opened Entities
  import opened Reports
  import opened Text
  import opened TimeEntries

  /** The hours of the groups named in `ks`. */
  function SumOver(s: seq<TimeEntry>, ks: seq<string>): real {
    if |ks| == 0 then 0.0 else SumOver(s, ks[..|ks| - 1]) + UserHours(s, ks[|ks| - 1])
  }

  lemma {:induction false} RowsTotalIsSumOver(users: seq<User>, s: seq<TimeEntry>, ks: seq<string>)
    ensures RowsTotal(RowsFor(users, s, ks)) == SumOver(s, ks)
    decreases |ks|
  {
    if |ks| > 0 {
      var rows := RowsFor(users, s, ks);
      assert rows[..|rows| - 1] == RowsFor(users, s, ks[..|ks| - 1]);
      RowsTotalIsSumOver(users, s, ks[..|ks| - 1]);
    }
  }

  /** A user with no entries has no hours. */
  lemma {:induction false} UserHoursAbsent(s: seq<TimeEntry>, user: string)
    requires !HasUser(s, user)
    ensures UserHours(s, user) == 0.0
    decreases |s|
  {
    if |s| > 0 {
      var p := s[..|s| - 1];
      assert !HasUser(p, user) by {
        assert forall i :: 0 <= i < |p| ==> p[i] == s[i];
      }
      UserHoursAbsent(p, user);
    }
  }

  /** Adding the last entry of `s` adds its hours to the groups exactly once when its user is
      among the distinct keys `ks`, and not at all otherwise. */
  lemma {:induction false} SumOverStep(s: seq<TimeEntry>, ks: seq<string>)
    requires |s| > 0
    requires forall i, j :: 0 <= i < j < |ks| ==> ks[i] != ks[j]
    ensures SumOver(s, ks) == SumOver(s[..|s| - 1], ks) + (if s[|s| - 1].userId in ks then EntryHours(s[|s| - 1]) else 0.0)
    decreases |ks|
  {
    if |ks| > 0 {
      var q := ks[..|ks| - 1];
      var last := s[|s| - 1];
      SumOverStep(s, q);
      assert last.userId in ks <==> last.userId in q || last.userId == ks[|ks| - 1] by {
        assert ks == q + [ks[|ks| - 1]];
      }
      assert last.userId in q ==> last.userId != ks[|ks| - 1];
    }
  }

  /** Grouping conserves hours: the groups' totals add up to the total of all entries. */
  lemma {:induction false} KeysConserveHours(s: seq<TimeEntry>)
    ensures SumOver(s, Keys(s)) == TotalHours(s)
    decreases |s|
  {
    if |s| > 0 {
      var p := s[..|s| - 1];
      var last := s[|s| - 1];
      KeysConserveHours(p);
      SumOverStep(s, Keys(p));
      if last.userId !in Keys(p) {
        UserHoursAbsent(p, last.userId);
        assert (Keys(p) + [last.userId])[..|Keys(p)|] == Keys(p);
      }
    }
  }

  /** The rows of a report add up to the hours of the entries it selected. */
  lemma RowsConserveHours(users: seq<User>, s: seq<TimeEntry>)
    ensures RowsTotal(Rows(users, s)) == TotalHours(s)
  {
    RowsTotalIsSumOver(users, s, Keys(s));
    KeysConserveHours(s);
  }

  /** The payroll report: one row per user with a closed entry of the caller's organisation in
      the window, each with that user's hours, the rows adding up to the hours of all selected
      entries; no open entry is selected. */
  lemma PayrollReportRows(users: seq<User>, entries: seq<TimeEntry>, userClaim: Option<string>, start: int, end: int)
    requires PayrollReport(users, entries, userClaim, start, end).Ok?
    ensures var rows := PayrollReport(users, entries, userClaim, start, end).value;
      var org := FindUser(users, userClaim.value).value.organizationId.value;
      var selected := Filter(entries, (e: TimeEntry) => PayrollSelects(e, org, start, end));
      && (forall i :: 0 <= i < |selected| ==> !selected[i].IsOpen() && selected[i].organizationId == org)
      && (forall i, j :: 0 <= i < j < |rows| ==> rows[i].userId != rows[j].userId)
      && (forall u :: HasRow(rows, u) <==> exists i :: 0 <= i < |entries| && entries[i].userId == u && PayrollSelects(entries[i], org, start, end))
      && (forall i :: 0 <= i < |rows| ==> rows[i].totalHours == UserHours(selected, rows[i].userId))
      && RowsTotal(rows) == TotalHours(selected)
  {
    var org := FindUser(users, userClaim.value).value.organizationId.value;
    var selected := Filter(entries, (e: TimeEntry) => PayrollSelects(e, org, start, end));
    RowsConserveHours(users, selected);
    forall u
      ensures HasUser(selected, u) <==> exists i :: 0 <= i < |entries| && entries[i].userId == u && PayrollSelects(entries[i], org, start, end)
    {
      SelectedUser(entries, (e: TimeEntry) => PayrollSelects(e, org, start, end), u);
    }
  }

  /** With user ids unique, a row of a user's account shows exactly that account's e-mail (or
      "Unknown") and pay rate (or 0). */
  lemma RowShowsAccount(users: seq<User>, row: ReportRow, k: int)
    requires UniqueUserIds(users) && 0 <= k < |users| && users[k].id == row.userId
    requires NamesAccount(users, row)
    ensures row.userName == users[k].email.GetOr("Unknown") && row.payRate == users[k].payRate.GetOr(0.0)
  {
    var j :| 0 <= j < |users| && users[j].id == row.userId
      && row.userName == users[j].email.GetOr("Unknown") && row.payRate == users[j].payRate.GetOr(0.0);
    assert j == k;
  }

  /** Every user with a selected entry gets a payroll row carrying that user's hours, e-mail (or
      "Unknown") and pay rate (or 0). */
  lemma PayrollShowsPayRate(users: seq<User>, entries: seq<TimeEntry>, userClaim: Option<string>, start: int, end: int, k: int, i: int)
    requires PayrollReport(users, entries, userClaim, start, end).Ok?
    requires UniqueUserIds(users) && 0 <= k < |users| && 0 <= i < |entries|
    requires entries[i].userId == users[k].id
    requires PayrollSelects(entries[i], FindUser(users, userClaim.value).value.organizationId.value, start, end)
    ensures var rows := PayrollReport(users, entries, userClaim, start, end).value;
      exists n :: 0 <= n < |rows| && rows[n].userId == users[k].id
        && rows[n].userName == users[k].email.GetOr("Unknown") && rows[n].payRate == users[k].payRate.GetOr(0.0)
  {
    var rows := PayrollReport(users, entries, userClaim, start, end).value;
    PayrollReportRows(users, entries, userClaim, start, end);
    assert HasRow(rows, users[k].id);
    var n :| 0 <= n < |rows| && rows[n].userId == users[k].id;
    RowShowsAccount(users, rows[n], k);
  }

  /** A user has a selected entry exactly when one of their entries passes the filter. */
  lemma SelectedUser(entries: seq<TimeEntry>, p: TimeEntry -> bool, u: string)
    ensures HasUser(Filter(entries, p), u) <==> exists i :: 0 <= i < |entries| && entries[i].userId == u && p(entries[i])
  {
    var selected := Filter(entries, p);
    if exists i :: 0 <= i < |entries| && entries[i].userId == u && p(entries[i]) {
      var i :| 0 <= i < |entries| && entries[i].userId == u && p(entries[i]);
      assert entries[i] in selected;
      var j :| 0 <= j < |selected| && selected[j] == entries[i];
      assert selected[j].userId == u;
    }
    if HasUser(selected, u) {
      var j :| 0 <= j < |selected| && selected[j].userId == u;
      assert selected[j] in entries && p(selected[j]);
      var i :| 0 <= i < |entries| && entries[i] == selected[j];
      assert entries[i].userId == u && p(entries[i]);
    }
  }

  /** The project report, when it finds entries: one row per user with a closed entry of the
      project in the window, rows adding up to the selected entries' hours. */
  lemma ProjectReportRows(users: seq<User>, entries: seq<TimeEntry>, claim: string, organization: int, project: int, start: int, end: int)
    requires ParseInt32(claim) == Some(organization)
    requires ProjectReport(users, entries, Some(claim), project, start, end).Ok?
    ensures var rows := ProjectReport(users, entries, Some(claim), project, start, end).value;
      var selected := Filter(entries, (e: TimeEntry) => ProjectSelects(e, project, organization, start, end));
      && (forall i :: 0 <= i < |selected| ==> !selected[i].IsOpen() && selected[i].projectId == Some(project))
      && (forall i, j :: 0 <= i < j < |rows| ==> rows[i].userId != rows[j].userId)
      && (forall u :: HasRow(rows, u) <==> HasUser(selected, u))
      && RowsTotal(rows) == TotalHours(selected)
  {
    var selected := Filter(entries, (e: TimeEntry) => ProjectSelects(e, project, organization, start, end));
    RowsConserveHours(users, selected);
  }

  /** Entries that each end after they start total non-negative hours. */
  lemma {:induction false} TotalHoursNonNegative(s: seq<TimeEntry>)
    requires forall i :: 0 <= i < |s| ==> s[i].EndsAfterStart()
    ensures TotalHours(s) >= 0.0
    decreases |s|
  {
    if |s| > 0 {
      TotalHoursNonNegative(s[..|s| - 1]);
    }
  }

  /** Any selection from a table whose spans are non-negative, the report filters included,
      totals non-negative hours. */
  lemma SelectedHoursNonNegative(entries: seq<TimeEntry>, p: TimeEntry -> bool)
    requires NonNegativeSpans(entries)
    ensures TotalHours(Filter(entries, p)) >= 0.0
  {
    var selected := Filter(entries, p);
    forall i | 0 <= i < |selected|
      ensures selected[i].EndsAfterStart()
    {
      var j :| 0 <= j < |entries| && entries[j] == selected[i];
    }
    TotalHoursNonNegative(selected);
  }
}
