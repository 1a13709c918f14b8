/** Properties of the time-entry lifecycle: the table invariant is kept by every operation, a
    shift closes exactly once, the stored elapsed time reads back as the shift's hours, and
    the two edit variants part ways on open entries. */
module TimeEntryLaws {
  import opened Common
  import opened Duration
  import opened DurationLaws
  import opened Entities
  import opened Text
  import opened TimeEntries

  /** Replacing one row by a consistent row with the same id keeps the table valid. */
  lemma ReplaceKeepsValid(s: seq<TimeEntry>, k: nat, e: TimeEntry, encode: int -> string)
    requires Valid(s, encode) && k < |s| && e.id == s[k].id && Consistent(e, encode)
    ensures Valid(s[k := e], encode)
  {
    var t := s[k := e];
    forall i, j | 0 <= i < j < |t|
      ensures t[i].id != t[j].id
    {
      assert t[i].id == s[i].id && t[j].id == s[j].id;
    }
  }

  lemma ClockInKeepsValid(s: seq<TimeEntry>, userClaim: Option<string>, organizationClaim: Option<string>,
                          projectId: Option<int>, locationId: Option<int>, now: int, encode: int -> string)
    requires Valid(s, encode)
    ensures Valid(ClockIn(s, userClaim, organizationClaim, projectId, locationId, now).state, encode)
  {
    var r := ClockIn(s, userClaim, organizationClaim, projectId, locationId, now);
    if r.response.Ok? {
      var t := r.state;
      assert t == s + [r.response.value];
      forall i, j | 0 <= i < j < |t|
        ensures t[i].id != t[j].id
      {
        if j == |s| {
          assert t[i] == s[i];
        } else {
          assert t[i] == s[i] && t[j] == s[j];
        }
      }
      forall i | 0 <= i < |t|
        ensures Consistent(t[i], encode)
      {
        if i < |s| {
          assert t[i] == s[i];
        }
      }
    }
  }

  lemma ClockOutKeepsValid(s: seq<TimeEntry>, id: int, now: int, encode: int -> string)
    requires Valid(s, encode)
    ensures Valid(ClockOut(s, id, now, encode).state, encode)
  {
    var r := ClockOut(s, id, now, encode);
    if r.response.Ok? {
      var k := IndexOf(s, id).value;
      assert r.state == s[k := r.response.value];
      ReplaceKeepsValid(s, k, r.response.value, encode);
    }
  }

  /** A shift closes exactly once: clocking out the same entry again is refused and changes
      nothing, whenever it is attempted. */
  lemma ClockOutOnce(s: seq<TimeEntry>, id: int, now: int, later: int, encode: int -> string)
    requires ClockOut(s, id, now, encode).response.Ok?
    ensures var t := ClockOut(s, id, now, encode).state;
      ClockOut(t, id, later, encode) == Step(t, Err(BadRequest))
  {
    var t := ClockOut(s, id, now, encode).state;
    var k := IndexOf(s, id).value;
    assert t == s[k := t[k]];
    assert IndexOf(t, id) == Some(k) by {
      assert forall j :: 0 <= j < k ==> t[j] == s[j];
    }
  }

  /** A fresh shift can be clocked out: clock-in followed by clock-out on the returned id
      closes that very entry at the clock-out time. */
  lemma ClockInThenOut(s: seq<TimeEntry>, user: string, organizationClaim: string,
                       projectId: Option<int>, locationId: Option<int>, start: int, stop: int, encode: int -> string)
    requires ParseInt32(organizationClaim).Some?
    ensures var c := ClockIn(s, Some(user), Some(organizationClaim), projectId, locationId, start);
      var r := ClockOut(c.state, c.response.value.id, stop, encode);
      && r.response.Ok?
      && r.response.value.id == c.response.value.id
      && r.response.value.clockIn == start
      && r.response.value.clockOut == Some(stop)
      && r.response.value.duration == Some(encode(stop - start))
  {
    var c := ClockIn(s, Some(user), Some(organizationClaim), projectId, locationId, start);
    var e := c.response.value;
    assert c.state[|s|] == e;
    assert forall j :: 0 <= j < |s| ==> c.state[j] == s[j];
    assert IndexOf(c.state, e.id) == Some(|s|);
  }

  /** The elapsed time stored at clock-out reads back, in the corrected parser, as the shift's
      length in hours. */
  lemma ClockOutStoresHours(s: seq<TimeEntry>, id: int, now: int)
    requires ClockOut(s, id, now, Encode).response.Ok?
    requires now >= s[IndexOf(s, id).value].clockIn
    ensures var e := ClockOut(s, id, now, Encode).response.value;
      && e.duration.Some?
      && Hours(e.duration.value) == (now - e.clockIn) as real / 3600.0
  {
    var e := ClockOut(s, id, now, Encode).response.value;
    assert e.clockIn == s[IndexOf(s, id).value].clockIn && e.clockOut == Some(now);
    ClosedEntryHours(e);
  }

  /** The timeclock view reads the stored elapsed time the same way, unless the shift is a
      positive whole number of days. */
  lemma ClockOutTimeclockHours(s: seq<TimeEntry>, id: int, now: int)
    requires ClockOut(s, id, now, Encode).response.Ok?
    requires now >= s[IndexOf(s, id).value].clockIn
    requires (now - s[IndexOf(s, id).value].clockIn) % SecondsPerDay != 0 || now == s[IndexOf(s, id).value].clockIn
    ensures var e := ClockOut(s, id, now, Encode).response.value;
      && e.duration.Some?
      && TimeclockHours(e.duration.value) == (now - e.clockIn) as real / 3600.0
  {
    var e := ClockOut(s, id, now, Encode).response.value;
    assert e.clockIn == s[IndexOf(s, id).value].clockIn && e.clockOut == Some(now);
    ClosedEntryTimeclockHours(e);
  }

  /** A closed, consistent entry's stored duration reads back as its length in hours. */
  lemma ClosedEntryHours(e: TimeEntry)
    requires Consistent(e, Encode) && e.clockOut.Some? && e.clockOut.value >= e.clockIn
    ensures e.duration.Some?
    ensures Hours(e.duration.value) == (e.clockOut.value - e.clockIn) as real / 3600.0
  {
    var n: nat := e.clockOut.value - e.clockIn;
    HoursReadsEncoding(e.duration.value, n);
  }

  /** The same for the timeclock view's parser, when the entry is not a positive whole number
      of days long. */
  lemma ClosedEntryTimeclockHours(e: TimeEntry)
    requires Consistent(e, Encode) && e.clockOut.Some? && e.clockOut.value >= e.clockIn
    requires (e.clockOut.value - e.clockIn) % SecondsPerDay != 0 || e.clockOut.value == e.clockIn
    ensures e.duration.Some?
    ensures TimeclockHours(e.duration.value) == (e.clockOut.value - e.clockIn) as real / 3600.0
  {
    var n: nat := e.clockOut.value - e.clockIn;
    TimeclockReadsEncoding(e.duration.value, n);
  }

  /** The two round trips, stated for a text known to be an encoding. */
  lemma HoursReadsEncoding(s: string, n: nat)
    requires s == Encode(n)
    ensures Hours(s) == n as real / 3600.0
  {
    HoursRoundTrip(n);
  }

  lemma TimeclockReadsEncoding(s: string, n: nat)
    requires s == Encode(n) && (n % SecondsPerDay != 0 || n == 0)
    ensures TimeclockHours(s) == n as real / 3600.0
  {
    TimeclockRoundTrip(n);
  }

  lemma UpdateKeepsValid(s: seq<TimeEntry>, req: EntryEdit, encode: int -> string)
    requires Valid(s, encode)
    ensures Valid(UpdateEntry(s, req, encode).state, encode)
  {
    var r := UpdateEntry(s, req, encode);
    if r.response.Ok? && r.state != s {
      var k := IndexOf(s, req.id).value;
      assert r.state == s[k := r.response.value];
      ReplaceKeepsValid(s, k, r.response.value, encode);
    }
  }

  lemma LegacyUpdateKeepsValid(s: seq<TimeEntry>, req: LegacyEdit, encode: int -> string)
    requires Valid(s, encode)
    ensures Valid(LegacyUpdateEntry(s, req, encode).state, encode)
  {
    var r := LegacyUpdateEntry(s, req, encode);
    if r.response.Ok? {
      var k := IndexOf(s, req.id).value;
      assert r.state == s[k := r.response.value];
      if !TimeSupplied(req) {
        assert Consistent(s[k], encode);
      }
      ReplaceKeepsValid(s, k, r.response.value, encode);
    }
  }

  /** Moving an open entry to another project: the `HourMap/` controller counts the project
      change as a time change and refuses the open entry, while the root controller stores the
      new project and leaves the entry open. */
  lemma ProjectEditOfOpenEntryDiverges(s: seq<TimeEntry>, k: nat, project: int, encode: int -> string)
    requires UniqueIds(s) && k < |s| && s[k].IsOpen() && s[k].projectId != Some(project)
    ensures UpdateEntry(s, EntryEdit(s[k].id, s[k].clockIn, None, Some(project), None), encode) == Step(s, Err(BadRequest))
    ensures var r := LegacyUpdateEntry(s, LegacyEdit(s[k].id, None, None, Some(project), None), encode);
      && r.response.Ok?
      && r.response.value.projectId == Some(project)
      && r.response.value.IsOpen()
      && r.state[k] == r.response.value
  {
    IndexOfUnique(s, s[k].id, k);
  }

  /** Re-sending an open entry's unchanged clock-in: a no-op in the `HourMap/` controller, a
      refused time change in the root controller. */
  lemma ResubmittedClockInDiverges(s: seq<TimeEntry>, k: nat, encode: int -> string)
    requires UniqueIds(s) && k < |s| && s[k].IsOpen()
    ensures UpdateEntry(s, EntryEdit(s[k].id, s[k].clockIn, None, None, None), encode) == Step(s, Ok(s[k]))
    ensures LegacyUpdateEntry(s, LegacyEdit(s[k].id, Some(s[k].clockIn), None, None, None), encode) == Step(s, Err(BadRequest))
  {
    IndexOfUnique(s, s[k].id, k);
  }

  /** An edit that moves clock-out before clock-in is refused by both controllers. */
  lemma NegativeEditRefused(s: seq<TimeEntry>, k: nat, clockIn: int, clockOut: int, encode: int -> string)
    requires UniqueIds(s) && k < |s| && clockOut < clockIn
    requires clockIn != s[k].clockIn || Some(clockOut) != s[k].clockOut
    ensures UpdateEntry(s, EntryEdit(s[k].id, clockIn, Some(clockOut), None, None), encode).response.Err?
    ensures LegacyUpdateEntry(s, LegacyEdit(s[k].id, Some(clockIn), Some(clockOut), None, None), encode) == Step(s, Err(BadRequest))
  {
    IndexOfUnique(s, s[k].id, k);
  }

  /** Under unique ids, delete removes exactly the entry with that id and keeps the others, in
      order, and the table stays valid. */
  lemma DeleteRemovesExactly(s: seq<TimeEntry>, id: int, encode: int -> string)
    requires Valid(s, encode)
    ensures var r := DeleteEntry(s, id);
      && Valid(r.state, encode)
      && (forall e :: e in r.state <==> e in s && e.id != id)
  {
    var r := DeleteEntry(s, id);
    if r.response.Ok? {
      var k := IndexOf(s, id).value;
      RemoveAtMembers(s, k);
      RemoveAtKeepsValid(s, k, encode);
    }
  }

  /** Removing row `k` of a table with unique ids leaves exactly the rows with other ids. */
  lemma RemoveAtMembers(s: seq<TimeEntry>, k: nat)
    requires UniqueIds(s) && k < |s|
    ensures forall e :: e in RemoveAt(s, k) <==> e in s && e.id != s[k].id
  {
    var t := RemoveAt(s, k);
    forall e
      ensures e in t <==> e in s && e.id != s[k].id
    {
      if e in t {
        var i :| 0 <= i < |t| && t[i] == e;
        if i < k {
          assert e == s[i];
        } else {
          assert e == s[i + 1];
        }
      }
      if e in s && e.id != s[k].id {
        var i :| 0 <= i < |s| && s[i] == e;
        if i < k {
          assert t[i] == e;
        } else {
          assert i != k;
          assert t[i - 1] == e;
        }
      }
    }
  }

  lemma RemoveAtKeepsValid(s: seq<TimeEntry>, k: nat, encode: int -> string)
    requires Valid(s, encode) && k < |s|
    ensures Valid(RemoveAt(s, k), encode)
  {
    var t := RemoveAt(s, k);
    forall i, j | 0 <= i < j < |t|
      ensures t[i].id != t[j].id
    {
      var i' := if i < k then i else i + 1;
      var j' := if j < k then j else j + 1;
      assert t[i] == s[i'] && t[j] == s[j'];
    }
    forall i | 0 <= i < |t|
      ensures Consistent(t[i], encode)
    {
      var i' := if i < k then i else i + 1;
      assert t[i] == s[i'];
    }
  }

  // ---------------------------------------------------------------------------
  // Non-negative spans

  /** Replacing one row by a row that ends after it starts keeps every span non-negative, and
      keeps open shifts started by `now` when the new row is closed or started by then. */
  lemma ReplaceKeepsSpans(s: seq<TimeEntry>, k: nat, e: TimeEntry, now: int)
    requires NonNegativeSpans(s) && StartedBy(s, now) && k < |s|
    requires e.EndsAfterStart() && (e.IsOpen() ==> e.clockIn <= now)
    ensures NonNegativeSpans(s[k := e]) && StartedBy(s[k := e], now)
  {
    var t := s[k := e];
    forall i | 0 <= i < |t|
      ensures t[i].EndsAfterStart() && (t[i].IsOpen() ==> t[i].clockIn <= now)
    {
      if i != k {
        assert t[i] == s[i];
      }
    }
  }

  /** A clock-in adds an open shift starting now, which a later clock time still covers. */
  lemma ClockInKeepsSpans(s: seq<TimeEntry>, userClaim: Option<string>, organizationClaim: Option<string>,
                          projectId: Option<int>, locationId: Option<int>, now: int, later: int)
    requires NonNegativeSpans(s) && StartedBy(s, now) && now <= later
    ensures var t := ClockIn(s, userClaim, organizationClaim, projectId, locationId, now).state;
      NonNegativeSpans(t) && StartedBy(t, later)
  {
    var r := ClockIn(s, userClaim, organizationClaim, projectId, locationId, now);
    var t := r.state;
    forall i | 0 <= i < |t|
      ensures t[i].EndsAfterStart() && (t[i].IsOpen() ==> t[i].clockIn <= later)
    {
      if i < |s| {
        assert t[i] == s[i];
      }
    }
  }

  /** Clocking out at a time no earlier than every open shift's start stores a non-negative
      span. */
  lemma ClockOutKeepsSpans(s: seq<TimeEntry>, id: int, now: int, encode: int -> string)
    requires NonNegativeSpans(s) && StartedBy(s, now)
    ensures var t := ClockOut(s, id, now, encode).state;
      NonNegativeSpans(t) && StartedBy(t, now)
  {
    var r := ClockOut(s, id, now, encode);
    if r.response.Ok? {
      var k := IndexOf(s, id).value;
      assert r.state == s[k := r.response.value];
      ReplaceKeepsSpans(s, k, r.response.value, now);
    }
  }

  lemma UpdateKeepsSpans(s: seq<TimeEntry>, req: EntryEdit, now: int, encode: int -> string)
    requires NonNegativeSpans(s) && StartedBy(s, now)
    ensures var t := UpdateEntry(s, req, encode).state;
      NonNegativeSpans(t) && StartedBy(t, now)
  {
    var r := UpdateEntry(s, req, encode);
    if r.response.Ok? && r.state != s {
      var k := IndexOf(s, req.id).value;
      assert r.state == s[k := r.response.value];
      ReplaceKeepsSpans(s, k, r.response.value, now);
    }
  }

  /** The root controller's edit keeps spans non-negative too: an edit without clock times
      leaves both times as stored, and one with clock times must close the entry forwards. */
  lemma LegacyUpdateKeepsSpans(s: seq<TimeEntry>, req: LegacyEdit, now: int, encode: int -> string)
    requires NonNegativeSpans(s) && StartedBy(s, now)
    ensures var t := LegacyUpdateEntry(s, req, encode).state;
      NonNegativeSpans(t) && StartedBy(t, now)
  {
    var r := LegacyUpdateEntry(s, req, encode);
    if r.response.Ok? {
      var k := IndexOf(s, req.id).value;
      assert r.state == s[k := r.response.value];
      ReplaceKeepsSpans(s, k, r.response.value, now);
    }
  }

  lemma DeleteKeepsSpans(s: seq<TimeEntry>, id: int, now: int)
    requires NonNegativeSpans(s) && StartedBy(s, now)
    ensures var t := DeleteEntry(s, id).state;
      NonNegativeSpans(t) && StartedBy(t, now)
  {
    var r := DeleteEntry(s, id);
    if r.response.Ok? {
      var k := IndexOf(s, id).value;
      var t := r.state;
      forall i | 0 <= i < |t|
        ensures t[i].EndsAfterStart() && (t[i].IsOpen() ==> t[i].clockIn <= now)
      {
        assert t[i] == s[if i < k then i else i + 1];
      }
    }
  }
}
