/** The time-entry lifecycle of `TimeEntryController`: clock in, clock out, edit, delete and
    look up. The table is a sequence of rows in storage order; "now" is a parameter. The two
    backend variants share everything except the edit, which appears as `UpdateEntry` (the
    `HourMap/` controller) and `LegacyUpdateEntry` (the root `Controllers/` one). The elapsed
    time is written by `XmlConvert.ToString`, a framework call, so the operations that write it
    take the encoder as a parameter `encode`; `Duration.Encode` models it, and the laws that
    read the stored text back instantiate the parameter with it. */
module TimeEntries {
  import opened Common
  import opened Entities
  import opened Text

  /** Entry ids are a primary key. */
  predicate UniqueIds(s: seq<TimeEntry>) {
    forall i, j :: 0 <= i < j < |s| ==> s[i].id != s[j].id
  }

  /** The stored elapsed time agrees with the clock times: it is present exactly when the
      entry is closed, and is then the encoding of `ClockOut - ClockIn` in seconds. */
  predicate Consistent(e: TimeEntry, encode: int -> string) {
    (e.clockOut.Some? <==> e.duration.Some?)
    && (e.clockOut.Some? ==> e.duration.value == encode(e.clockOut.value - e.clockIn))
  }

  /** The table invariant every lifecycle operation keeps. */
  predicate Valid(s: seq<TimeEntry>, encode: int -> string) {
    UniqueIds(s) && forall i :: 0 <= i < |s| ==> Consistent(s[i], encode)
  }

  /** No stored shift ends before it starts. */
  predicate NonNegativeSpans(s: seq<TimeEntry>) {
    forall i :: 0 <= i < |s| ==> s[i].EndsAfterStart()
  }

  /** Every open shift was clocked in no later than `now`, so clocking it out at `now` stores
      a non-negative span. */
  predicate StartedBy(s: seq<TimeEntry>, now: int) {
    forall i :: 0 <= i < |s| && s[i].IsOpen() ==> s[i].clockIn <= now
  }

  /** Position of the row with the given id (`FirstOrDefault(te => te.Id == id)`). */
  function IndexOf(s: seq<TimeEntry>, id: int): (r: Option<nat>)
    ensures r.Some? ==> r.value < |s| && s[r.value].id == id
    ensures r.Some? ==> forall j :: 0 <= j < r.value ==> s[j].id != id
    ensures r.None? ==> forall j :: 0 <= j < |s| ==> s[j].id != id
  {
    FirstIndex(s, (e: TimeEntry) => e.id == id)
  }

  /** Under unique ids, the row found is the only one with that id. */
  lemma IndexOfUnique(s: seq<TimeEntry>, id: int, k: nat)
    requires UniqueIds(s) && k < |s| && s[k].id == id
    ensures IndexOf(s, id) == Some(k)
  {
  }

  /** The identity column's next value: larger than every id in the table. */
  function NextId(s: seq<TimeEntry>): (id: int)
    ensures id >= 1
    ensures forall i :: 0 <= i < |s| ==> s[i].id < id
  {
    NextKey(s, (e: TimeEntry) => e.id)
  }

  // ---------------------------------------------------------------------------
  // Clock in and clock out

  /** Starts a shift for the caller. Both claims must be present; the organisation claim is read
      with `int.Parse`, which throws on anything but a 32-bit numeral. Nothing checks whether
      the caller already has an open entry. */
  function ClockIn(s: seq<TimeEntry>, userClaim: Option<string>, organizationClaim: Option<string>,
                   projectId: Option<int>, locationId: Option<int>, now: int): (r: Step<seq<TimeEntry>, TimeEntry>)
    ensures userClaim.None? || organizationClaim.None? ==> r == Step(s, Err(Unauthorized))
    ensures userClaim.Some? && organizationClaim.Some? && ParseInt32(organizationClaim.value).None? ==>
      r == Step(s, Err(ServerError))
    ensures r.response.Ok? <==>
      userClaim.Some? && organizationClaim.Some? && ParseInt32(organizationClaim.value).Some?
    ensures r.response.Ok? ==>
      && r.state == s + [r.response.value]
      && r.response.value.userId == userClaim.value
      && Some(r.response.value.organizationId) == ParseInt32(organizationClaim.value)
      && r.response.value.projectId == projectId
      && r.response.value.locationId == locationId
      && r.response.value.clockIn == now
      && r.response.value.IsOpen()
      && r.response.value.duration.None?
      && forall i :: 0 <= i < |s| ==> s[i].id != r.response.value.id
  {
    if userClaim.None? || organizationClaim.None? then Step(s, Err(Unauthorized))
    else match ParseInt32(organizationClaim.value)
      case None => Step(s, Err(ServerError))
      case Some(organization) =>
        var e := TimeEntry(NextId(s), userClaim.value, organization, projectId, locationId, now, None, None);
        Step(s + [e], Ok(e))
  }

  /** Ends an open shift: `ClockOut` becomes `now` and the elapsed time is stored. An unknown
      id is `NotFound` and a closed entry is `BadRequest`; neither changes the table. */
  function ClockOut(s: seq<TimeEntry>, id: int, now: int, encode: int -> string): (r: Step<seq<TimeEntry>, TimeEntry>)
    ensures IndexOf(s, id).None? ==> r == Step(s, Err(NotFound))
    ensures IndexOf(s, id).Some? && !s[IndexOf(s, id).value].IsOpen() ==> r == Step(s, Err(BadRequest))
    ensures r.response.Err? ==> r.state == s
    ensures r.response.Ok? ==>
      var k := IndexOf(s, id).value;
      var e := r.response.value;
      && s[k].IsOpen()
      && |r.state| == |s| && r.state[k] == e
      && (forall j :: 0 <= j < |s| && j != k ==> r.state[j] == s[j])
      && e.clockOut == Some(now)
      && Consistent(e, encode)
      && e == s[k].(clockOut := e.clockOut, duration := e.duration)
  {
    match IndexOf(s, id)
    case None => Step(s, Err(NotFound))
    case Some(k) =>
      if !s[k].IsOpen() then Step(s, Err(BadRequest))
      else
        var e := s[k].(clockOut := Some(now), duration := Some(encode(now - s[k].clockIn)));
        Step(s[k := e], Ok(e))
  }

  // ---------------------------------------------------------------------------
  // Editing an entry

  /** The edit request of the `HourMap/` controller: the whole entry as the client holds it.
      `ClockIn` is always present; the other fields are optional. */
  datatype EntryEdit = EntryEdit(id: int, clockIn: int, clockOut: Option<int>, projectId: Option<int>, locationId: Option<int>)

  /** Whether the request differs from the stored entry in any field it carries. The
      controller raises its "time changed" flag for every such field, project and location
      included. */
  predicate Differs(e: TimeEntry, req: EntryEdit) {
    req.clockIn != e.clockIn
    || (req.clockOut.Some? && req.clockOut != e.clockOut)
    || (req.projectId.Some? && req.projectId != e.projectId)
    || (req.locationId.Some? && req.locationId != e.locationId)
  }

  /** The stored entry with the request's fields copied over it. */
  function Merge(e: TimeEntry, req: EntryEdit): TimeEntry {
    e.(clockIn := req.clockIn,
       clockOut := if req.clockOut.Some? then req.clockOut else e.clockOut,
       projectId := if req.projectId.Some? then req.projectId else e.projectId,
       locationId := if req.locationId.Some? then req.locationId else e.locationId)
  }

  /** Re-derives the elapsed time after a time change: an open or negative entry is refused. */
  function Recompute(e: TimeEntry, encode: int -> string): (r: Response<TimeEntry>)
    ensures r.Ok? <==> e.clockOut.Some? && e.clockOut.value >= e.clockIn
    ensures r.Ok? ==> Consistent(r.value, encode) && r.value == e.(duration := r.value.duration)
    ensures r.Err? ==> r.status == BadRequest
  {
    if e.clockOut.None? then Err(BadRequest)
    else if e.clockOut.value - e.clockIn < 0 then Err(BadRequest)
    else Ok(e.(duration := Some(encode(e.clockOut.value - e.clockIn))))
  }

  /** A manager's edit in the `HourMap/` controller. When the request changes any field, the
      entry must be closed with `ClockOut >= ClockIn`, and its elapsed time is re-encoded;
      otherwise the entry is returned as stored. A refused edit saves nothing. */
  function UpdateEntry(s: seq<TimeEntry>, req: EntryEdit, encode: int -> string): (r: Step<seq<TimeEntry>, TimeEntry>)
    ensures IndexOf(s, req.id).None? ==> r == Step(s, Err(NotFound))
    ensures r.response.Err? ==> r.state == s && r.response.status in {NotFound, BadRequest}
    ensures IndexOf(s, req.id).Some? ==>
      var k := IndexOf(s, req.id).value;
      && (!Differs(s[k], req) ==> r == Step(s, Ok(s[k])))
      && (Differs(s[k], req) ==>
            (r.response.Ok? <==> Merge(s[k], req).clockOut.Some? && Merge(s[k], req).clockOut.value >= req.clockIn))
      && (r.response.Ok? ==>
            var e := r.response.value;
            && |r.state| == |s| && r.state[k] == e
            && (forall j :: 0 <= j < |s| && j != k ==> r.state[j] == s[j])
            && e.id == s[k].id && e.userId == s[k].userId && e.organizationId == s[k].organizationId
            && e.clockIn == req.clockIn
            && (req.clockOut.Some? ==> e.clockOut == req.clockOut)
            && (req.clockOut.None? ==> e.clockOut == s[k].clockOut)
            && (req.projectId.Some? ==> e.projectId == req.projectId)
            && (req.projectId.None? ==> e.projectId == s[k].projectId)
            && (req.locationId.Some? ==> e.locationId == req.locationId)
            && (req.locationId.None? ==> e.locationId == s[k].locationId)
            && (!Differs(s[k], req) ==> e.duration == s[k].duration)
            && (Differs(s[k], req) ==> e.clockOut.Some? && e.clockOut.value >= e.clockIn && Consistent(e, encode)))
  {
    match IndexOf(s, req.id)
    case None => Step(s, Err(NotFound))
    case Some(k) =>
      if !Differs(s[k], req) then Step(s, Ok(s[k]))
      else
        match Recompute(Merge(s[k], req), encode)
        case Err(status) => Step(s, Err(status))
        case Ok(e) => Step(s[k := e], Ok(e))
  }

  /** The edit request of the root controller: every field optional. */
  datatype LegacyEdit = LegacyEdit(id: int, clockIn: Option<int>, clockOut: Option<int>, projectId: Option<int>, locationId: Option<int>)

  /** Only supplied clock times count as a time change, whether or not they differ. */
  predicate TimeSupplied(req: LegacyEdit) {
    req.clockIn.Some? || req.clockOut.Some?
  }

  function LegacyMerge(e: TimeEntry, req: LegacyEdit): TimeEntry {
    e.(clockIn := if req.clockIn.Some? then req.clockIn.value else e.clockIn,
       clockOut := if req.clockOut.Some? then req.clockOut else e.clockOut,
       projectId := if req.projectId.Some? then req.projectId else e.projectId,
       locationId := if req.locationId.Some? then req.locationId else e.locationId)
  }

  /** A manager's edit in the root controller. Supplied fields overwrite the stored ones; only a
      supplied clock time triggers the open/negative checks and the re-encoding, so a project or
      location edit of an open entry goes through. */
  function LegacyUpdateEntry(s: seq<TimeEntry>, req: LegacyEdit, encode: int -> string): (r: Step<seq<TimeEntry>, TimeEntry>)
    ensures IndexOf(s, req.id).None? ==> r == Step(s, Err(NotFound))
    ensures r.response.Err? ==> r.state == s && r.response.status in {NotFound, BadRequest}
    ensures IndexOf(s, req.id).Some? ==>
      var k := IndexOf(s, req.id).value;
      var m := LegacyMerge(s[k], req);
      && (TimeSupplied(req) ==> (r.response.Ok? <==> m.clockOut.Some? && m.clockOut.value >= m.clockIn))
      && (!TimeSupplied(req) ==> r.response.Ok? && r.response.value.duration == s[k].duration)
      && (r.response.Ok? ==>
            var e := r.response.value;
            && |r.state| == |s| && r.state[k] == e
            && (forall j :: 0 <= j < |s| && j != k ==> r.state[j] == s[j])
            && e.id == s[k].id && e.userId == s[k].userId && e.organizationId == s[k].organizationId
            && (req.clockIn.Some? ==> e.clockIn == req.clockIn.value)
            && (req.clockIn.None? ==> e.clockIn == s[k].clockIn)
            && (req.clockOut.Some? ==> e.clockOut == req.clockOut)
            && (req.clockOut.None? ==> e.clockOut == s[k].clockOut)
            && (req.projectId.Some? ==> e.projectId == req.projectId)
            && (req.projectId.None? ==> e.projectId == s[k].projectId)
            && (req.locationId.Some? ==> e.locationId == req.locationId)
            && (req.locationId.None? ==> e.locationId == s[k].locationId)
            && (TimeSupplied(req) ==> e.clockOut.Some? && e.clockOut.value >= e.clockIn && Consistent(e, encode)))
  {
    match IndexOf(s, req.id)
    case None => Step(s, Err(NotFound))
    case Some(k) =>
      var m := LegacyMerge(s[k], req);
      if !TimeSupplied(req) then Step(s[k := m], Ok(m))
      else
        match Recompute(m, encode)
        case Err(status) => Step(s, Err(status))
        case Ok(e) => Step(s[k := e], Ok(e))
  }

  // ---------------------------------------------------------------------------
  // Delete and look up

  /** Removes the entry with the given id; an unknown id is `NotFound`. */
  function DeleteEntry(s: seq<TimeEntry>, id: int): (r: Step<seq<TimeEntry>, ()>)
    ensures r.response.Err? <==> IndexOf(s, id).None?
    ensures r.response.Err? ==> r == Step(s, Err(NotFound))
    ensures r.response.Ok? ==> |r.state| == |s| - 1
  {
    match IndexOf(s, id)
    case None => Step(s, Err(NotFound))
    case Some(k) => Step(RemoveAt(s, k), Ok(()))
  }

  /** `GetSingleTimeEntryById`. */
  function GetEntry(s: seq<TimeEntry>, id: int): (r: Response<TimeEntry>)
    ensures r.Err? <==> forall j :: 0 <= j < |s| ==> s[j].id != id
    ensures r.Err? ==> r.status == NotFound
    ensures r.Ok? ==> r.value in s && r.value.id == id
  {
    match IndexOf(s, id)
    case None => Err(NotFound)
    case Some(k) => Ok(s[k])
  }
}
