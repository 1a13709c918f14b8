/** `ProjectController`: replacing a project's set of assigned users, listing the projects a
    user works on, listing a project's assigned users, and editing a project. Assignments are
    the `UserProjects` join table, keyed by (user, project). */
module Projects {
  import opened Common
  import opened Entities

  /** The first project with the given id (`FindAsync` / `FirstOrDefaultAsync(p => p.Id == id)`). */
  function FindProject(projects: seq<Project>, id: int): (r: Option<nat>)
    ensures r.Some? ==> r.value < |projects| && projects[r.value].id == id
    ensures r.None? ==> forall k :: 0 <= k < |projects| ==> projects[k].id != id
  {
    FirstIndex(projects, (p: Project) => p.id == id)
  }

  /** Some user has this id. */
  predicate HasAccount(users: seq<User>, id: string) {
    exists k :: 0 <= k < |users| && users[k].id == id
  }

  /** `Users.Where(u => userIds.Contains(u.Id)).Select(u => u.Id)`: the requested ids that
      belong to a user, in the order of the users table, one per user. */
  function KnownIds(users: seq<User>, userIds: seq<string>): (r: seq<string>)
    ensures |r| <= |users|
    ensures forall x :: x in r <==> x in userIds && HasAccount(users, x)
    ensures UniqueUserIds(users) ==> Distinct(r)
  {
    if |users| == 0 then []
    else
      var p := users[..|users| - 1];
      var last := users[|users| - 1];
      var r := KnownIds(p, userIds);
      assert forall k :: 0 <= k < |p| ==> p[k] == users[k];
      assert forall x :: HasAccount(users, x) <==> HasAccount(p, x) || x == last.id;
      if last.id in userIds then r + [last.id] else r
  }

  /** `a.Except(b)`: the distinct elements of `a` that are not in `b`, in order of first
      occurrence. */
  function Except(a: seq<string>, b: seq<string>): (r: seq<string>)
    ensures forall x :: x in r <==> x in a && x !in b
    ensures Distinct(r)
    ensures |r| == 0 <==> forall x :: x in a ==> x in b
  {
    if |a| == 0 then []
    else
      var p := a[..|a| - 1];
      var r := Except(p, b);
      assert a == p + [a[|a| - 1]];
      if a[|a| - 1] !in b && a[|a| - 1] !in r then r + [a[|a| - 1]] else r
  }

  /** The ids the refusal reports as invalid (`userIds.Except(validUserIds)`). */
  function InvalidIds(users: seq<User>, userIds: seq<string>): (r: seq<string>)
    ensures forall x :: x in r <==> x in userIds && !HasAccount(users, x)
    ensures Distinct(r)
    ensures |r| == 0 <==> forall x :: x in userIds ==> HasAccount(users, x)
  {
    Except(userIds, KnownIds(users, userIds))
  }

  /** One new assignment per id, to the given project in the given organisation. */
  function Assign(ids: seq<string>, projectId: int, organization: int): (r: seq<UserProject>)
    ensures |r| == |ids|
    ensures forall i :: 0 <= i < |ids| ==> r[i] == UserProject(ids[i], projectId, organization)
  {
    seq(|ids|, i requires 0 <= i < |ids| => UserProject(ids[i], projectId, organization))
  }

  /** The assignments that do not belong to the project (`RemoveRange(project.UserProjects)`). */
  function Unassign(assignments: seq<UserProject>, projectId: int): (r: seq<UserProject>)
    ensures forall a :: a in r <==> a in assignments && a.projectId != projectId
  {
    Filter(assignments, (a: UserProject) => a.projectId != projectId)
  }

  /** The outcome of a project-users update: the new assignments, the response, and the ids a
      refusal reports as invalid (empty on every other outcome). */
  datatype UsersUpdate = UsersUpdate(state: seq<UserProject>, response: Response<()>, invalidUserIds: seq<string>)

  /** `UpdateProjectUsers` as written: an unknown project is `NotFound`; the request is refused
      when fewer users were found than ids were sent, reporting the ids that belong to no user;
      otherwise the project's assignments are
      replaced by one per user found, in the project's organisation. */
  function UpdateProjectUsers(projects: seq<Project>, users: seq<User>, assignments: seq<UserProject>,
                              id: int, userIds: seq<string>): (r: UsersUpdate)
    ensures r.response.Err? ==> r.state == assignments
    ensures r.invalidUserIds == if r.response == Err(BadRequest) then InvalidIds(users, userIds) else []
    ensures r.response == Err(NotFound) <==> FindProject(projects, id).None?
    ensures r.response == Err(BadRequest) <==>
      FindProject(projects, id).Some? && |KnownIds(users, userIds)| != |userIds|
    ensures r.response.Ok? ==>
      r.state == Unassign(assignments, id)
                 + Assign(KnownIds(users, userIds), id, projects[FindProject(projects, id).value].organizationId)
  {
    match FindProject(projects, id)
    case None => UsersUpdate(assignments, Err(NotFound), [])
    case Some(k) =>
      var valid := KnownIds(users, userIds);
      if |valid| != |userIds| then UsersUpdate(assignments, Err(BadRequest), InvalidIds(users, userIds))
      else UsersUpdate(Unassign(assignments, id) + Assign(valid, id, projects[k].organizationId), Ok(()), [])
  }

  /** `UpdateProjectUsers` as its comment describes it: the request is refused exactly when
      some id belongs to no user, which it reports, and repeated ids are accepted. */
  function UpdateProjectUsersFixed(projects: seq<Project>, users: seq<User>, assignments: seq<UserProject>,
                                   id: int, userIds: seq<string>): (r: UsersUpdate)
    ensures r.response.Err? ==> r.state == assignments
    ensures r.invalidUserIds == if r.response == Err(BadRequest) then InvalidIds(users, userIds) else []
    ensures r.response == Err(NotFound) <==> FindProject(projects, id).None?
    ensures r.response == Err(BadRequest) <==>
      FindProject(projects, id).Some? && exists x :: x in userIds && !HasAccount(users, x)
    ensures r.response.Ok? ==>
      r.state == Unassign(assignments, id)
                 + Assign(KnownIds(users, userIds), id, projects[FindProject(projects, id).value].organizationId)
  {
    match FindProject(projects, id)
    case None => UsersUpdate(assignments, Err(NotFound), [])
    case Some(k) =>
      if |InvalidIds(users, userIds)| > 0 then
        assert InvalidIds(users, userIds)[0] in InvalidIds(users, userIds);
        UsersUpdate(assignments, Err(BadRequest), InvalidIds(users, userIds))
      else UsersUpdate(Unassign(assignments, id) + Assign(KnownIds(users, userIds), id, projects[k].organizationId), Ok(()), [])
  }

  // ---------------------------------------------------------------------------
  // Which requests the count check accepts

  /** A subset with as many elements as its superset is the whole set. */
  lemma SubsetCard<T>(a: set<T>, b: set<T>)
    requires a <= b
    ensures |a| <= |b|
    ensures |a| == |b| ==> a == b
  {
    assert |b| == |a| + |b - a| by {
      assert b == a + (b - a);
      assert a * (b - a) == {};
    }
    if |a| == |b| {
      assert b - a == {};
    }
  }

  /** The count check passes exactly when every requested id belongs to a user and no id is
      repeated. */
  lemma {:induction false} CountCheckAcceptsExactly(users: seq<User>, userIds: seq<string>)
    requires UniqueUserIds(users)
    ensures |KnownIds(users, userIds)| == |userIds| <==>
      Distinct(userIds) && forall x :: x in userIds ==> HasAccount(users, x)
  {
    var known := KnownIds(users, userIds);
    ElemsCard(known);
    ElemsCard(userIds);
    assert Elems(known) <= Elems(userIds);
    SubsetCard(Elems(known), Elems(userIds));
    if |known| == |userIds| {
      assert |Elems(userIds)| == |userIds|;
      forall x | x in userIds
        ensures HasAccount(users, x)
      {
        assert x in Elems(userIds);
      }
    }
    if Distinct(userIds) && forall x :: x in userIds ==> HasAccount(users, x) {
      assert Elems(known) == Elems(userIds) by {
        forall x | x in Elems(userIds)
          ensures x in Elems(known)
        {
          assert x in known;
        }
      }
    }
  }

  /** The defect as written: sending a user's id twice is refused, yet the refusal's list of
      invalid ids is empty. */
  lemma RepeatedIdRefused(projects: seq<Project>, users: seq<User>, assignments: seq<UserProject>, id: int, u: string)
    requires UniqueUserIds(users) && HasAccount(users, u)
    requires FindProject(projects, id).Some?
    ensures UpdateProjectUsers(projects, users, assignments, id, [u, u]) == UsersUpdate(assignments, Err(BadRequest), [])
  {
    CountCheckAcceptsExactly(users, [u, u]);
    assert [u, u][0] == [u, u][1];
  }

  /** The corrected update accepts every request whose ids all belong to users, repeated or
      not, and agrees with the code as written whenever no id is repeated. */
  lemma FixedAcceptsRepeats(projects: seq<Project>, users: seq<User>, assignments: seq<UserProject>, id: int, userIds: seq<string>)
    requires UniqueUserIds(users)
    ensures Distinct(userIds) ==>
      UpdateProjectUsersFixed(projects, users, assignments, id, userIds) == UpdateProjectUsers(projects, users, assignments, id, userIds)
  {
    CountCheckAcceptsExactly(users, userIds);
  }

  /** After a successful update the project's assignments are exactly one per distinct
      requested id, each in the project's organisation, and no other project's assignments
      changed. */
  lemma UpdateReplacesAssignments(projects: seq<Project>, users: seq<User>, assignments: seq<UserProject>, id: int, userIds: seq<string>)
    requires UniqueUserIds(users)
    requires UpdateProjectUsersFixed(projects, users, assignments, id, userIds).response.Ok?
    ensures var s := UpdateProjectUsersFixed(projects, users, assignments, id, userIds).state;
      var org := projects[FindProject(projects, id).value].organizationId;
      && (forall a :: a in s && a.projectId == id <==> a.userId in userIds && a == UserProject(a.userId, id, org))
      && (forall a: UserProject :: a.projectId != id ==> (a in s <==> a in assignments))
      && Distinct(Filter(s, (a: UserProject) => a.projectId == id))
  {
    var s := UpdateProjectUsersFixed(projects, users, assignments, id, userIds).state;
    var org := projects[FindProject(projects, id).value].organizationId;
    var known := KnownIds(users, userIds);
    AssignMembers(known, id, org);
    ProjectPart(assignments, Assign(known, id, org), id);
  }

  /** The assignments `Assign` creates are exactly those of the given ids to the project, and
      they repeat no pair when the ids repeat none. */
  lemma AssignMembers(ids: seq<string>, projectId: int, organization: int)
    ensures forall a: UserProject :: a in Assign(ids, projectId, organization) <==>
      a.userId in ids && a == UserProject(a.userId, projectId, organization)
    ensures Distinct(ids) ==> Distinct(Assign(ids, projectId, organization))
  {
    var r := Assign(ids, projectId, organization);
    forall a: UserProject | a.userId in ids && a == UserProject(a.userId, projectId, organization)
      ensures a in r
    {
      var i :| 0 <= i < |ids| && ids[i] == a.userId;
      assert r[i] == a;
    }
  }

  /** Replacing a project's assignments by `added` leaves `added` as the project's part of the
      table. */
  lemma ProjectPart(assignments: seq<UserProject>, added: seq<UserProject>, id: int)
    requires forall i :: 0 <= i < |added| ==> added[i].projectId == id
    ensures Filter(Unassign(assignments, id) + added, (a: UserProject) => a.projectId == id) == added
  {
    var mine := (a: UserProject) => a.projectId == id;
    FilterAppend(Unassign(assignments, id), added, mine);
    FilterNone(Unassign(assignments, id), mine);
    FilterAll(added, mine);
  }

  /** Filtering with a predicate no element satisfies leaves nothing. */
  lemma {:induction false} FilterNone<T>(s: seq<T>, p: T -> bool)
    requires forall i :: 0 <= i < |s| ==> !p(s[i])
    ensures Filter(s, p) == []
  {
    if |s| > 0 {
      FilterNone(s[1..], p);
    }
  }

  /** Filtering with a predicate every element satisfies keeps everything. */
  lemma {:induction false} FilterAll<T>(s: seq<T>, p: T -> bool)
    requires forall i :: 0 <= i < |s| ==> p(s[i])
    ensures Filter(s, p) == s
  {
    if |s| > 0 {
      FilterAll(s[1..], p);
      assert s == [s[0]] + s[1..];
    }
  }

  // ---------------------------------------------------------------------------
  // Queries and edits

  /** The user is assigned to the project. */
  predicate Assigned(assignments: seq<UserProject>, userId: string, projectId: int) {
    exists k :: 0 <= k < |assignments| && assignments[k].userId == userId && assignments[k].projectId == projectId
  }

  /** `GetProjectsByUser`: the enabled projects of the caller's organisation the caller is
      assigned to. A missing claim or unknown caller is `Unauthorized`, a caller without an
      organisation `BadRequest`. */
  function GetProjectsByUser(users: seq<User>, projects: seq<Project>, assignments: seq<UserProject>,
                             userClaim: Option<string>): (r: Response<seq<Project>>)
    ensures r == Err(Unauthorized) <==> userClaim.None? || FindUser(users, userClaim.value).None?
    ensures r == Err(BadRequest) <==>
      userClaim.Some? && FindUser(users, userClaim.value).Some? && FindUser(users, userClaim.value).value.organizationId.None?
    ensures r.Ok? ==>
      var org := FindUser(users, userClaim.value).value.organizationId.value;
      forall p :: p in r.value <==>
        p in projects && p.enabled && p.organizationId == org && Assigned(assignments, userClaim.value, p.id)
  {
    if userClaim.None? then Err(Unauthorized)
    else match FindUser(users, userClaim.value)
      case None => Err(Unauthorized)
      case Some(u) =>
        if u.organizationId.None? then Err(BadRequest)
        else
          var org := u.organizationId.value;
          Ok(Filter(projects, (p: Project) => p.enabled && p.organizationId == org && Assigned(assignments, userClaim.value, p.id)))
  }

  /** The user ids of the project's assignments, in table order. */
  function AssignedIds(assignments: seq<UserProject>, projectId: int): (r: seq<string>)
    ensures forall x :: x in r <==> Assigned(assignments, x, projectId)
  {
    if |assignments| == 0 then []
    else
      var p := assignments[..|assignments| - 1];
      var last := assignments[|assignments| - 1];
      assert forall k :: 0 <= k < |p| ==> p[k] == assignments[k];
      assert forall x :: Assigned(assignments, x, projectId) <==>
        Assigned(p, x, projectId) || (last.userId == x && last.projectId == projectId);
      AssignedIds(p, projectId) + (if last.projectId == projectId then [last.userId] else [])
  }

  /** `GetAssignedUsers`: an unknown project is `NotFound`; otherwise the users assigned to it,
      an empty list when there are none. */
  function GetAssignedUsers(projects: seq<Project>, assignments: seq<UserProject>, id: int): (r: Response<seq<string>>)
    ensures r.Err? <==> FindProject(projects, id).None?
    ensures r.Err? ==> r.status == NotFound
    ensures r.Ok? ==> forall x :: x in r.value <==> Assigned(assignments, x, id)
    ensures r.Ok? ==> (|r.value| == 0 <==> forall k :: 0 <= k < |assignments| ==> assignments[k].projectId != id)
  {
    if FindProject(projects, id).None? then Err(NotFound)
    else
      var ids := AssignedIds(assignments, id);
      assert |ids| > 0 ==> ids[0] in ids;
      assert forall k :: 0 <= k < |assignments| && assignments[k].projectId == id ==> assignments[k].userId in ids;
      Ok(ids)
  }

  /** After the assignments are replaced, the project lists exactly the requested users. */
  lemma AssignedAfterUpdate(projects: seq<Project>, users: seq<User>, assignments: seq<UserProject>, id: int, userIds: seq<string>)
    requires UniqueUserIds(users)
    requires UpdateProjectUsersFixed(projects, users, assignments, id, userIds).response.Ok?
    ensures var s := UpdateProjectUsersFixed(projects, users, assignments, id, userIds).state;
      var r := GetAssignedUsers(projects, s, id);
      r.Ok? && forall x :: x in r.value <==> x in userIds
  {
    var s := UpdateProjectUsersFixed(projects, users, assignments, id, userIds).state;
    UpdateReplacesAssignments(projects, users, assignments, id, userIds);
    var org := projects[FindProject(projects, id).value].organizationId;
    forall x
      ensures Assigned(s, x, id) <==> x in userIds
    {
      if x in userIds {
        assert UserProject(x, id, org) in s;
        var k :| 0 <= k < |s| && s[k] == UserProject(x, id, org);
      }
      if Assigned(s, x, id) {
        var k :| 0 <= k < |s| && s[k].userId == x && s[k].projectId == id;
        assert s[k] in s;
      }
    }
  }

  /** `UpdateProject`: an unknown id is `NotFound`; otherwise the name, description and enabled
      flag are overwritten and nothing else changes. */
  function UpdateProject(projects: seq<Project>, id: int, name: string, description: string, enabled: bool): (r: Step<seq<Project>, ()>)
    ensures r.response.Err? <==> FindProject(projects, id).None?
    ensures r.response.Err? ==> r == Step(projects, Err(NotFound))
    ensures r.response.Ok? ==>
      var k := FindProject(projects, id).value;
      && |r.state| == |projects|
      && r.state[k] == projects[k].(name := name, description := description, enabled := enabled)
      && forall j :: 0 <= j < |projects| && j != k ==> r.state[j] == projects[j]
  {
    match FindProject(projects, id)
    case None => Step(projects, Err(NotFound))
    case Some(k) => Step(projects[k := projects[k].(name := name, description := description, enabled := enabled)], Ok(()))
  }

  /** Updating a project twice with the same values is the same as updating it once. */
  lemma UpdateProjectIdempotent(projects: seq<Project>, id: int, name: string, description: string, enabled: bool)
    ensures var once := UpdateProject(projects, id, name, description, enabled);
      UpdateProject(once.state, id, name, description, enabled) == once
  {
    var once := UpdateProject(projects, id, name, description, enabled);
    if once.response.Ok? {
      var k := FindProject(projects, id).value;
      assert FindProject(once.state, id) == Some(k) by {
        assert forall j :: 0 <= j < k ==> once.state[j] == projects[j];
      }
      assert once.state[k := once.state[k]] == once.state;
    }
  }

  /** Project ids are the primary key of the projects table. */
  predicate UniqueProjectIds(projects: seq<Project>) {
    forall i, j :: 0 <= i < j < |projects| ==> projects[i].id != projects[j].id
  }

  /** Disabling a project takes it off every user's project list. */
  lemma DisabledProjectNotListed(users: seq<User>, projects: seq<Project>, assignments: seq<UserProject>,
                                 id: int, name: string, description: string, userClaim: Option<string>)
    requires UniqueProjectIds(projects)
    requires UpdateProject(projects, id, name, description, false).response.Ok?
    ensures var t := UpdateProject(projects, id, name, description, false).state;
      var r := GetProjectsByUser(users, t, assignments, userClaim);
      r.Ok? ==> forall p :: p in r.value ==> p.id != id
  {
    var t := UpdateProject(projects, id, name, description, false).state;
  }
}
