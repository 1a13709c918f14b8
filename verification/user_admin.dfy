/** `UserController`'s account management: locking and unlocking sign-in, promoting to and
    demoting from Manager, the two profile edits, and removing a project assignment. Every
    operation that targets another user reads the caller's organisation from the token's
    `OrganizationId` claim and acts only on members of that organisation. Identity's
    `UpdateAsync`, `AddToRoleAsync` and `RemoveFromRoleAsync` are modelled as succeeding, and
    each saves the user with both lookup keys derived afresh (`Refresh`). */
module UserAdmin {
  import opened Common
  import opened Text
  import opened Entities
  import opened Accounts
  import opened Invitations

  /** `DateTimeOffset.UtcNow.AddYears(100)`, taken as 36524 days (the span from 2025 on). */
  const LockoutSpan: int := 36524 * 86400

  /** The `OrganizationId` claim: missing or empty is `Unauthorized`, not an integer is
      `BadRequest`. */
  function OrganizationOf(claim: Option<string>): (r: Response<int>)
    ensures r == Err(Unauthorized) <==> claim.None? || claim.value == ""
    ensures r == Err(BadRequest) <==> claim.Some? && claim.value != "" && ParseInt32(claim.value).None?
    ensures r.Ok? ==> r.value == ParseInt32(claim.value).value
  {
    if claim.None? || claim.value == "" then Err(Unauthorized)
    else match ParseInt32(claim.value)
      case None => Err(BadRequest)
      case Some(org) => Ok(org)
  }

  /** The index of the first user with the given id in the given organisation. */
  function FindMember(users: seq<User>, id: string, organization: int): (r: Option<nat>)
    ensures r.Some? ==> r.value < |users| && users[r.value].id == id && users[r.value].organizationId == Some(organization)
    ensures r.None? ==> forall k :: 0 <= k < |users| ==> !(users[k].id == id && users[k].organizationId == Some(organization))
  {
    FirstIndex(users, (u: User) => u.id == id && u.organizationId == Some(organization))
  }

  /** The user a request targets: the claim checks, then `NotFound` for a user outside the
      caller's organisation. */
  function Target(users: seq<User>, claim: Option<string>, userId: string): (r: Response<nat>)
    ensures r.Err? <==> OrganizationOf(claim).Err? || FindMember(users, userId, OrganizationOf(claim).value).None?
    ensures OrganizationOf(claim).Err? ==> r == Err(OrganizationOf(claim).status)
    ensures OrganizationOf(claim).Ok? && FindMember(users, userId, OrganizationOf(claim).value).None? ==> r == Err(NotFound)
    ensures r.Ok? ==>
      && r.value < |users| && users[r.value].id == userId
      && users[r.value].organizationId == Some(OrganizationOf(claim).value)
  {
    match OrganizationOf(claim)
    case Err(status) => Err(status)
    case Ok(org) =>
      match FindMember(users, userId, org)
      case None => Err(NotFound)
      case Some(k) => Ok(k)
  }

  /** Replaces the user at `k`. */
  function Put(users: seq<User>, k: nat, u: User): (r: seq<User>)
    requires k < |users|
    ensures |r| == |users| && r[k] == u
    ensures forall j :: 0 <= j < |users| && j != k ==> r[j] == users[j]
  {
    users[k := u]
  }

  // ---------------------------------------------------------------------------
  // Sign-in lockout

  /** The lockout the sign-in switch leaves on a user: an account whose lockout end is absent
      or passes the guard `expired` is locked for the next hundred years; an account still
      locked is left alone. */
  function Lock(u: User, expired: bool, now: int): (r: User)
    ensures r.(lockoutEnabled := u.lockoutEnabled, lockoutEnd := u.lockoutEnd) == u
    ensures expired ==> forall t :: LockedOut(r, t) <==> t < now + LockoutSpan
    ensures expired ==> forall t :: r.LoginEnabled(t) <==> t >= now + LockoutSpan
    ensures !expired ==> r == u
  {
    if expired then u.(lockoutEnabled := true, lockoutEnd := Some(now + LockoutSpan)) else u
  }

  /** `DisableSignInForUser` as written: the guard is `LockoutEnd < now`, so a lockout ending
      exactly now is treated as still running and left in place. `UpdateAsync` then saves the
      user in either case, refreshing its lookup keys. */
  function DisableSignIn(users: seq<User>, claim: Option<string>, userId: string, now: int): (r: Step<seq<User>, ()>)
    ensures r.response.Err? <==> Target(users, claim, userId).Err?
    ensures r.response.Err? ==> r == Step(users, Err(Target(users, claim, userId).status))
    ensures r.response.Ok? ==>
      var k := Target(users, claim, userId).value;
      var u := users[k];
      r.state == Put(users, k, Refresh(Lock(u, u.lockoutEnd.None? || u.lockoutEnd.value < now, now)))
  {
    match Target(users, claim, userId)
    case Err(status) => Step(users, Err(status))
    case Ok(k) =>
      var u := users[k];
      Step(Put(users, k, Refresh(Lock(u, u.lockoutEnd.None? || u.lockoutEnd.value < now, now))), Ok(()))
  }

  /** `DisableSignInForUser` with the guard `LockoutEnd <= now`: every lockout that is over,
      including one ending now, is renewed. */
  function DisableSignInFixed(users: seq<User>, claim: Option<string>, userId: string, now: int): (r: Step<seq<User>, ()>)
    ensures r.response.Err? <==> Target(users, claim, userId).Err?
    ensures r.response.Err? ==> r == Step(users, Err(Target(users, claim, userId).status))
    ensures r.response.Ok? ==>
      var k := Target(users, claim, userId).value;
      && r.state == Put(users, k, Refresh(Lock(users[k], !LockedOut(users[k], now), now)))
      && LockedOut(r.state[k], now)
      && r.state[k].lockoutEnd.value >= users[k].lockoutEnd.GetOr(now + LockoutSpan)
  {
    match Target(users, claim, userId)
    case Err(status) => Step(users, Err(status))
    case Ok(k) => Step(Put(users, k, Refresh(Lock(users[k], !LockedOut(users[k], now), now))), Ok(()))
  }

  /** `EnableSignInForUser`: lockout is switched off and its end cleared, and `UpdateAsync`
      saves the user with refreshed lookup keys. */
  function EnableSignIn(users: seq<User>, claim: Option<string>, userId: string): (r: Step<seq<User>, ()>)
    ensures r.response.Err? <==> Target(users, claim, userId).Err?
    ensures r.response.Err? ==> r == Step(users, Err(Target(users, claim, userId).status))
    ensures r.response.Ok? ==>
      var k := Target(users, claim, userId).value;
      r.state == Put(users, k, Refresh(users[k].(lockoutEnabled := false, lockoutEnd := None)))
  {
    match Target(users, claim, userId)
    case Err(status) => Step(users, Err(status))
    case Ok(k) => Step(Put(users, k, Refresh(users[k].(lockoutEnabled := false, lockoutEnd := None))), Ok(()))
  }

  /** Normalised user names are unique, as Identity's user validator enforces. */
  predicate UniqueUserNames(users: seq<User>) {
    forall i, j :: 0 <= i < j < |users| ==> users[i].normalizedUserName != users[j].normalizedUserName
  }

  /** Every user-name key is derived from its user name. Accounts are created that way and user
      names are never edited, so every reachable table satisfies this (`NameKeysStayCurrent`). */
  predicate NameKeysCurrent(users: seq<User>) {
    forall k :: 0 <= k < |users| ==> users[k].normalizedUserName == Normalize(users[k].userName)
  }

  /** In a table with unique user names, login finds the user at `k` by any spelling of its
      name that normalises to its key. */
  lemma FindByNameAt(users: seq<User>, k: nat, name: string)
    requires UniqueUserNames(users) && k < |users| && Normalize(name) == users[k].normalizedUserName
    ensures FindByName(users, name) == Some(k)
  {
  }

  /** Disabling sign-in with the corrected guard shuts the user out at once and for as long as
      the resulting lockout lasts, whatever the password. */
  lemma DisabledUserCannotLogIn(users: seq<User>, claim: Option<string>, userId: string, now: int,
                                name: string, password: string, passwordMatches: (string, string) -> bool, later: int)
    requires UniqueUserNames(users) && NameKeysCurrent(users)
    requires DisableSignInFixed(users, claim, userId, now).response.Ok?
    requires Normalize(name) == users[Target(users, claim, userId).value].normalizedUserName
    ensures var t := DisableSignInFixed(users, claim, userId, now).state;
      var k := Target(users, claim, userId).value;
      now <= later < t[k].lockoutEnd.value ==>
        Login(t, name, password, passwordMatches, later) == Err(Unauthorized)
  {
    var t := DisableSignInFixed(users, claim, userId, now).state;
    var k := Target(users, claim, userId).value;
    assert UniqueUserNames(t) by {
      forall i, j | 0 <= i < j < |t|
        ensures t[i].normalizedUserName != t[j].normalizedUserName
      {
        assert t[i].normalizedUserName == users[i].normalizedUserName;
        assert t[j].normalizedUserName == users[j].normalizedUserName;
      }
    }
    FindByNameAt(t, k, name);
  }

  /** The guard as written locks the user out at once in every case but one: a lockout ending
      exactly now. A lockout already running is never shortened: such a user is saved with
      nothing changed but its refreshed lookup keys. */
  lemma DisableSignInLocksUnlessEndingNow(users: seq<User>, claim: Option<string>, userId: string, now: int)
    requires DisableSignIn(users, claim, userId, now).response.Ok?
    ensures var t := DisableSignIn(users, claim, userId, now).state;
      var k := Target(users, claim, userId).value;
      && (LockedOut(t[k], now) <==> users[k].lockoutEnd != Some(now))
      && (LockedOut(users[k], now) ==> t[k] == Refresh(users[k]))
  {
  }

  /** The defect of the guard as written: a user whose lockout ends exactly now is answered
      `Ok` but stays unlocked, and logs in at that very instant; only the lookup keys are
      saved afresh. */
  lemma DisableAtLockoutEndLeavesLoginOpen(users: seq<User>, claim: Option<string>, userId: string, now: int,
                                           name: string, password: string, passwordMatches: (string, string) -> bool)
    requires UniqueUserNames(users) && NameKeysCurrent(users)
    requires Target(users, claim, userId).Ok?
    requires users[Target(users, claim, userId).value].lockoutEnd == Some(now)
    requires Normalize(name) == users[Target(users, claim, userId).value].normalizedUserName
    requires passwordMatches(userId, password)
    ensures var r := DisableSignIn(users, claim, userId, now);
      var k := Target(users, claim, userId).value;
      && r == Step(Put(users, k, Refresh(users[k])), Ok(()))
      && Login(r.state, name, password, passwordMatches, now) == Ok(Refresh(users[k]))
  {
    var k := Target(users, claim, userId).value;
    var t := DisableSignIn(users, claim, userId, now).state;
    assert UniqueUserNames(t) by {
      forall i, j | 0 <= i < j < |t|
        ensures t[i].normalizedUserName != t[j].normalizedUserName
      {
        assert t[i].normalizedUserName == users[i].normalizedUserName;
        assert t[j].normalizedUserName == users[j].normalizedUserName;
      }
    }
    FindByNameAt(t, k, name);
  }

  /** After sign-in is enabled the lockout check passes at every instant: login then depends on
      the password alone, and the account reports `LoginEnabled`. */
  lemma EnabledUserCanLogIn(users: seq<User>, claim: Option<string>, userId: string,
                            name: string, password: string, passwordMatches: (string, string) -> bool, later: int)
    requires UniqueUserNames(users) && NameKeysCurrent(users)
    requires EnableSignIn(users, claim, userId).response.Ok?
    requires Normalize(name) == users[Target(users, claim, userId).value].normalizedUserName
    ensures var t := EnableSignIn(users, claim, userId).state;
      var k := Target(users, claim, userId).value;
      && t[k].LoginEnabled(later)
      && (Login(t, name, password, passwordMatches, later).Ok? <==> passwordMatches(userId, password))
  {
    var t := EnableSignIn(users, claim, userId).state;
    var k := Target(users, claim, userId).value;
    assert UniqueUserNames(t) by {
      forall i, j | 0 <= i < j < |t|
        ensures t[i].normalizedUserName != t[j].normalizedUserName
      {
        assert t[i].normalizedUserName == users[i].normalizedUserName;
        assert t[j].normalizedUserName == users[j].normalizedUserName;
      }
    }
    FindByNameAt(t, k, name);
  }

  // ---------------------------------------------------------------------------
  // Manager role

  /** `AddManagerRole`: an existing Manager is `BadRequest`; an Employee swaps that role for
      Manager through `UserManager`, which refreshes the lookup keys; in every successful case
      the user now manages the organisation. */
  function AddManagerRole(users: seq<User>, claim: Option<string>, userId: string): (r: Step<seq<User>, ()>)
    ensures r.response.Err? ==> r.state == users
    ensures r.response.Err? <==> Target(users, claim, userId).Err? || Manager in users[Target(users, claim, userId).value].roles
    ensures Target(users, claim, userId).Ok? && Manager in users[Target(users, claim, userId).value].roles ==>
      r.response == Err(BadRequest)
    ensures r.response.Ok? ==>
      var k := Target(users, claim, userId).value;
      var u := users[k];
      && |r.state| == |users| && r.state == Put(users, k, r.state[k])
      && r.state[k] == (if Employee in u.roles then Refresh(u) else u).(roles := r.state[k].roles, managesOrganization := true)
      && (Employee in u.roles ==> r.state[k].roles == u.roles - {Employee} + {Manager})
      && (Employee !in u.roles ==> r.state[k].roles == u.roles)
  {
    match Target(users, claim, userId)
    case Err(status) => Step(users, Err(status))
    case Ok(k) =>
      var u := users[k];
      if Manager in u.roles then Step(users, Err(BadRequest))
      else
        var v := if Employee in u.roles then Refresh(u).(roles := u.roles - {Employee} + {Manager}) else u;
        Step(Put(users, k, v.(managesOrganization := true)), Ok(()))
  }

  /** `RemoveManagerRole`: a Manager swaps that role for Employee through `UserManager`, which
      refreshes the lookup keys; every target, Manager or not, ends up not managing the
      organisation, and the call succeeds. */
  function RemoveManagerRole(users: seq<User>, claim: Option<string>, userId: string): (r: Step<seq<User>, ()>)
    ensures r.response.Err? <==> Target(users, claim, userId).Err?
    ensures r.response.Err? ==> r.state == users
    ensures r.response.Ok? ==>
      var k := Target(users, claim, userId).value;
      var u := users[k];
      && |r.state| == |users| && r.state == Put(users, k, r.state[k])
      && r.state[k] == (if Manager in u.roles then Refresh(u) else u).(roles := r.state[k].roles, managesOrganization := false)
      && Manager !in r.state[k].roles
      && (Manager in u.roles ==> r.state[k].roles == u.roles - {Manager} + {Employee})
      && (Manager !in u.roles ==> r.state[k].roles == u.roles)
  {
    match Target(users, claim, userId)
    case Err(status) => Step(users, Err(status))
    case Ok(k) =>
      var u := users[k];
      var v := if Manager in u.roles then Refresh(u).(roles := u.roles - {Manager} + {Employee}) else u;
      Step(Put(users, k, v.(managesOrganization := false)), Ok(()))
  }

  /** Promoting an Employee and demoting them again restores their roles; the
      organisation-management flag is left cleared and the lookup keys refreshed, so a user
      whose keys were current differs only in that flag. */
  lemma PromoteThenDemote(users: seq<User>, claim: Option<string>, userId: string)
    requires Target(users, claim, userId).Ok?
    requires var u := users[Target(users, claim, userId).value]; Employee in u.roles && Manager !in u.roles
    ensures var t := AddManagerRole(users, claim, userId).state;
      var k := Target(users, claim, userId).value;
      && Manager in t[k].roles && Employee !in t[k].roles
      && RemoveManagerRole(t, claim, userId).state == Put(users, k, Refresh(users[k]).(managesOrganization := false))
      && (KeysCurrent(users[k]) ==>
            RemoveManagerRole(t, claim, userId).state == Put(users, k, users[k].(managesOrganization := false)))
  {
    var k := Target(users, claim, userId).value;
    var t := AddManagerRole(users, claim, userId).state;
    assert FindMember(t, userId, OrganizationOf(claim).value) == Some(k) by {
      assert forall j :: 0 <= j < k ==> t[j] == users[j];
    }
    var u := users[k];
    assert u.roles - {Employee} + {Manager} - {Manager} + {Employee} == u.roles;
  }

  /** A target holding neither Manager nor Employee (an Admin-only account, say) is answered
      `Ok` and flagged as managing the organisation, yet does not receive the Manager role. */
  lemma PromotionWithoutEmployeeRole(users: seq<User>, claim: Option<string>, userId: string)
    requires Target(users, claim, userId).Ok?
    requires var u := users[Target(users, claim, userId).value]; Employee !in u.roles && Manager !in u.roles
    ensures var r := AddManagerRole(users, claim, userId);
      var k := Target(users, claim, userId).value;
      r.response.Ok? && r.state[k].managesOrganization && Manager !in r.state[k].roles
  {
  }

  // ---------------------------------------------------------------------------
  // Profile edits

  /** `EditUserByManager`: overwrites first name, last name, e-mail, job title and pay rate of
      a member of the caller's organisation, and nothing else. */
  function EditUserByManager(users: seq<User>, claim: Option<string>, userId: string,
                             firstName: Option<string>, lastName: Option<string>, email: Option<string>,
                             jobTitle: Option<string>, payRate: Option<real>): (r: Step<seq<User>, ()>)
    ensures r.response.Err? <==> Target(users, claim, userId).Err?
    ensures r.response.Err? ==> r == Step(users, Err(Target(users, claim, userId).status))
    ensures r.response.Ok? ==>
      var k := Target(users, claim, userId).value;
      && |r.state| == |users| && r.state == Put(users, k, r.state[k])
      && r.state[k] == users[k].(firstName := firstName, lastName := lastName, email := email,
                                 jobTitle := jobTitle, payRate := payRate)
  {
    match Target(users, claim, userId)
    case Err(status) => Step(users, Err(status))
    case Ok(k) =>
      Step(Put(users, k, users[k].(firstName := firstName, lastName := lastName, email := email,
                                   jobTitle := jobTitle, payRate := payRate)), Ok(()))
  }

  /** A manager's edit leaves Identity's lookup keys and the lockout alone: every user name
      finds the same account as before and the sign-in state is unchanged. Until the next
      `UserManager` update of that user refreshes its keys, an address the edit assigns does
      not count as taken when inviting, and the replaced address still does. */
  lemma EditKeepsLookupKeys(users: seq<User>, claim: Option<string>, userId: string,
                            firstName: Option<string>, lastName: Option<string>, email: Option<string>,
                            jobTitle: Option<string>, payRate: Option<real>)
    requires EditUserByManager(users, claim, userId, firstName, lastName, email, jobTitle, payRate).response.Ok?
    ensures var t := EditUserByManager(users, claim, userId, firstName, lastName, email, jobTitle, payRate).state;
      && (forall name :: FindByName(t, name) == FindByName(users, name))
      && (forall address :: EmailTaken(t, address) <==> EmailTaken(users, address))
      && (forall j, now :: 0 <= j < |t| ==> (t[j].LoginEnabled(now) <==> users[j].LoginEnabled(now)))
  {
    var t := EditUserByManager(users, claim, userId, firstName, lastName, email, jobTitle, payRate).state;
    assert forall j :: 0 <= j < |t| ==> t[j].normalizedUserName == users[j].normalizedUserName;
    forall address
      ensures EmailTaken(t, address) <==> EmailTaken(users, address)
    {
      if EmailTaken(users, address) {
        var j :| 0 <= j < |users| && users[j].normalizedEmail == Some(Normalize(address));
        assert t[j].normalizedEmail == users[j].normalizedEmail;
      }
    }
  }

  /** The next `UserManager` update publishes an edited address: once the edited user's
      sign-in is switched off, the new address counts as taken when inviting, and if another
      account already held it, the two now share the key and the invitation lookup throws. */
  lemma SignInSwitchPublishesEditedAddress(users: seq<User>, claim: Option<string>, userId: string,
                                           firstName: Option<string>, lastName: Option<string>, address: string,
                                           jobTitle: Option<string>, payRate: Option<real>, now: int)
    requires EditUserByManager(users, claim, userId, firstName, lastName, Some(address), jobTitle, payRate).response.Ok?
    ensures var t := EditUserByManager(users, claim, userId, firstName, lastName, Some(address), jobTitle, payRate).state;
      var r := DisableSignIn(t, claim, userId, now);
      && r.response.Ok?
      && EmailTaken(r.state, address)
      && ((exists j :: 0 <= j < |users| && j != Target(users, claim, userId).value
                       && users[j].normalizedEmail == Some(Normalize(address))) ==> EmailShared(r.state, address))
  {
    var k := Target(users, claim, userId).value;
    var t := EditUserByManager(users, claim, userId, firstName, lastName, Some(address), jobTitle, payRate).state;
    assert FindMember(t, userId, OrganizationOf(claim).value) == Some(k) by {
      assert forall j :: 0 <= j < k ==> t[j] == users[j];
    }
    var r := DisableSignIn(t, claim, userId, now);
    assert r.state[k].normalizedEmail == Some(Normalize(address));
    if j :| 0 <= j < |users| && j != k && users[j].normalizedEmail == Some(Normalize(address)) {
      assert r.state[j] == users[j];
      if j < k {
        assert r.state[j].normalizedEmail == Some(Normalize(address)) && r.state[k].normalizedEmail == Some(Normalize(address));
      } else {
        assert r.state[k].normalizedEmail == Some(Normalize(address)) && r.state[j].normalizedEmail == Some(Normalize(address));
      }
    }
  }

  /** Every operation here keeps the user-name keys derived from the user names: the name is
      never edited, and `Refresh` derives the key from it. */
  lemma NameKeysStayCurrent(users: seq<User>, claim: Option<string>, userId: string, now: int,
                            firstName: Option<string>, lastName: Option<string>, email: Option<string>,
                            jobTitle: Option<string>, payRate: Option<real>)
    requires NameKeysCurrent(users)
    ensures NameKeysCurrent(DisableSignIn(users, claim, userId, now).state)
    ensures NameKeysCurrent(DisableSignInFixed(users, claim, userId, now).state)
    ensures NameKeysCurrent(EnableSignIn(users, claim, userId).state)
    ensures NameKeysCurrent(AddManagerRole(users, claim, userId).state)
    ensures NameKeysCurrent(RemoveManagerRole(users, claim, userId).state)
    ensures NameKeysCurrent(EditUserByManager(users, claim, userId, firstName, lastName, email, jobTitle, payRate).state)
    ensures NameKeysCurrent(EditMyProfile(users, userId, userId, firstName, lastName, email).state)
  {
    SignInSwitchesKeepNameKeys(users, claim, userId, now);
    RoleChangesKeepNameKeys(users, claim, userId);
    EditsKeepNameKeys(users, claim, userId, firstName, lastName, email, jobTitle, payRate);
  }

  /** Replacing one user by one whose user-name key is current keeps every key current. */
  lemma PutKeepsNameKeys(users: seq<User>, k: nat, u: User)
    requires NameKeysCurrent(users) && k < |users| && u.normalizedUserName == Normalize(u.userName)
    ensures NameKeysCurrent(Put(users, k, u))
  {
  }

  lemma SignInSwitchesKeepNameKeys(users: seq<User>, claim: Option<string>, userId: string, now: int)
    requires NameKeysCurrent(users)
    ensures NameKeysCurrent(DisableSignIn(users, claim, userId, now).state)
    ensures NameKeysCurrent(DisableSignInFixed(users, claim, userId, now).state)
    ensures NameKeysCurrent(EnableSignIn(users, claim, userId).state)
  {
  }

  lemma RoleChangesKeepNameKeys(users: seq<User>, claim: Option<string>, userId: string)
    requires NameKeysCurrent(users)
    ensures NameKeysCurrent(AddManagerRole(users, claim, userId).state)
    ensures NameKeysCurrent(RemoveManagerRole(users, claim, userId).state)
  {
  }

  lemma EditsKeepNameKeys(users: seq<User>, claim: Option<string>, userId: string,
                          firstName: Option<string>, lastName: Option<string>, email: Option<string>,
                          jobTitle: Option<string>, payRate: Option<real>)
    requires NameKeysCurrent(users)
    ensures NameKeysCurrent(EditUserByManager(users, claim, userId, firstName, lastName, email, jobTitle, payRate).state)
    ensures NameKeysCurrent(EditMyProfile(users, userId, userId, firstName, lastName, email).state)
  {
  }

  /** Both ways of creating an account keep the user-name keys derived from the user names. */
  lemma RegistrationKeepsNameKeys(users: seq<User>, d: Directory, token: string, id: string, email: string,
                                  firstName: string, lastName: string, accepted: bool, now: int)
    requires NameKeysCurrent(users) && NameKeysCurrent(d.users)
    ensures NameKeysCurrent(Register(users, id, email, firstName, lastName, accepted).state)
    ensures NameKeysCurrent(RegisterInvitedUser(d, token, id, firstName, lastName, accepted, now).state.users)
  {
  }

  /** The index of the user with the given id (`Users.FindAsync(id)`). */
  function FindById(users: seq<User>, id: string): (r: Option<nat>)
    ensures r.Some? ==> r.value < |users| && users[r.value].id == id
    ensures r.None? ==> forall k :: 0 <= k < |users| ==> users[k].id != id
  {
    FirstIndex(users, (u: User) => u.id == id)
  }

  /** `EditMyProfile` as written: the user is looked up by the route id and then compared
      with that same id, so the check never fires and the caller is never consulted. The
      caller's id is a parameter only to show that it plays no part. */
  function EditMyProfile(users: seq<User>, callerId: string, id: string,
                         firstName: Option<string>, lastName: Option<string>, email: Option<string>): (r: Step<seq<User>, ()>)
    ensures r.response.Err? <==> FindById(users, id).None?
    ensures r.response.Err? ==> r == Step(users, Err(NotFound))
    ensures r.response.Ok? ==>
      var k := FindById(users, id).value;
      && |r.state| == |users| && r.state == Put(users, k, r.state[k])
      && r.state[k] == users[k].(firstName := firstName, lastName := lastName, email := email)
  {
    match FindById(users, id)
    case None => Step(users, Err(NotFound))
    case Some(k) =>
      if users[k].id != id then Step(users, Err(Unauthorized))
      else Step(Put(users, k, users[k].(firstName := firstName, lastName := lastName, email := email)), Ok(()))
  }

  /** `EditMyProfile` as its message describes it: a caller other than the profile's owner is
      `Unauthorized`. */
  function EditOwnProfile(users: seq<User>, callerId: string, id: string,
                          firstName: Option<string>, lastName: Option<string>, email: Option<string>): (r: Step<seq<User>, ()>)
    ensures r.response.Err? ==> r.state == users
    ensures r.response == Err(NotFound) <==> FindById(users, id).None?
    ensures r.response == Err(Unauthorized) <==> FindById(users, id).Some? && callerId != id
    ensures r.response.Ok? ==>
      var k := FindById(users, id).value;
      && callerId == id
      && |r.state| == |users| && r.state == Put(users, k, r.state[k])
      && r.state[k] == users[k].(firstName := firstName, lastName := lastName, email := email)
  {
    match FindById(users, id)
    case None => Step(users, Err(NotFound))
    case Some(k) =>
      if callerId != id then Step(users, Err(Unauthorized))
      else Step(Put(users, k, users[k].(firstName := firstName, lastName := lastName, email := email)), Ok(()))
  }

  /** The defect as written: any signed-in caller rewrites any existing user's name and e-mail. */
  lemma AnyCallerEditsAnyProfile(users: seq<User>, callerId: string, id: string,
                                 firstName: Option<string>, lastName: Option<string>, email: Option<string>)
    requires FindById(users, id).Some? && callerId != id
    ensures var r := EditMyProfile(users, callerId, id, firstName, lastName, email);
      var k := FindById(users, id).value;
      && r.response.Ok?
      && r.state[k].firstName == firstName && r.state[k].lastName == lastName && r.state[k].email == email
    ensures EditOwnProfile(users, callerId, id, firstName, lastName, email) == Step(users, Err(Unauthorized))
  {
  }

  /** The corrected edit changes nobody's profile but the caller's own, and never touches pay
      rate, job title, roles or lockout. */
  lemma OwnProfileOnly(users: seq<User>, callerId: string, id: string,
                       firstName: Option<string>, lastName: Option<string>, email: Option<string>)
    ensures var t := EditOwnProfile(users, callerId, id, firstName, lastName, email).state;
      && |t| == |users|
      && forall j :: 0 <= j < |users| ==>
        && t[j].payRate == users[j].payRate && t[j].jobTitle == users[j].jobTitle
        && t[j].roles == users[j].roles && t[j].lockoutEnd == users[j].lockoutEnd
        && (users[j].id != callerId ==> t[j] == users[j])
  {
  }

  // ---------------------------------------------------------------------------
  // Project assignments

  /** The first project with the given id in the given organisation. */
  function FindProjectIn(projects: seq<Project>, id: int, organization: int): (r: Option<nat>)
    ensures r.Some? ==> r.value < |projects| && projects[r.value].id == id && projects[r.value].organizationId == organization
    ensures r.None? ==> forall k :: 0 <= k < |projects| ==> !(projects[k].id == id && projects[k].organizationId == organization)
  {
    FirstIndex(projects, (p: Project) => p.id == id && p.organizationId == organization)
  }

  /** The first assignment of the user to the project. */
  function FindAssignment(assignments: seq<UserProject>, userId: string, projectId: int): (r: Option<nat>)
    ensures r.Some? ==> r.value < |assignments| && assignments[r.value].userId == userId && assignments[r.value].projectId == projectId
    ensures r.None? ==> forall k :: 0 <= k < |assignments| ==> !(assignments[k].userId == userId && assignments[k].projectId == projectId)
  {
    FirstIndex(assignments, (a: UserProject) => a.userId == userId && a.projectId == projectId)
  }

  /** `RemoveProjectFromUser`: the user and the project must belong to the caller's
      organisation and the user must be assigned to the project; that assignment is removed. */
  function RemoveProjectFromUser(users: seq<User>, projects: seq<Project>, assignments: seq<UserProject>,
                                 claim: Option<string>, userId: string, projectId: int): (r: Step<seq<UserProject>, ()>)
    ensures r.response.Err? ==> r.state == assignments
    ensures Target(users, claim, userId).Err? ==> r.response == Err(Target(users, claim, userId).status)
    ensures r.response.Ok? <==>
      && Target(users, claim, userId).Ok?
      && FindProjectIn(projects, projectId, OrganizationOf(claim).value).Some?
      && FindAssignment(assignments, userId, projectId).Some?
    ensures Target(users, claim, userId).Ok? && r.response.Err? ==> r.response.status == NotFound
    ensures r.response.Ok? ==> r.state == RemoveAt(assignments, FindAssignment(assignments, userId, projectId).value)
  {
    match Target(users, claim, userId)
    case Err(status) => Step(assignments, Err(status))
    case Ok(_) =>
      var org := OrganizationOf(claim).value;
      if FindProjectIn(projects, projectId, org).None? then Step(assignments, Err(NotFound))
      else match FindAssignment(assignments, userId, projectId)
        case None => Step(assignments, Err(NotFound))
        case Some(k) => Step(RemoveAt(assignments, k), Ok(()))
  }

  /** (user, project) is the key of an assignment. */
  predicate UniqueAssignments(s: seq<UserProject>) {
    forall i, j :: 0 <= i < j < |s| ==> !(s[i].userId == s[j].userId && s[i].projectId == s[j].projectId)
  }

  /** Removing a project from a user drops exactly that assignment: every other assignment
      stays, and the pair is no longer assigned. */
  lemma RemoveProjectExactly(users: seq<User>, projects: seq<Project>, assignments: seq<UserProject>,
                             claim: Option<string>, userId: string, projectId: int)
    requires UniqueAssignments(assignments)
    requires RemoveProjectFromUser(users, projects, assignments, claim, userId, projectId).response.Ok?
    ensures var s := RemoveProjectFromUser(users, projects, assignments, claim, userId, projectId).state;
      && (forall a :: a in s <==> a in assignments && !(a.userId == userId && a.projectId == projectId))
      && UniqueAssignments(s)
  {
    var s := RemoveProjectFromUser(users, projects, assignments, claim, userId, projectId).state;
    var k := FindAssignment(assignments, userId, projectId).value;
    forall a
      ensures a in s <==> a in assignments && !(a.userId == userId && a.projectId == projectId)
    {
      if a in s {
        var j :| 0 <= j < |s| && s[j] == a;
        if j < k {
          assert assignments[j] == a;
        } else {
          assert assignments[j + 1] == a;
        }
      }
      if a in assignments && !(a.userId == userId && a.projectId == projectId) {
        var j :| 0 <= j < |assignments| && assignments[j] == a;
        if j < k {
          assert s[j] == a;
        } else {
          assert s[j - 1] == a;
        }
      }
    }
  }
}
