/** `AuthController`: self-registration (which makes the new user a Manager), registration
    through an invitation token (an Employee of the inviting organisation), and the credential
    and lockout checks of login. Identity's `CreateAsync` is modelled by its observable
    outcome: it fails when the request or password is refused (a verdict the caller supplies)
    or when the user name is already taken, and it throws when the new id is already a key of
    the table. Password verification is a parameter. */
module Accounts {
  import opened Common
  import opened Entities
  import opened Invitations
  import opened Text

  /** The two tables registration touches. */
  datatype Directory = Directory(users: seq<User>, invitations: seq<Invitation>)

  /** The user name is already in use, compared after normalisation as Identity's user
      validator does. */
  predicate NameTaken(users: seq<User>, userName: string) {
    exists k :: 0 <= k < |users| && users[k].normalizedUserName == Normalize(userName)
  }

  /** The id is already the primary key of some user. */
  predicate IdTaken(users: seq<User>, id: string) {
    exists k :: 0 <= k < |users| && users[k].id == id
  }

  /** `UserManager.CreateAsync`: a refused request or a taken user name fails validation
      (`BadRequest` from the caller); a valid account whose id is already a key makes the
      store's save throw (`ServerError`); otherwise the account is appended. */
  function Create(users: seq<User>, u: User, accepted: bool): (r: Response<seq<User>>)
    ensures r == Err(BadRequest) <==> !accepted || NameTaken(users, u.userName)
    ensures r == Err(ServerError) <==> accepted && !NameTaken(users, u.userName) && IdTaken(users, u.id)
    ensures r.Err? ==> r.status in {BadRequest, ServerError}
    ensures r.Ok? ==> r.value == users + [u]
  {
    if !accepted || NameTaken(users, u.userName) then Err(BadRequest)
    else if IdTaken(users, u.id) then Err(ServerError)
    else Ok(users + [u])
  }

  /** A freshly created account: user name and e-mail are the same address, both lookup keys
      are its normalised form, and lockout is allowed (Identity's default for new users) but
      not in force. */
  function NewAccount(id: string, email: string, firstName: string, lastName: string,
                      organization: Option<int>, role: Role): (u: User)
    ensures u.id == id && u.userName == email && u.email == Some(email) && KeysCurrent(u)
    ensures u.firstName == Some(firstName) && u.lastName == Some(lastName)
    ensures u.organizationId == organization && u.roles == {role}
    ensures u.jobTitle.None? && u.payRate.None? && !u.managesOrganization
    ensures forall now :: !LockedOut(u, now)
  {
    User(id, email, Normalize(email), Some(email), Some(Normalize(email)), Some(firstName), Some(lastName),
         None, None, false, organization, true, None, {role})
  }

  /** `Register`: creates the account and gives it the Manager role; a failed creation leaves
      the users unchanged. */
  function Register(users: seq<User>, id: string, email: string, firstName: string, lastName: string,
                    accepted: bool): (r: Step<seq<User>, User>)
    ensures r.response.Err? ==> r.state == users
    ensures r.response == Err(BadRequest) <==> !accepted || NameTaken(users, email)
    ensures r.response == Err(ServerError) <==> accepted && !NameTaken(users, email) && IdTaken(users, id)
    ensures r.response.Ok? <==> accepted && !NameTaken(users, email) && !IdTaken(users, id)
    ensures r.response.Ok? ==>
      var u := r.response.value;
      && r.state == users + [u]
      && u.id == id && u.userName == email && u.email == Some(email)
      && u.roles == {Manager} && u.organizationId.None?
  {
    var u := NewAccount(id, email, firstName, lastName, None, Manager);
    match Create(users, u, accepted)
    case Err(status) => Step(users, Err(status))
    case Ok(t) => Step(t, Ok(u))
  }

  /** The first invitation carrying the token (`FirstOrDefaultAsync(i => i.Token == token)`). */
  function FindToken(invitations: seq<Invitation>, token: string): (r: Option<nat>)
    ensures r.Some? ==>
      && r.value < |invitations| && invitations[r.value].token == token
      && forall k :: 0 <= k < r.value ==> invitations[k].token != token
    ensures r.None? ==> forall k :: 0 <= k < |invitations| ==> invitations[k].token != token
  {
    FirstIndex(invitations, (i: Invitation) => i.token == token)
  }

  /** The token names an invitation that has not yet expired: one whose expiry is now or later
      is accepted. */
  predicate Redeemable(invitations: seq<Invitation>, token: string, now: int) {
    FindToken(invitations, token).Some? && invitations[FindToken(invitations, token).value].expiration >= now
  }

  /** `RegisterInvitedUser`: an unknown or expired token is `BadRequest`. Otherwise the account
      takes its user name, e-mail and organisation from the invitation and the Employee role,
      and the invitation is deleted. If creation fails or throws the invitation is kept. */
  function RegisterInvitedUser(d: Directory, token: string, id: string, firstName: string, lastName: string,
                               accepted: bool, now: int): (r: Step<Directory, User>)
    ensures r.response.Err? ==> r.state == d && r.response.status in {BadRequest, ServerError}
    ensures !Redeemable(d.invitations, token, now) ==> r.response == Err(BadRequest)
    ensures r.response.Ok? ==>
      var i := d.invitations[FindToken(d.invitations, token).value];
      var u := r.response.value;
      && Redeemable(d.invitations, token, now)
      && r.state.users == d.users + [u]
      && r.state.invitations == RemoveAt(d.invitations, FindToken(d.invitations, token).value)
      && u.id == id && u.userName == i.email && u.email == Some(i.email)
      && u.organizationId == Some(i.organizationId) && u.roles == {Employee}
    ensures Redeemable(d.invitations, token, now) ==>
      var address := d.invitations[FindToken(d.invitations, token).value].email;
      && (r.response == Err(ServerError) <==> accepted && !NameTaken(d.users, address) && IdTaken(d.users, id))
      && (r.response.Ok? <==> accepted && !NameTaken(d.users, address) && !IdTaken(d.users, id))
  {
    match FindToken(d.invitations, token)
    case None => Step(d, Err(BadRequest))
    case Some(k) =>
      var i := d.invitations[k];
      if i.expiration < now then Step(d, Err(BadRequest))
      else
        var u := NewAccount(id, i.email, firstName, lastName, Some(i.organizationId), Employee);
        match Create(d.users, u, accepted)
        case Err(status) => Step(d, Err(status))
        case Ok(t) => Step(Directory(t, RemoveAt(d.invitations, k)), Ok(u))
  }

  /** The first user whose normalised user name is that of `userName` (`FindByNameAsync`), so
      the lookup ignores letter case. */
  function FindByName(users: seq<User>, userName: string): (r: Option<nat>)
    ensures r.Some? ==>
      && r.value < |users| && users[r.value].normalizedUserName == Normalize(userName)
      && forall k :: 0 <= k < r.value ==> users[k].normalizedUserName != Normalize(userName)
    ensures r.None? ==> forall k :: 0 <= k < |users| ==> users[k].normalizedUserName != Normalize(userName)
  {
    FirstIndex(users, (u: User) => u.normalizedUserName == Normalize(userName))
  }

  /** The account is locked at `now`: a lockout end lies strictly ahead. */
  predicate LockedOut(u: User, now: int) {
    u.lockoutEnd.Some? && u.lockoutEnd.value > now
  }

  /** `Login`: an unknown user name or a wrong password is `Unauthorized`, and so is a user
      whose lockout has not yet ended; otherwise the account is returned (its token and roles
      are issued from it). `passwordMatches(id, password)` stands for Identity's hash check. */
  function Login(users: seq<User>, userName: string, password: string,
                 passwordMatches: (string, string) -> bool, now: int): (r: Response<User>)
    ensures r.Err? ==> r.status == Unauthorized
    ensures r.Ok? <==>
      && FindByName(users, userName).Some?
      && passwordMatches(users[FindByName(users, userName).value].id, password)
      && !LockedOut(users[FindByName(users, userName).value], now)
    ensures r.Ok? ==> r.value == users[FindByName(users, userName).value]
  {
    match FindByName(users, userName)
    case None => Err(Unauthorized)
    case Some(k) =>
      if !passwordMatches(users[k].id, password) then Err(Unauthorized)
      else if LockedOut(users[k], now) then Err(Unauthorized)
      else Ok(users[k])
  }

  // ---------------------------------------------------------------------------
  // Properties

  /** A newly registered manager can log in straight away with a password the hash check
      accepts, typing the address in any letter case. */
  lemma RegisteredManagerCanLogIn(users: seq<User>, id: string, email: string, firstName: string, lastName: string,
                                  name: string, password: string, passwordMatches: (string, string) -> bool, now: int)
    requires Register(users, id, email, firstName, lastName, true).response.Ok?
    requires Normalize(name) == Normalize(email)
    requires passwordMatches(id, password)
    ensures var t := Register(users, id, email, firstName, lastName, true).state;
      var r := Login(t, name, password, passwordMatches, now);
      r.Ok? && r.value.id == id && Manager in r.value.roles
  {
    var t := Register(users, id, email, firstName, lastName, true).state;
    assert t[|users|].normalizedUserName == Normalize(name);
    assert FindByName(t, name) == Some(|users|);
  }

  /** A user name that differs from an existing one only in letter case is already taken. */
  lemma CaseVariantRegistrationRefused(users: seq<User>, k: nat, id: string, email: string,
                                       firstName: string, lastName: string, accepted: bool)
    requires k < |users| && Normalize(users[k].userName) == Normalize(email)
    requires users[k].normalizedUserName == Normalize(users[k].userName)
    ensures Register(users, id, email, firstName, lastName, accepted) == Step(users, Err(BadRequest))
  {
    assert NameTaken(users, email);
  }

  /** A token is redeemed at most once: after a successful registration the same token is
      refused, provided tokens are unique. */
  lemma TokenRedeemedOnce(d: Directory, token: string, id: string, id2: string, firstName: string, lastName: string,
                          accepted: bool, accepted2: bool, now: int, later: int)
    requires UniqueTokens(d.invitations)
    requires RegisterInvitedUser(d, token, id, firstName, lastName, accepted, now).response.Ok?
    ensures var d2 := RegisterInvitedUser(d, token, id, firstName, lastName, accepted, now).state;
      RegisterInvitedUser(d2, token, id2, firstName, lastName, accepted2, later).response == Err(BadRequest)
  {
    var d2 := RegisterInvitedUser(d, token, id, firstName, lastName, accepted, now).state;
    var k := FindToken(d.invitations, token).value;
    forall j | 0 <= j < |d2.invitations|
      ensures d2.invitations[j].token != token
    {
      if j < k {
        assert d2.invitations[j] == d.invitations[j];
      } else {
        assert d2.invitations[j] == d.invitations[j + 1];
      }
    }
  }

  /** At the instant an invitation expires the listing already treats it as expired, yet its
      token still registers an account. */
  lemma ExpiryInstantAcceptedButNotListed(d: Directory, token: string, id: string, firstName: string, lastName: string,
                                          viewer: Option<string>)
    requires UniqueTokens(d.invitations)
    requires FindToken(d.invitations, token).Some?
    requires !NameTaken(d.users, d.invitations[FindToken(d.invitations, token).value].email)
    requires !IdTaken(d.users, id)
    requires Caller(d.users, viewer).Ok?
    ensures var i := d.invitations[FindToken(d.invitations, token).value];
      && RegisterInvitedUser(d, token, id, firstName, lastName, true, i.expiration).response.Ok?
      && GetInvitations(d.users, d.invitations, viewer, i.expiration).Ok?
      && i !in GetInvitations(d.users, d.invitations, viewer, i.expiration).value
  {
  }

  /** A refused registration keeps the invitation, so the invitee can try again. */
  lemma FailedRegistrationKeepsInvitation(d: Directory, token: string, id: string, firstName: string, lastName: string, now: int)
    requires Redeemable(d.invitations, token, now)
    ensures var r := RegisterInvitedUser(d, token, id, firstName, lastName, false, now);
      r.response == Err(BadRequest) && r.state == d && Redeemable(r.state.invitations, token, now)
  {
  }
}
