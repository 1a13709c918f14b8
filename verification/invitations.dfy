/** `InvitationController`: a manager lists the organisation's live invitations, invites an
    e-mail address into an organisation, and cancels an invitation. An invitation lives for
    seven days; the token is generated by the caller of the model (a fresh GUID in the
    controller). */
module Invitations {
  import opened Common
  import opened Entities

  /** Seven days, in seconds (`DateTime.UtcNow.AddDays(7)`). */
  const InvitationLifetime: int := 7 * 86400

  /** An invitation still counts as outstanding while its expiry lies strictly ahead. */
  predicate Live(i: Invitation, now: int) {
    i.expiration > now
  }

  /** Managers who are not Admins act only within their own organisation. A caller without an
      organisation is outside every organisation (`null != id` holds in C#). */
  predicate OutsideOwnOrganization(caller: User, organization: int) {
    Manager in caller.roles && Admin !in caller.roles && caller.organizationId != Some(organization)
  }

  /** Looks up the caller named by the user-id claim; a missing claim or an unknown user is
      `Unauthorized`. */
  function Caller(users: seq<User>, userClaim: Option<string>): (r: Response<User>)
    ensures r.Err? <==> userClaim.None? || FindUser(users, userClaim.value).None?
    ensures r.Err? ==> r.status == Unauthorized
    ensures r.Ok? ==> r.value in users && r.value.id == userClaim.value
  {
    if userClaim.None? then Err(Unauthorized)
    else match FindUser(users, userClaim.value)
      case None => Err(Unauthorized)
      case Some(u) => Ok(u)
  }

  /** `GetInvitations`: the live invitations of the caller's organisation, in table order. */
  function GetInvitations(users: seq<User>, invitations: seq<Invitation>, userClaim: Option<string>, now: int): (r: Response<seq<Invitation>>)
    ensures r.Err? <==> Caller(users, userClaim).Err?
    ensures r.Err? ==> r.status == Unauthorized
    ensures r.Ok? ==> forall i :: i in r.value <==>
      i in invitations && Caller(users, userClaim).value.organizationId == Some(i.organizationId) && Live(i, now)
  {
    match Caller(users, userClaim)
    case Err(status) => Err(status)
    case Ok(caller) =>
      Ok(Filter(invitations, (i: Invitation) => caller.organizationId == Some(i.organizationId) && Live(i, now)))
  }

  /** Some user's stored lookup key is this address, normalised (`FindByEmailAsync`). The key
      is the one written at account creation, so an address a profile edit has since replaced
      still counts, and the new one does not. */
  predicate EmailTaken(users: seq<User>, email: string) {
    exists k :: 0 <= k < |users| && users[k].normalizedEmail == Some(Normalize(email))
  }

  /** Two users share this address's key. `FindByEmailAsync` reads the key with
      `SingleOrDefault`, which throws when more than one row matches. E-mail keys need not be
      unique: an address a profile edit assigns becomes a key at the user's next `UserManager`
      update, whoever else already holds it. */
  predicate EmailShared(users: seq<User>, email: string) {
    exists j, k :: 0 <= j < k < |users| && users[j].normalizedEmail == Some(Normalize(email))
      && users[k].normalizedEmail == Some(Normalize(email))
  }

  /** A live invitation for the same address and organisation already exists. */
  predicate Pending(invitations: seq<Invitation>, email: string, organization: int, now: int) {
    exists k :: 0 <= k < |invitations| && invitations[k].email == email
      && invitations[k].organizationId == organization && Live(invitations[k], now)
  }

  /** `InviteUser`: after the caller checks, a manager inviting into another organisation is
      refused with `Forbid(message)`, which throws (`ServerError`), and so does the account
      lookup when two accounts share the address's key; an address that already has an
      account or a live invitation to the same organisation is `BadRequest`; otherwise
      one invitation is added with the given token, expiring seven days from now. Nothing is
      saved on a refusal. */
  function InviteUser(users: seq<User>, invitations: seq<Invitation>, userClaim: Option<string>,
                      email: string, organization: int, token: string, now: int): (r: Step<seq<Invitation>, Invitation>)
    ensures r.response.Err? ==> r.state == invitations
    ensures r.response == Err(Unauthorized) <==> Caller(users, userClaim).Err?
    ensures r.response == Err(ServerError) <==>
      && Caller(users, userClaim).Ok?
      && (OutsideOwnOrganization(Caller(users, userClaim).value, organization) || EmailShared(users, email))
    ensures r.response == Err(BadRequest) <==>
      && Caller(users, userClaim).Ok? && !OutsideOwnOrganization(Caller(users, userClaim).value, organization)
      && !EmailShared(users, email)
      && (EmailTaken(users, email) || Pending(invitations, email, organization, now))
    ensures r.response.Ok? ==>
      && r.state == invitations + [r.response.value]
      && r.response.value.email == email && r.response.value.organizationId == organization
      && r.response.value.token == token && r.response.value.expiration == now + InvitationLifetime
      && forall k :: 0 <= k < |invitations| ==> invitations[k].id < r.response.value.id
  {
    match Caller(users, userClaim)
    case Err(status) => Step(invitations, Err(status))
    case Ok(caller) =>
      if OutsideOwnOrganization(caller, organization) then Step(invitations, Err(ServerError))
      else if EmailShared(users, email) then Step(invitations, Err(ServerError))
      else if EmailTaken(users, email) then Step(invitations, Err(BadRequest))
      else if Pending(invitations, email, organization, now) then Step(invitations, Err(BadRequest))
      else
        var i := Invitation(NextKey(invitations, (x: Invitation) => x.id), email, organization, token, now + InvitationLifetime);
        Step(invitations + [i], Ok(i))
  }

  /** The first invitation with the given id (`Invitations.FindAsync(id)`). */
  function FindInvitation(invitations: seq<Invitation>, id: int): (r: Option<nat>)
    ensures r.Some? ==> r.value < |invitations| && invitations[r.value].id == id
    ensures r.None? ==> forall k :: 0 <= k < |invitations| ==> invitations[k].id != id
  {
    FirstIndex(invitations, (i: Invitation) => i.id == id)
  }

  /** `CancelInvitation`: after the caller checks, an unknown id is `NotFound`, a manager of
      another organisation is refused with the throwing `Forbid(message)` (`ServerError`), and
      otherwise that invitation is removed. */
  function CancelInvitation(users: seq<User>, invitations: seq<Invitation>, userClaim: Option<string>, id: int): (r: Step<seq<Invitation>, ()>)
    ensures r.response.Err? ==> r.state == invitations
    ensures r.response == Err(Unauthorized) <==> Caller(users, userClaim).Err?
    ensures r.response == Err(NotFound) <==> Caller(users, userClaim).Ok? && FindInvitation(invitations, id).None?
    ensures r.response == Err(ServerError) <==>
      && Caller(users, userClaim).Ok? && FindInvitation(invitations, id).Some?
      && OutsideOwnOrganization(Caller(users, userClaim).value, invitations[FindInvitation(invitations, id).value].organizationId)
    ensures r.response.Ok? ==> r.state == RemoveAt(invitations, FindInvitation(invitations, id).value)
  {
    match Caller(users, userClaim)
    case Err(status) => Step(invitations, Err(status))
    case Ok(caller) =>
      match FindInvitation(invitations, id)
      case None => Step(invitations, Err(NotFound))
      case Some(k) =>
        if OutsideOwnOrganization(caller, invitations[k].organizationId) then Step(invitations, Err(ServerError))
        else Step(RemoveAt(invitations, k), Ok(()))
  }

  // ---------------------------------------------------------------------------
  // Properties

  predicate UniqueInvitationIds(s: seq<Invitation>) {
    forall i, j :: 0 <= i < j < |s| ==> s[i].id != s[j].id
  }

  /** Tokens are GUIDs: no two invitations share one. */
  predicate UniqueTokens(s: seq<Invitation>) {
    forall i, j :: 0 <= i < j < |s| ==> s[i].token != s[j].token
  }

  /** Inviting keeps ids unique, and keeps tokens unique when the new token is fresh. */
  lemma InviteKeepsKeys(users: seq<User>, invitations: seq<Invitation>, userClaim: Option<string>,
                        email: string, organization: int, token: string, now: int)
    requires UniqueInvitationIds(invitations) && UniqueTokens(invitations)
    requires forall k :: 0 <= k < |invitations| ==> invitations[k].token != token
    ensures UniqueInvitationIds(InviteUser(users, invitations, userClaim, email, organization, token, now).state)
    ensures UniqueTokens(InviteUser(users, invitations, userClaim, email, organization, token, now).state)
  {
  }

  /** A new invitation is listed for every member of its organisation until the seventh day
      after it was issued, and no longer afterwards. */
  lemma InvitationListedUntilExpiry(users: seq<User>, invitations: seq<Invitation>, userClaim: Option<string>,
                                    email: string, organization: int, token: string, now: int,
                                    viewer: Option<string>, later: int)
    requires InviteUser(users, invitations, userClaim, email, organization, token, now).response.Ok?
    requires Caller(users, viewer).Ok? && Caller(users, viewer).value.organizationId == Some(organization)
    ensures var r := InviteUser(users, invitations, userClaim, email, organization, token, now);
      var listed := GetInvitations(users, r.state, viewer, later);
      listed.Ok? && (r.response.value in listed.value <==> later < now + InvitationLifetime)
  {
  }

  /** While an invitation is outstanding a second one for the same address and organisation is
      refused; once it has expired it no longer blocks. */
  lemma SecondInvitationRefusedUntilExpiry(users: seq<User>, invitations: seq<Invitation>, userClaim: Option<string>,
                                           email: string, organization: int, token: string, token2: string, now: int, later: int)
    requires InviteUser(users, invitations, userClaim, email, organization, token, now).response.Ok?
    requires later >= now
    ensures var r := InviteUser(users, invitations, userClaim, email, organization, token, now);
      var again := InviteUser(users, r.state, userClaim, email, organization, token2, later);
      later < now + InvitationLifetime ==> again == Step(r.state, Err(BadRequest))
  {
    var r := InviteUser(users, invitations, userClaim, email, organization, token, now);
    if later < now + InvitationLifetime {
      assert r.state[|invitations|] == r.response.value;
      assert Pending(r.state, email, organization, later);
    }
  }

  /** Cancelling removes exactly the invitation with that id and keeps the others in order. */
  lemma CancelRemovesExactly(users: seq<User>, invitations: seq<Invitation>, userClaim: Option<string>, id: int)
    requires UniqueInvitationIds(invitations)
    requires CancelInvitation(users, invitations, userClaim, id).response.Ok?
    ensures var s := CancelInvitation(users, invitations, userClaim, id).state;
      && |s| == |invitations| - 1
      && (forall i :: i in s <==> i in invitations && i.id != id)
      && UniqueInvitationIds(s)
  {
    var s := CancelInvitation(users, invitations, userClaim, id).state;
    var k := FindInvitation(invitations, id).value;
    forall i
      ensures i in s <==> i in invitations && i.id != id
    {
      if i in s {
        var j :| 0 <= j < |s| && s[j] == i;
        if j < k {
          assert invitations[j] == i;
        } else {
          assert invitations[j + 1] == i;
        }
      }
      if i in invitations && i.id != id {
        var j :| 0 <= j < |invitations| && invitations[j] == i;
        if j < k {
          assert s[j] == i;
        } else {
          assert s[j - 1] == i;
        }
      }
    }
  }
}
