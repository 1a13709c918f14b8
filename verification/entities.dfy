/** The rows of the HourMap database the modelled controllers read and write. Timestamps are
    whole seconds on one UTC time line; pay rates are decimals, modelled as `real`. */
module Entities {
  import opened Common
  import opened Text

  /** The Identity roles the controllers assign and check. */
  datatype Role = Employee | Manager | Admin

  /** A shift: open while `clockOut` is absent, closed once it is set. `duration` is the
      elapsed-time string stored at clock-out. */
  datatype TimeEntry = TimeEntry(
    id: int,
    userId: string,
    organizationId: int,
    projectId: Option<int>,
    locationId: Option<int>,
    clockIn: int,
    clockOut: Option<int>,
    duration: Option<string>)
  {
    predicate IsOpen() {
      clockOut.None?
    }

    /** A closed shift ends no earlier than it starts, so its elapsed time is non-negative. */
    predicate EndsAfterStart() {
      clockOut.None? || clockOut.value >= clockIn
    }
  }

  /** Identity's lookup normaliser (`UpperInvariantLookupNormalizer`): user names and e-mail
      addresses are compared after upper-casing. */
  function Normalize(s: string): (r: string)
    ensures |r| == |s|
    ensures forall i :: 0 <= i < |r| ==> !('a' <= r[i] <= 'z')
    ensures forall i :: 0 <= i < |s| && !('a' <= s[i] <= 'z') ==> r[i] == s[i]
  {
    ToUpper(s)
  }

  /** Normalising twice gives the same key, so a stored key is its own lookup key. */
  lemma NormalizeIdempotent(s: string)
    ensures Normalize(Normalize(s)) == Normalize(s)
  {
  }

  /** The key ignores the case of ASCII letters: a lower-cased name finds the same account. */
  lemma NormalizeIgnoresCase(s: string)
    ensures Normalize(ToLower(s)) == Normalize(s)
  {
  }

  /** An `ApplicationUser` together with its Identity lookup keys, lockout fields and role
      memberships. `normalizedUserName` and `normalizedEmail` are what Identity searches; they
      are written when the account is created and whenever `UserManager` saves the user
      (`Refresh`), while the controllers' own profile edits, which assign `Email` and save
      through the database context, leave them as they were. */
  datatype User = User(
    id: string,
    userName: string,
    normalizedUserName: string,
    email: Option<string>,
    normalizedEmail: Option<string>,
    firstName: Option<string>,
    lastName: Option<string>,
    jobTitle: Option<string>,
    payRate: Option<real>,
    managesOrganization: bool,
    organizationId: Option<int>,
    lockoutEnabled: bool,
    lockoutEnd: Option<int>,
    roles: set<Role>)
  {
    /** The computed `LoginEnabled` property: lockout is off, or it has ended. */
    predicate LoginEnabled(now: int) {
      !lockoutEnabled || (lockoutEnd.Some? && lockoutEnd.value <= now)
    }
  }

  /** The e-mail lookup key of an optional address. */
  function EmailKey(email: Option<string>): (r: Option<string>)
    ensures r.Some? <==> email.Some?
    ensures r.Some? ==> r.value == Normalize(email.value)
  {
    if email.Some? then Some(Normalize(email.value)) else None
  }

  /** Both lookup keys agree with the user name and e-mail they are derived from. */
  predicate KeysCurrent(u: User) {
    u.normalizedUserName == Normalize(u.userName) && u.normalizedEmail == EmailKey(u.email)
  }

  /** The user as `UserManager` saves it: every update it performs (`UpdateAsync`,
      `AddToRoleAsync`, `RemoveFromRoleAsync`) goes through `UpdateUserAsync`, which derives
      both lookup keys afresh from the current user name and e-mail before storing the row. */
  function Refresh(u: User): (r: User)
    ensures KeysCurrent(r)
    ensures r.(normalizedUserName := u.normalizedUserName, normalizedEmail := u.normalizedEmail) == u
    ensures KeysCurrent(u) ==> r == u
  {
    u.(normalizedUserName := Normalize(u.userName), normalizedEmail := EmailKey(u.email))
  }

  /** An invitation to join an organisation, redeemed with its token before it expires. */
  datatype Invitation = Invitation(id: int, email: string, organizationId: int, token: string, expiration: int)

  datatype Project = Project(id: int, name: string, description: string, enabled: bool, organizationId: int)

  /** An assignment of a user to a project; the pair (user, project) is its key. */
  datatype UserProject = UserProject(userId: string, projectId: int, organizationId: int)

  /** User ids are the primary key of the users table. */
  predicate UniqueUserIds(users: seq<User>) {
    forall i, j :: 0 <= i < j < |users| ==> users[i].id != users[j].id
  }

  /** The first user with the given id (`Users.FirstOrDefault(u => u.Id == id)`). */
  function FindUser(users: seq<User>, id: string): (r: Option<User>)
    ensures r.Some? ==> r.value in users && r.value.id == id
    ensures r.None? ==> forall i :: 0 <= i < |users| ==> users[i].id != id
  {
    match FirstIndex(users, (u: User) => u.id == id)
    case Some(k) => Some(users[k])
    case None => None
  }
}
