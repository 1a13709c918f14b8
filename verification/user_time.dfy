/** The manager's user-time report page: the user search box, choosing a user, the guard
    before entries are fetched, and the hours shown per entry. */
module UserTime {
  import opened Common
  import opened Text
  import opened Duration
  import opened DurationLaws

  /** An organisation member as the page receives it. */
  datatype OrgUser = OrgUser(id: string, firstName: string, lastName: string)

  /** The page's search and selection state. */
  datatype PageState = PageState(
    selectedUserId: Option<string>,
    startDate: string,
    endDate: string,
    searchText: string,
    searchStarted: bool,
    filteredUsers: seq<OrgUser>)

  /** The search term: the typed text lower-cased, then trimmed. */
  function SearchTerm(typed: string): (r: string)
    ensures forall i :: 0 <= i < |r| ==> !('A' <= r[i] <= 'Z')
    ensures |r| > 0 ==> !IsSpace(r[0]) && !IsSpace(r[|r| - 1])
  {
    Trim(ToLower(typed))
  }

  /** A member matches when the lower-cased last or first name contains the term. */
  predicate NameMatches(u: OrgUser, term: string) {
    Includes(ToLower(u.lastName), term) || Includes(ToLower(u.firstName), term)
  }

  /** `filterUsers`: a blank term clears the suggestions and the search flag; otherwise the
      suggestions are the members whose first or last name contains the term. */
  function FilterUsers(st: PageState, members: seq<OrgUser>, typed: string): (r: PageState)
    ensures |SearchTerm(typed)| == 0 ==> r.filteredUsers == [] && !r.searchStarted
    ensures |SearchTerm(typed)| > 0 ==>
      && r.searchStarted && |r.filteredUsers| <= |members|
      && forall u :: u in r.filteredUsers <==> u in members && NameMatches(u, SearchTerm(typed))
    ensures r == st.(filteredUsers := r.filteredUsers, searchStarted := r.searchStarted)
  {
    var term := SearchTerm(typed);
    if |term| == 0 then st.(filteredUsers := [], searchStarted := false)
    else st.(filteredUsers := Filter(members, (u: OrgUser) => NameMatches(u, term)), searchStarted := true)
  }

  /** Typing only white space never starts a search, whatever the members are. */
  lemma BlankSearchClears(st: PageState, members: seq<OrgUser>, typed: string)
    requires AllSpace(typed)
    ensures FilterUsers(st, members, typed).filteredUsers == []
    ensures !FilterUsers(st, members, typed).searchStarted
  {
    LowerKeepsSpace(typed);
    TrimEmptyIffBlank(ToLower(typed));
  }

  lemma LowerKeepsSpace(s: string)
    requires AllSpace(s)
    ensures AllSpace(ToLower(s))
  {
    forall i | 0 <= i < |s|
      ensures IsSpace(ToLower(s)[i])
    {
      assert IsSpace(s[i]);
    }
  }

  /** Searching for a member's own (lower-case, space-free) first name finds that member. */
  lemma SearchFindsMember(st: PageState, members: seq<OrgUser>, k: nat)
    requires k < |members| && |members[k].firstName| > 0
    requires forall i :: 0 <= i < |members[k].firstName| ==> 'a' <= members[k].firstName[i] <= 'z'
    ensures members[k] in FilterUsers(st, members, members[k].firstName).filteredUsers
  {
    var name := members[k].firstName;
    ToLowerKeeps(name);
    TrimKeeps(name);
    assert name[0..|name|] == name;
    assert OccursAt(ToLower(name), name, 0);
    assert NameMatches(members[k], SearchTerm(name));
  }

  /** `selectUser`: remembers the member's id, shows "first last" in the box and closes the
      suggestions. */
  function SelectUser(st: PageState, u: OrgUser): (r: PageState)
    ensures r.selectedUserId == Some(u.id)
    ensures r.filteredUsers == [] && !r.searchStarted
    ensures r.searchText == u.firstName + " " + u.lastName
    ensures r.startDate == st.startDate && r.endDate == st.endDate
  {
    st.(selectedUserId := Some(u.id), searchText := u.firstName + " " + u.lastName,
        filteredUsers := [], searchStarted := false)
  }

  /** `fetchUserTimeEntries`: the request it sends (user, start, end), or `None` when a user,
      a start date or an end date is missing. */
  function FetchRequest(st: PageState): (r: Option<(string, string, string)>)
    ensures r.None? <==> st.selectedUserId.None? || st.startDate == "" || st.endDate == ""
    ensures r.Some? ==> r.value == (st.selectedUserId.value, st.startDate, st.endDate)
  {
    if st.selectedUserId.None? || st.startDate == "" || st.endDate == "" then None
    else Some((st.selectedUserId.value, st.startDate, st.endDate))
  }

  /** After choosing a user and both dates, the page fetches that user's entries. */
  lemma SelectThenFetch(st: PageState, u: OrgUser, start: string, end: string)
    requires start != "" && end != ""
    ensures FetchRequest(SelectUser(st, u).(startDate := start, endDate := end)) == Some((u.id, start, end))
  {
  }

  /** The hours shown for one entry: `duration ?? 'PT0H0M0S'` through the user-time parser. */
  function ShownHours(duration: Option<string>): (h: real)
    ensures h >= 0.0
    ensures duration.None? ==> h == 0.0
  {
    ZeroSpanReadsZero();
    UserTimeHours(if duration.Some? then duration.value else "PT0H0M0S")
  }
}
