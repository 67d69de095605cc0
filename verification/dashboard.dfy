/** The member list screen: searching the register, clearing the search,
    appending a new member, and which actions each role is offered. */
module Dashboard {
  import opened Wrappers
  import opened Strings
  import opened Seqs
  import opened Members
  import Session

  /** The screen's state: the register, the rows on display, and the
      search controls. */
  datatype State = State(members: seq<Member>, filtered: seq<Member>, searchTerm: string, searchBy: string)

  const Initial: State := State(SeedMembers, SeedMembers, "", "memberNo")

  /** The filter callback of `handleSearch`: a case-insensitive substring
      test on the selected key; any other key keeps nothing. */
  predicate Keep(m: Member, searchBy: string, term: string) {
    if searchBy == "memberNo" then Contains(Lower(m.memberNo), Lower(term))
    else if searchBy == "siteNo" then Contains(Lower(m.siteNo), Lower(term))
    else false
  }

  /** The register filtered by `Keep`. */
  function Search(members: seq<Member>, searchBy: string, term: string): seq<Member> {
    Filter(members, m => Keep(m, searchBy, term))
  }

  /** `handleSearch`: a blank term shows the whole register; otherwise the
      rows are exactly the register's members that match, in register order.
      The rows previously on display play no part. */
  function HandleSearch(st: State): (r: State)
    ensures r.members == st.members && r.searchTerm == st.searchTerm && r.searchBy == st.searchBy
    ensures IsBlank(st.searchTerm) ==> r.filtered == st.members
    ensures !IsBlank(st.searchTerm) ==>
      && IsSubsequence(r.filtered, st.members)
      && (forall m :: m in r.filtered <==> m in st.members && Keep(m, st.searchBy, st.searchTerm))
      && (forall m :: multiset(r.filtered)[m] == if Keep(m, st.searchBy, st.searchTerm) then multiset(st.members)[m] else 0)
  {
    if Trim(st.searchTerm) == "" then st.(filtered := st.members)
    else
      FilterSpec(st.members, m => Keep(m, st.searchBy, st.searchTerm));
      st.(filtered := Search(st.members, st.searchBy, st.searchTerm))
  }

  /** Typing in the search box changes the term only: the rows are
      re-evaluated on the explicit search action alone. */
  function EditSearchTerm(st: State, term: string): (r: State)
    ensures r.searchTerm == term
    ensures r.members == st.members && r.filtered == st.filtered && r.searchBy == st.searchBy
  {
    st.(searchTerm := term)
  }

  /** `clearSearch`: the term becomes empty and the whole register is shown. */
  function ClearSearch(st: State): (r: State)
    ensures r.searchTerm == "" && r.filtered == st.members
    ensures r.members == st.members && r.searchBy == st.searchBy
  {
    st.(searchTerm := "", filtered := st.members)
  }

  /** Clearing shows what a search with a blank term shows, and undoes any
      earlier search. */
  lemma ClearIsBlankSearch(st: State, term: string)
    ensures ClearSearch(st).filtered == HandleSearch(st.(searchTerm := "")).filtered
    ensures ClearSearch(HandleSearch(st.(searchTerm := term))) == ClearSearch(st)
  {
    assert IsBlank("");
  }

  /** `handleAddMember`: the new member goes at the end, every earlier member
      stays where it was, nothing checks for a repeated member number, and
      the display is reset to the whole new register. */
  function HandleAddMember(st: State, m: Member): (r: State)
    ensures |r.members| == |st.members| + 1
    ensures r.members[..|st.members|] == st.members
    ensures r.members[|st.members|] == m
    ensures r.filtered == r.members
    ensures r.searchTerm == st.searchTerm && r.searchBy == st.searchBy
  {
    var members := st.members + [m];
    st.(members := members, filtered := members)
  }

  /** A search is a function of the register, key and term alone. */
  lemma SearchIgnoresDisplayedRows(st: State, shown: seq<Member>)
    ensures HandleSearch(st.(filtered := shown)) == HandleSearch(st)
  {
  }

  /** The search ignores case: lower-casing the term, or the searched keys
      of a member, never changes whether the member matches. */
  lemma KeepIgnoresCase(m: Member, searchBy: string, term: string)
    ensures Keep(m, searchBy, Lower(term)) == Keep(m, searchBy, term)
    ensures Keep(m.(memberNo := Lower(m.memberNo), siteNo := Lower(m.siteNo)), searchBy, term) == Keep(m, searchBy, term)
  {
    LowerIdempotent(term);
    LowerIdempotent(m.memberNo);
    LowerIdempotent(m.siteNo);
  }

  /** A mixed-case term finds a mixed-case member number: "Ab" matches
      "aB1". */
  lemma MixedCaseMatch(m: Member)
    requires m.memberNo == "aB1"
    ensures Keep(m, "memberNo", "Ab")
  {
    assert Lower("aB1") == "ab1";
    assert Lower("Ab") == "ab";
    assert OccursAt("ab1", "ab", 0);
  }

  /** A key other than the two offered finds nothing. */
  lemma UnknownKeyFindsNothing(st: State)
    requires st.searchBy != "memberNo" && st.searchBy != "siteNo"
    requires !IsBlank(st.searchTerm)
    ensures HandleSearch(st).filtered == []
  {
  }

  /** The rows a single member contributes to a search. */
  function Hit(m: Member, searchBy: string, term: string): seq<Member> {
    if Keep(m, searchBy, term) then [m] else []
  }

  /** A search over four members, one member at a time. */
  lemma SearchFour(a: Member, b: Member, c: Member, d: Member, searchBy: string, term: string)
    ensures Search([a, b, c, d], searchBy, term)
         == Hit(a, searchBy, term) + Hit(b, searchBy, term) + Hit(c, searchBy, term) + Hit(d, searchBy, term)
  {
    assert [a, b, c, d][1..] == [b, c, d];
    assert [b, c, d][1..] == [c, d];
    assert [c, d][1..] == [d];
    assert [d][1..] == [];
    assert Search([d], searchBy, term) == Hit(d, searchBy, term);
    assert Search([c, d], searchBy, term) == Hit(c, searchBy, term) + Hit(d, searchBy, term);
    assert Search([b, c, d], searchBy, term) == Hit(b, searchBy, term) + Hit(c, searchBy, term) + Hit(d, searchBy, term);
  }

  /** Which starting members match member-number term "01". */
  lemma SeedKeepMemberNo()
    ensures Keep(Seed001, "memberNo", "01") && Keep(Seed010, "memberNo", "01")
    ensures !Keep(Seed002, "memberNo", "01") && !Keep(Seed003, "memberNo", "01")
  {
    assert Lower("01") == "01";
    assert Lower("001") == "001";
    assert Lower("002") == "002";
    assert Lower("003") == "003";
    assert Lower("010") == "010";
    assert OccursAt("001", "01", 1);
    assert OccursAt("010", "01", 0);
    assert "002"[..2] == "00" && "002"[1..] == "02";
    NotContains3("002", "01");
    assert "003"[..2] == "00" && "003"[1..] == "03";
    NotContains3("003", "01");
  }

  /** A three-character text whose last two characters differ from a
      two-character needle, and whose first two do too, does not contain it. */
  lemma NotContains3(hay: string, needle: string)
    requires |hay| == 3 && |needle| == 2
    requires hay[..2] != needle && hay[1..] != needle
    ensures !Contains(hay, needle)
  {
    ContainsStep(hay, needle);
    assert hay[1..][..2] == hay[1..];
    ContainsStep(hay[1..], needle);
    assert !Contains(hay[1..][1..], needle);
  }

  /** Which starting members match site-number term "1". */
  lemma SeedKeepSiteNo()
    ensures Keep(Seed001, "siteNo", "1") && Keep(Seed003, "siteNo", "1")
    ensures !Keep(Seed002, "siteNo", "1") && !Keep(Seed010, "siteNo", "1")
  {
    assert Lower("1") == "1";
    assert Lower("2") == "2";
    assert Lower("4") == "4";
    assert OccursAt("1", "1", 0);
    NotContains1("2", "1");
    NotContains1("4", "1");
  }

  /** A one-character text other than a one-character needle does not
      contain it. */
  lemma NotContains1(hay: string, needle: string)
    requires |hay| == 1 && |needle| == 1 && hay != needle
    ensures !Contains(hay, needle)
  {
    assert hay[..1] == hay;
    ContainsStep(hay, needle);
    assert !Contains(hay[1..], needle);
  }

  /** With the starting register, member-number term "01" shows exactly
      members 001 and 010. */
  lemma SeedSearchMemberNo()
    ensures HandleSearch(Initial.(searchTerm := "01")).filtered == [Seed001, Seed010]
  {
    SeedKeepMemberNo();
    SearchFour(Seed001, Seed002, Seed003, Seed010, "memberNo", "01");
    assert Search(SeedMembers, "memberNo", "01") == [Seed001, Seed010];
    var st := Initial.(searchTerm := "01");
    assert !IsWhitespace(st.searchTerm[0]);
    assert HandleSearch(st).filtered == Search(SeedMembers, "memberNo", "01");
  }

  /** With the starting register, site-number term "1" shows exactly
      members 001 and 003. */
  lemma SeedSearchSiteNo()
    ensures HandleSearch(Initial.(searchTerm := "1", searchBy := "siteNo")).filtered == [Seed001, Seed003]
  {
    SeedKeepSiteNo();
    SearchFour(Seed001, Seed002, Seed003, Seed010, "siteNo", "1");
    assert Search(SeedMembers, "siteNo", "1") == [Seed001, Seed003];
    var st := Initial.(searchTerm := "1", searchBy := "siteNo");
    assert !IsWhitespace(st.searchTerm[0]);
    assert HandleSearch(st).filtered == Search(SeedMembers, "siteNo", "1");
  }

  /** The controls on the member list screen. */
  datatype Action =
    | ExtraInfo        // per row: open the detail view
    | Financial        // per row: open the financial view
    | Update           // per row: open the update-request form
    | ApprovalOnly     // per row: the "updates via approval only" badge
    | PendingInbox     // header: open the pending-requests inbox
    | AddMember        // open the add-member form
    | Logout

  /** The controls offered to a role: only the administrator may propose an
      update, only the head sees the approval badge and the inbox; the rest
      are offered to every role. */
  function Actions(role: string): (r: set<Action>)
    ensures Update in r <==> role == Session.Admin
    ensures PendingInbox in r <==> role == Session.Head
    ensures ApprovalOnly in r <==> role == Session.Head
    ensures ExtraInfo in r && Financial in r && AddMember in r && Logout in r
  {
    {ExtraInfo, Financial, AddMember, Logout}
    + (if role == Session.Admin then {Update} else {})
    + (if role == Session.Head then {ApprovalOnly, PendingInbox} else {})
  }

  /** The update-request form is rendered only for a chosen member and only
      for the administrator, whatever opened it. */
  predicate UpdateFormShown(role: string, target: Option<Member>) {
    target.Some? && role == Session.Admin
  }

  /** The inbox is rendered only when opened and only for the head. */
  predicate InboxShown(role: string, open: bool) {
    open && role == Session.Head
  }

  /** The two roles see disjoint sets of editing controls. */
  lemma RolesSeparateEditing(role: string)
    ensures UpdateFormShown(role, None) == false
    ensures forall t: Option<Member> :: UpdateFormShown(role, t) ==> Update in Actions(role) && PendingInbox !in Actions(role)
    ensures forall open :: InboxShown(role, open) ==> PendingInbox in Actions(role) && Update !in Actions(role)
  {
  }
}
