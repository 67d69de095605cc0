/** The components wired together as the pages wire them: the page switch
    mounting the dashboard only while someone is logged in, the add form
    feeding the register, the login page feeding the page switch, and an
    update request drafted against a record of the register. */
module Workflow {
  import opened Wrappers
  import opened Strings
  import opened Members
  import Dashboard
  import AddMember
  import UpdateRequest
  import Session

  /** The whole application: the session, and the dashboard's state while
      the dashboard is mounted. The page switch renders the dashboard only
      for a logged-in role, so its state exists only then. */
  datatype App = App(session: Session.Session, board: Option<Dashboard.State>)

  const Start: App := App(Session.Initial, None)

  predicate DashboardShown(s: Session.Session) {
    Session.PageOf(s).Dashboard?
  }

  /** The dashboard's state exists exactly while the dashboard is shown. */
  predicate Mounted(a: App) {
    a.board.Some? <==> DashboardShown(a.session)
  }

  /** A login or logout click. The dashboard keeps its state while it stays
      on screen; logging out unmounts it and drops its state, and the next
      login mounts a fresh one holding the seed register again. */
  function AppStep(a: App, e: Session.Event): (r: App)
    requires Mounted(a)
    ensures Mounted(r)
    ensures r.session == Session.Step(a.session, e)
    ensures DashboardShown(a.session) && DashboardShown(r.session) ==> r.board == a.board
    ensures !DashboardShown(a.session) && DashboardShown(r.session) ==> r.board == Some(Dashboard.Initial)
  {
    var s := Session.Step(a.session, e);
    if !DashboardShown(s) then App(s, None)
    else if DashboardShown(a.session) then App(s, a.board)
    else App(s, Some(Dashboard.Initial))
  }

  /** Submitting the add form on the mounted dashboard. */
  function AppAdd(a: App, form: Member): (r: App)
    requires Mounted(a)
    ensures Mounted(r) && r.session == a.session
    ensures a.board.Some? ==> r.board == Some(AddFlow(a.board.value, form))
    ensures a.board.None? ==> r == a
  {
    match a.board
    case Some(st) => App(a.session, Some(AddFlow(st, form)))
    case None => a
  }

  /** A member added on the dashboard is listed until logout; after logging
      out and in again the register is the seed register once more, so the
      addition is lost. */
  lemma LogoutForgetsAddedMembers(a: App, form: Member, username: string, password: string, b: Session.LoginButton)
    requires Mounted(a) && DashboardShown(a.session)
    requires AddMember.Submit(form).Added?
    requires username != "" && password != ""
    ensures form in AppAdd(a, form).board.value.members
    ensures var out := AppStep(AppAdd(a, form), Session.LogoutClicked);
      var back := AppStep(out, Session.LoginClicked(username, password, b));
      && out.board.None?
      && back.board == Some(Dashboard.Initial)
      && back.board.value.members == SeedMembers
  {
    var added := AppAdd(a, form);
    assert added.board.value.members[|a.board.value.members|] == form;
  }

  /** Submitting the add form from the dashboard: `onAdd` (the dashboard's
      `handleAddMember`) runs only when the form is accepted. */
  function AddFlow(st: Dashboard.State, form: Member): (r: Dashboard.State)
    ensures AddMember.Submit(form).Added? ==>
      && r.members == st.members + [form]
      && r.filtered == r.members
      && r.searchTerm == st.searchTerm && r.searchBy == st.searchBy
    ensures AddMember.Submit(form) == AddMember.MissingRequiredFields ==> r == st
  {
    match AddMember.Submit(form)
    case Added(m) => Dashboard.HandleAddMember(st, m)
    case MissingRequiredFields => st
  }

  /** A form with all five required fields filled ends up listed, at the end
      of the register and on display; one with a required field empty
      leaves the dashboard untouched. */
  lemma AddedMemberIsListed(st: Dashboard.State, form: Member)
    ensures (forall f :: IsRequired(f) ==> Get(form, f) != Some("")) ==>
      && form in AddFlow(st, form).members
      && form in AddFlow(st, form).filtered
      && |AddFlow(st, form).members| == |st.members| + 1
    ensures (exists f :: IsRequired(f) && Get(form, f) == Some("")) ==> AddFlow(st, form) == st
  {
    if forall f :: IsRequired(f) ==> Get(form, f) != Some("") {
      var r := AddFlow(st, form);
      assert r.members[|st.members|] == form;
    }
  }

  /** Logging in through a button with credentials shows that button's
      dashboard, and the administrator's dashboard alone offers updates. */
  lemma LoginThenDashboard(username: string, password: string, b: Session.LoginButton)
    requires username != "" && password != ""
    ensures var s := Session.Step(Session.Initial, Session.LoginClicked(username, password, b));
      && Session.PageOf(s) == Session.Dashboard(Session.RoleOf(b))
      && (Dashboard.Update in Dashboard.Actions(s.value) <==> b == Session.AdministratorLogin)
      && (Dashboard.PendingInbox in Dashboard.Actions(s.value) <==> b == Session.HeadLogin)
  {
  }

  /** Empty credentials leave the login page showing. */
  lemma EmptyCredentialsStay(username: string, password: string, b: Session.LoginButton)
    requires username == "" || password == ""
    ensures Session.Step(Session.Initial, Session.LoginClicked(username, password, b)) == Session.Initial
    ensures Session.PageOf(Session.Initial) == Session.LoginPage
  {
  }

  /** Member 001's contact number edited from 9876543210 to 9876543999 with
      reason "phone change": the changed set is that one field, and the
      submission is accepted with an id from the clock. */
  lemma ContactChangeScenario(now: nat)
    ensures Get(Seed001, ContactDetails) == Some("9876543210")
    ensures var d := UpdateRequest.FieldChange(UpdateRequest.EmptyDraft, ContactDetails, "9876543999");
      && UpdateRequest.ChangedFields(Seed001, d) == [UpdateRequest.Entry(ContactDetails, "9876543999")]
      && UpdateRequest.SubmitRequest(d, "phone change", now) == UpdateRequest.Submitted(UpdateRequest.RequestId(now))
  {
    var d := UpdateRequest.FieldChange(UpdateRequest.EmptyDraft, ContactDetails, "9876543999");
    assert d == [UpdateRequest.Entry(ContactDetails, "9876543999")];
    assert d[1..] == [];
    assert !IsWhitespace("phone change"[0]);
  }
}
