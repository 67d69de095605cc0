/** The login page and the top-level page switch: who is logged in, and
    which page that shows. */
module Session {
  import opened Wrappers

  /** The two roles the login page can hand out. */
  const Admin: string := "admin1"
  const Head: string := "head1"

  /** The two login buttons. */
  datatype LoginButton = AdministratorLogin | HeadLogin

  /** The role a login button passes on. */
  function RoleOf(b: LoginButton): (role: string)
    ensures role == Admin || role == Head
    ensures role == Admin <==> b == AdministratorLogin
  {
    match b
    case AdministratorLogin => Admin
    case HeadLogin => Head
  }

  /** Both login buttons are disabled while either credential is empty. */
  predicate LoginDisabled(username: string, password: string) {
    username == "" || password == ""
  }

  /** `handleLogin(role)` on the login page: the role handed to `onLogin`,
      or `None` when `onLogin` is not called. There is no credential check:
      any two non-empty strings are accepted. */
  function HandleLogin(username: string, password: string, b: LoginButton): (r: Option<string>)
    ensures r.Some? <==> !LoginDisabled(username, password)
    ensures r.Some? ==> r.value == RoleOf(b)
  {
    if username != "" && password != "" then Some(RoleOf(b)) else None
  }

  /** `currentUser`: the logged-in role, if any. */
  type Session = Option<string>

  const Initial: Session := None

  /** `handleLogin` of the page switch: the session becomes the given role,
      whatever it was. */
  function Login(s: Session, role: string): Session {
    Some(role)
  }

  /** `handleLogout`: back to no session, whatever it was. */
  function Logout(s: Session): Session {
    None
  }

  datatype Page = LoginPage | Dashboard(role: string)

  /** The page rendered for a session; an empty role string is falsy and so
      shows the login page as well. */
  function PageOf(s: Session): (p: Page)
    ensures p.Dashboard? <==> s.Some? && s.value != ""
    ensures p.Dashboard? ==> p.role == s.value
  {
    if s.None? || s.value == "" then LoginPage else Dashboard(s.value)
  }

  /** Logging in with a role shows that role's dashboard from any session,
      and logging out from any session shows the login page again. */
  lemma LoginLogoutPages(s: Session, role: string)
    requires role != ""
    ensures PageOf(Login(s, role)) == Dashboard(role)
    ensures PageOf(Logout(s)) == LoginPage
    ensures Logout(Login(s, role)) == Initial
  {
  }

  /** A click on one of the controls of the page currently shown. */
  datatype Event = LoginClicked(username: string, password: string, button: LoginButton) | LogoutClicked

  /** One user action: the login buttons act only on the login page, the
      logout button only on the dashboard. */
  function Step(s: Session, e: Event): Session {
    match e
    case LoginClicked(u, p, b) =>
      if PageOf(s).LoginPage? then
        match HandleLogin(u, p, b)
        case Some(role) => Login(s, role)
        case None => s
      else s
    case LogoutClicked =>
      if PageOf(s).Dashboard? then Logout(s) else s
  }

  function Run(s: Session, es: seq<Event>): Session
    decreases |es|
  {
    if |es| == 0 then s else Run(Step(s, es[0]), es[1..])
  }

  /** No session, or one of the two roles. */
  predicate Valid(s: Session) {
    s.None? || s.value == Admin || s.value == Head
  }

  /** Every step keeps the session valid. */
  lemma StepValid(s: Session, e: Event)
    requires Valid(s)
    ensures Valid(Step(s, e))
    ensures e.LogoutClicked? ==> Step(s, e).None?
    ensures s.None? && e.LoginClicked? ==>
      Step(s, e) == HandleLogin(e.username, e.password, e.button)
  {
  }

  /** Every session reachable from the start is valid, and for it the
      dashboard is shown exactly when someone is logged in. */
  lemma {:induction false} ReachableValid(es: seq<Event>)
    ensures Valid(Run(Initial, es))
    ensures PageOf(Run(Initial, es)).Dashboard? <==> Run(Initial, es).Some?
  {
    RunValid(Initial, es);
  }

  lemma {:induction false} RunValid(s: Session, es: seq<Event>)
    requires Valid(s)
    ensures Valid(Run(s, es))
    decreases |es|
  {
    if |es| > 0 {
      StepValid(s, es[0]);
      RunValid(Step(s, es[0]), es[1..]);
    }
  }
}
