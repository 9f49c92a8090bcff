/** The route-protection decisions: the client helpers of
    lib/supabase/auth-utils.ts, the server helpers of lib/supabase/auth.ts,
    the home page's role redirect (app/page.tsx) and the role gates at the
    top of the two dashboards. The auth provider's user and the `users`
    row's role column are inputs; a decision is the page to redirect to, or
    leave to proceed. */
module Access {

  import opened Wrappers

  /** The signed-in user as the auth provider reports it. */
  datatype User = User(id: string, emailConfirmed: bool)

  /** The two roles a page can require. */
  datatype Role = Student | Teacher

  /** The text stored in the `role` column for a role. */
  function RoleName(role: Role): string {
    match role
    case Student => "student"
    case Teacher => "teacher"
  }

  datatype Page = LoginPage | HomePage | StudentDashboardPage | TeacherDashboardPage

  /** A gate's decision: redirect, or let the page load. */
  datatype Decision = Redirect(to: Page) | Proceed

  /** `UserRole`: the profile's role, null when missing, and the user's id. */
  datatype UserRole = UserRole(role: Option<string>, userId: string)

  /** `getUserRole`. `profileRole` is the role column of the user's `users`
      row, `None` when the row or the column is missing; `|| null` also turns
      an empty role into null. */
  function GetUserRole(user: Option<User>, profileRole: Option<string>): (r: UserRole)
    ensures user.None? ==> r == UserRole(None, "")
    ensures user.Some? ==> r.userId == user.value.id
    ensures user.Some? ==> (r.role.None? <==> profileRole.None? || profileRole == Some(""))
    ensures r.role.Some? ==> r.role == profileRole && r.role != Some("")
  {
    match user
    case None => UserRole(None, "")
    case Some(u) => UserRole(if profileRole == Some("") then None else profileRole, u.id)
  }

  /** `isAuthenticated`: true exactly when the provider returns a user. */
  predicate IsAuthenticated(user: Option<User>): (b: bool)
    ensures b <==> user != None
  {
    user.Some?
  }

  /** `isEmailConfirmed`: no user is not confirmed; a user is confirmed when
      the provider has set `email_confirmed_at`. */
  predicate IsEmailConfirmed(user: Option<User>): (b: bool)
    ensures user.None? ==> !b
    ensures user.Some? ==> (b <==> user.value.emailConfirmed)
  {
    user.Some? && user.value.emailConfirmed
  }

  /** `requireAuthClient`: with no user, go to the login page and hand back
      nothing; otherwise hand back the user. */
  function RequireAuthClient(user: Option<User>): (r: (Decision, Option<User>))
    ensures r.1 == user
    ensures r.0 == Proceed <==> IsAuthenticated(user)
    ensures r.0.Redirect? ==> r.0.to == LoginPage
  {
    if user.None? then (Redirect(LoginPage), None) else (Proceed, user)
  }

  /** A confirmed e-mail implies a signed-in user, who passes
      `requireAuthClient`. */
  lemma ConfirmedPassesAuth(user: Option<User>)
    ensures IsEmailConfirmed(user) ==> IsAuthenticated(user)
    ensures IsEmailConfirmed(user) ==> RequireAuthClient(user).0 == Proceed
  {
  }

  /** `requireRoleClient`: a missing or empty role (`!role`) goes to the
      login page, another role to the home page, and the expected role
      proceeds with the role record. */
  function RequireRoleClient(ur: UserRole, expected: Role): (r: (Decision, Option<UserRole>))
    ensures r.0 == Proceed <==> ur.role == Some(RoleName(expected))
    ensures r.0 == Redirect(LoginPage) <==> ur.role.None? || ur.role == Some("")
    ensures r.0 == Redirect(HomePage) <==> ur.role.Some? && ur.role.value != "" && ur.role.value != RoleName(expected)
    ensures r.1.Some? <==> r.0 == Proceed
    ensures r.1.Some? ==> r.1.value == ur
  {
    if ur.role.None? || ur.role.value == "" then (Redirect(LoginPage), None)
    else if ur.role.value != RoleName(expected) then (Redirect(HomePage), None)
    else (Proceed, Some(ur))
  }

  /** `requireAuth`: no user goes to the login page. */
  function RequireAuth(user: Option<User>): (d: Decision)
    ensures d == Proceed <==> IsAuthenticated(user)
    ensures d.Redirect? ==> d.to == LoginPage
  {
    if user.None? then Redirect(LoginPage) else Proceed
  }

  /** `requireRole`: authentication first, then a profile role that is not
      the required one, a missing profile included, goes to the home page. */
  function RequireRole(user: Option<User>, profileRole: Option<string>, role: Role): (d: Decision)
    ensures user.None? ==> d == RequireAuth(user)
    ensures user.Some? ==> (d == Proceed <==> profileRole == Some(RoleName(role)))
    ensures user.Some? && d.Redirect? ==> d.to == HomePage
  {
    if RequireAuth(user).Redirect? then RequireAuth(user)
    else if profileRole != Some(RoleName(role)) then Redirect(HomePage)
    else Proceed
  }

  /** The profile is only read after authentication: with no user the
      decision does not depend on it. */
  lemma RequireRoleAuthenticatesFirst(p1: Option<string>, p2: Option<string>, role: Role)
    ensures RequireRole(None, p1, role) == RequireRole(None, p2, role) == Redirect(LoginPage)
  {
  }

  /** The client and server role checks agree except on a user without a
      role, whom the client sends to the login page and the server to the
      home page. */
  lemma RoleChecksAgreeIff(user: User, profileRole: Option<string>, role: Role)
    ensures RequireRoleClient(GetUserRole(Some(user), profileRole), role).0 == RequireRole(Some(user), profileRole, role)
      <==> profileRole.Some? && profileRole != Some("")
  {
  }

  /** The home page: no user goes to the login page, the teacher role to the
      teacher dashboard, and any other role, or none, to the student
      dashboard. */
  function Home(user: Option<User>, profileRole: Option<string>): (d: Decision)
    ensures d.Redirect?
    ensures d.to == LoginPage <==> user.None?
    ensures d.to == TeacherDashboardPage <==> user.Some? && profileRole == Some(RoleName(Teacher))
    ensures d.to == StudentDashboardPage <==> user.Some? && profileRole != Some(RoleName(Teacher))
  {
    if user.None? then Redirect(LoginPage)
    else if profileRole == Some(RoleName(Teacher)) then Redirect(TeacherDashboardPage)
    else Redirect(StudentDashboardPage)
  }

  /** A dashboard's gate: no user goes to the login page; a missing profile
      or another role goes to the home page. */
  function DashboardGate(user: Option<User>, profileRole: Option<string>, role: Role): (d: Decision)
    ensures d == Proceed <==> user.Some? && profileRole == Some(RoleName(role))
    ensures d == Redirect(LoginPage) <==> user.None?
    ensures d == Redirect(HomePage) <==> user.Some? && profileRole != Some(RoleName(role))
  {
    if user.None? then Redirect(LoginPage)
    else if profileRole.None? || profileRole.value != RoleName(role) then Redirect(HomePage)
    else Proceed
  }

  /** The dashboard gates take the same decision as the server's
      `requireRole`. */
  lemma DashboardGateIsRequireRole(user: Option<User>, profileRole: Option<string>, role: Role)
    ensures DashboardGate(user, profileRole, role) == RequireRole(user, profileRole, role)
  {
  }

  /** What loading a page decides. The login page is outside this model and
      always loads. */
  function Visit(page: Page, user: Option<User>, profileRole: Option<string>): Decision {
    match page
    case LoginPage => Proceed
    case HomePage => Home(user, profileRole)
    case StudentDashboardPage => DashboardGate(user, profileRole, Student)
    case TeacherDashboardPage => DashboardGate(user, profileRole, Teacher)
  }

  /** Follows redirects from `page` for at most `fuel` loads; the page that
      finally loads, or `None` if none did. */
  function Settle(page: Page, user: Option<User>, profileRole: Option<string>, fuel: nat): Option<Page>
    decreases fuel
  {
    if fuel == 0 then None
    else match Visit(page, user, profileRole)
      case Proceed => Some(page)
      case Redirect(next) => Settle(next, user, profileRole, fuel - 1)
  }

  /** A signed-in user whose role is neither student nor teacher. */
  predicate Roleless(user: Option<User>, profileRole: Option<string>) {
    user.Some? && profileRole != Some(RoleName(Student)) && profileRole != Some(RoleName(Teacher))
  }

  /** For such a user the home page sends to the student dashboard, which
      sends back home: no number of loads settles. */
  lemma {:induction false} RolelessNeverSettles(page: Page, user: Option<User>, profileRole: Option<string>, fuel: nat)
    requires Roleless(user, profileRole)
    requires page == HomePage || page == StudentDashboardPage
    ensures Settle(page, user, profileRole, fuel).None?
    decreases fuel
  {
    if fuel > 0 {
      var next := if page == HomePage then StudentDashboardPage else HomePage;
      assert Visit(page, user, profileRole) == Redirect(next);
      RolelessNeverSettles(next, user, profileRole, fuel - 1);
    }
  }

  /** Every other visitor of the home page lands within three loads: on the
      login page, or on the dashboard of their role. */
  lemma HomeSettlesIff(user: Option<User>, profileRole: Option<string>)
    ensures Settle(HomePage, user, profileRole, 3).Some? <==> !Roleless(user, profileRole)
    ensures user.None? ==> Settle(HomePage, user, profileRole, 3) == Some(LoginPage)
    ensures user.Some? && profileRole == Some(RoleName(Teacher)) ==> Settle(HomePage, user, profileRole, 3) == Some(TeacherDashboardPage)
    ensures user.Some? && profileRole == Some(RoleName(Student)) ==> Settle(HomePage, user, profileRole, 3) == Some(StudentDashboardPage)
  {
    if Roleless(user, profileRole) {
      RolelessNeverSettles(HomePage, user, profileRole, 3);
    }
  }

  /** The three places a signed-in user without a profile is sent: the login
      page by `requireRoleClient`, the home page by `requireRole`, and the
      student dashboard by the home page. */
  lemma MissingProfileThreeWays(user: User, role: Role)
    ensures RequireRoleClient(GetUserRole(Some(user), None), role).0 == Redirect(LoginPage)
    ensures RequireRole(Some(user), None, role) == Redirect(HomePage)
    ensures Home(Some(user), None) == Redirect(StudentDashboardPage)
  {
  }
}
