/** The dispatch at the top level: which page the session leads to. */
module Access {
  import opened Records

  datatype Page = LoginOrRegister | AdminDashboard | UserDashboard

  /** The role text "admin" opens the admin dashboard; any other role text,
      whatever it is, opens the project leader dashboard. */
  function Dashboard(role: string): (v: Page)
    ensures v != LoginOrRegister
    ensures v == AdminDashboard <==> role == AdminRole
    ensures v == UserDashboard <==> role != AdminRole
  {
    if role == AdminRole then AdminDashboard else UserDashboard
  }

  /** Without a session only the login and registration forms are offered;
      with one, its role picks the dashboard. */
  function Route(session: Option<Session>): (v: Page)
    ensures v == LoginOrRegister <==> session.None?
    ensures session.Some? ==> v == Dashboard(session.value.role)
  {
    match session
    case None => LoginOrRegister
    case Some(s) => Dashboard(s.role)
  }
}
