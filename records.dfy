/** The values held in the `users` and `projects` tables and in the login session. */
module Records {

  datatype Option<T> = None | Some(value: T)

  /** The four statuses every status picker offers. */
  datatype Status = New | Completed | Continuing | OnGoing

  /** The option list of every status picker, in the order it shows them. */
  const StatusOptions: seq<string> := ["New", "Completed", "Continuing", "On-going"]

  /** The text the status column holds for each status: one of the picker's options. */
  function Label(s: Status): (r: string)
    ensures r in StatusOptions
  {
    match s
    case New => "New"
    case Completed => "Completed"
    case Continuing => "Continuing"
    case OnGoing => "On-going"
  }

  /** Stored status text back to the picker option, as `list.index` does
      when an edit form is pre-filled; `None` where `index` would raise. */
  function ParseStatus(t: string): (r: Option<Status>)
    ensures forall s :: r == Some(s) <==> Label(s) == t
    ensures r.Some? <==> t in StatusOptions
  {
    if t == "New" then Some(New)
    else if t == "Completed" then Some(Completed)
    else if t == "Continuing" then Some(Continuing)
    else if t == "On-going" then Some(OnGoing)
    else None
  }

  /** A budget: the input widgets never accept a value below zero. */
  type Budget = r: real | 0.0 <= r

  /** The eleven columns of a project row that the add and edit forms set.
      Dates are the text the forms produce. */
  datatype Details = Details(
    title: string,
    leader: string,
    staff: string,
    startDate: string,
    completionDate: string,
    budget: Budget,
    fundSource: string,
    location: string,
    researchType: string,
    status: Status,
    remarks: string)

  /** A row of `projects`: its key, the owning account's id, and the editable columns. */
  datatype Project = Project(id: int, ownerId: int, details: Details)

  /** A row of `users`. */
  datatype Account = Account(id: int, username: string, password: string, role: string)

  /** What a successful login stores in the session. */
  datatype Session = Session(userId: int, role: string)

  const AdminRole: string := "admin"
  const UserRole: string := "user"

  /** The account seeded when no admin exists. */
  const DefaultAdminName: string := "admin"
  const DefaultAdminPassword: string := "admin123"
}
