/** The data bank: the `users` and `projects` tables, their AUTOINCREMENT
    counters, the login session, and one method per handler that changes them. */
module DataBank {
  import opened Records
  import opened Queries
  import opened Access

  /** Every admin account is the seeded one: registration only ever creates
      role "user". */
  ghost predicate OnlySeededAdmin(accounts: seq<Account>) {
    forall a :: a in accounts && a.role == AdminRole ==>
      a.username == DefaultAdminName && a.password == DefaultAdminPassword
  }

  /** A session names an existing account and carries that account's role. */
  ghost predicate SessionOf(accounts: seq<Account>, session: Option<Session>) {
    session.Some? ==>
      exists a :: a in accounts && a.id == session.value.userId && a.role == session.value.role
  }

  /** Ids of `users` ascend, were all issued by the counter, and none
      exceeds it. */
  ghost predicate AccountKeys(accounts: seq<Account>, last: nat, issued: set<int>) {
    && AccountIdsAscending(accounts)
    && (forall x :: x in issued ==> 1 <= x <= last)
    && (forall k :: 0 <= k < |accounts| ==> accounts[k].id in issued)
  }

  /** The seeded admin is the first account, and it is the only admin. */
  ghost predicate AdminSeeded(accounts: seq<Account>) {
    && (accounts == [] || accounts[0].role == AdminRole)
    && OnlySeededAdmin(accounts)
  }

  /** The `users` table as the handlers leave it: well-formed keys, unique
      usernames, and the seeded admin as its first and only admin. */
  ghost predicate AccountTable(accounts: seq<Account>, last: nat, issued: set<int>) {
    && AccountKeys(accounts, last, issued)
    && UsernamesDistinct(accounts)
    && AdminSeeded(accounts)
  }

  lemma AccountKeysGrow(accounts: seq<Account>, last: nat, issued: set<int>, a: Account)
    requires AccountKeys(accounts, last, issued) && a.id == last + 1
    ensures AccountKeys(accounts + [a], last + 1, issued + {last + 1})
  {
    var all := accounts + [a];
    forall i, j | 0 <= i < j < |all| ensures all[i].id < all[j].id {
      if j == |accounts| {
        assert all[i].id in issued;
      }
    }
  }

  lemma AdminSeededGrows(accounts: seq<Account>, a: Account)
    requires AdminSeeded(accounts)
    requires HasAdmin(accounts) || a.role == AdminRole
    requires a.role == AdminRole ==> a.username == DefaultAdminName && a.password == DefaultAdminPassword
    ensures AdminSeeded(accounts + [a])
  {
    var all := accounts + [a];
    assert all[0] == if accounts == [] then a else accounts[0];
    assert a in all;
    assert forall x :: x in all ==> x in accounts || x == a;
    assert forall x :: x in accounts ==> x in all;
  }

  lemma SessionSurvivesAppend(accounts: seq<Account>, a: Account, session: Option<Session>)
    requires SessionOf(accounts, session)
    ensures SessionOf(accounts + [a], session)
  {
    assert forall x :: x in accounts ==> x in accounts + [a];
  }

  /** Appending an account under a free name, with the next id, keeps the
      `users` table well formed, and every session stays attached. */
  lemma AccountTableGrows(accounts: seq<Account>, last: nat, issued: set<int>, a: Account, session: Option<Session>)
    requires AccountTable(accounts, last, issued) && SessionOf(accounts, session)
    requires a.id == last + 1 && !UsernameTaken(accounts, a.username)
    requires HasAdmin(accounts) || a.role == AdminRole
    requires a.role == AdminRole ==> a.username == DefaultAdminName && a.password == DefaultAdminPassword
    ensures AccountTable(accounts + [a], last + 1, issued + {last + 1})
    ensures SessionOf(accounts + [a], session)
    ensures forall x :: x in issued ==> x < a.id
  {
    AccountKeysGrow(accounts, last, issued, a);
    AppendKeepsNamesDistinct(accounts, a);
    AdminSeededGrows(accounts, a);
    SessionSurvivesAppend(accounts, a, session);
  }

  /** The `projects` table as the handlers leave it: ids ascend and were all
      issued by the counter. */
  ghost predicate ProjectTable(projects: seq<Project>, last: nat, issued: set<int>) {
    && ProjectIdsAscending(projects)
    && (forall x :: x in issued ==> 1 <= x <= last)
    && (forall k :: 0 <= k < |projects| ==> projects[k].id in issued)
  }

  /** Appending a project with the next id keeps the `projects` table well formed. */
  lemma ProjectTableGrows(projects: seq<Project>, last: nat, issued: set<int>, p: Project)
    requires ProjectTable(projects, last, issued) && p.id == last + 1
    ensures ProjectTable(projects + [p], last + 1, issued + {last + 1})
  {
    var all := projects + [p];
    forall i, j | 0 <= i < j < |all| ensures all[i].id < all[j].id {
      if j == |projects| {
        assert all[i].id in issued;
      }
    }
  }

  class Store {
    var accounts: seq<Account>
    var projects: seq<Project>
    /** The largest id either table has ever issued (SQLite's `sqlite_sequence`). */
    var lastAccountId: nat
    var lastProjectId: nat
    var session: Option<Session>
    /** Every id ever issued, including those of rows since deleted. */
    ghost var issuedAccountIds: set<int>
    ghost var issuedProjectIds: set<int>

    ghost predicate Valid()
      reads this
    {
      && AccountTable(accounts, lastAccountId, issuedAccountIds)
      && ProjectTable(projects, lastProjectId, issuedProjectIds)
      && SessionOf(accounts, session)
    }

    /** A fresh database file: both tables created and empty, nobody logged in. */
    constructor ()
      ensures Valid()
      ensures accounts == [] && projects == [] && session == None
      ensures lastAccountId == 0 && lastProjectId == 0
    {
      accounts, projects := [], [];
      lastAccountId, lastProjectId := 0, 0;
      session := None;
      issuedAccountIds, issuedProjectIds := {}, {};
    }

    /** `INSERT INTO users`: the new row takes the id after the largest ever
        issued. Both callers first look the name up, and only the seeding
        inserts before an admin exists. */
    method InsertAccount(username: string, password: string, role: string) returns (id: int)
      requires Valid()
      requires !UsernameTaken(accounts, username)
      requires HasAdmin(accounts) || role == AdminRole
      requires role == AdminRole ==> username == DefaultAdminName && password == DefaultAdminPassword
      modifies this`accounts, this`lastAccountId, this`issuedAccountIds
      ensures Valid()
      ensures id == old(lastAccountId) + 1 == lastAccountId
      ensures forall x :: x in old(issuedAccountIds) ==> x < id
      ensures issuedAccountIds == old(issuedAccountIds) + {id}
      ensures accounts == old(accounts) + [Account(id, username, password, role)]
    {
      id := lastAccountId + 1;
      var a := Account(id, username, password, role);
      AccountTableGrows(accounts, lastAccountId, issuedAccountIds, a, session);
      accounts, lastAccountId, issuedAccountIds := accounts + [a], id, issuedAccountIds + {id};
    }

    /** Seeds `admin`/`admin123` with role admin when no account has role
        admin, and does nothing otherwise; after it an admin exists, so a
        second call changes nothing. */
    method InitDb()
      requires Valid()
      modifies this`accounts, this`lastAccountId, this`issuedAccountIds
      ensures Valid()
      ensures HasAdmin(accounts)
      ensures HasAdmin(old(accounts)) ==>
        accounts == old(accounts) && lastAccountId == old(lastAccountId) &&
        issuedAccountIds == old(issuedAccountIds)
      ensures !HasAdmin(old(accounts)) ==>
        && lastAccountId == old(lastAccountId) + 1
        && (forall x :: x in old(issuedAccountIds) ==> x < lastAccountId)
        && issuedAccountIds == old(issuedAccountIds) + {lastAccountId}
        && accounts == old(accounts) + [Account(lastAccountId, DefaultAdminName, DefaultAdminPassword, AdminRole)]
    {
      if !HasAdmin(accounts) {
        assert accounts == [];
        var id := InsertAccount(DefaultAdminName, DefaultAdminPassword, AdminRole);
        assert accounts[|accounts| - 1].role == AdminRole;
      }
    }

    /** Refuses a username some account already has, changing nothing.
        Otherwise appends one account with a fresh id and role "user",
        leaves every existing account as it was, and a login with the new
        credentials finds the new account. `main` seeds the database before
        it offers the registration form, so an admin already exists. */
    method Register(username: string, password: string) returns (ok: bool)
      requires Valid() && HasAdmin(accounts)
      modifies this`accounts, this`lastAccountId, this`issuedAccountIds
      ensures Valid()
      ensures ok <==> !UsernameTaken(old(accounts), username)
      ensures !ok ==>
        accounts == old(accounts) && lastAccountId == old(lastAccountId) &&
        issuedAccountIds == old(issuedAccountIds)
      ensures ok ==>
        && lastAccountId == old(lastAccountId) + 1
        && (forall x :: x in old(issuedAccountIds) ==> x < lastAccountId)
        && issuedAccountIds == old(issuedAccountIds) + {lastAccountId}
        && accounts == old(accounts) + [Account(lastAccountId, username, password, UserRole)]
        && FindLogin(accounts, username, password) == Some(Account(lastAccountId, username, password, UserRole))
    {
      if UsernameTaken(accounts, username) {
        ok := false;
      } else {
        ghost var before := accounts;
        var id := InsertAccount(username, password, UserRole);
        LoginFindsNewAccount(before, Account(id, username, password, UserRole));
        ok := true;
      }
    }

    /** Succeeds exactly when some account matches both username and
        password; usernames are unique, so the session then holds that one
        account's id and role. On failure the session is as it was. Only the
        seeded credentials lead to the admin dashboard. */
    method Login(username: string, password: string) returns (ok: bool)
      requires Valid()
      modifies this`session
      ensures Valid()
      ensures ok <==> FindLogin(accounts, username, password).Some?
      ensures ok ==> session == Some(Session(
        FindLogin(accounts, username, password).value.id,
        FindLogin(accounts, username, password).value.role))
      ensures forall a :: a in accounts && a.username == username && a.password == password ==>
        ok && session == Some(Session(a.id, a.role))
      ensures !ok ==> session == old(session)
      ensures ok && Route(session) == AdminDashboard ==>
        username == DefaultAdminName && password == DefaultAdminPassword
    {
      match FindLogin(accounts, username, password)
      case None =>
        ok := false;
      case Some(a) =>
        ghost var i :| 0 <= i < |accounts| && accounts[i] == a;
        assert a in accounts;
        forall b | b in accounts && b.username == username && b.password == password
          ensures b == a
        {
          SameNameSameAccount(accounts, a, b);
        }
        session := Some(Session(a.id, a.role));
        ok := true;
    }

    /** Clears the whole session. */
    method Logout()
      requires Valid()
      modifies this`session
      ensures Valid()
      ensures session == None
    {
      session := None;
    }

    /** Appends exactly one project owned by the session user. Its id is
        larger than every id ever issued, so a deleted project's id never
        comes back; every earlier row is unchanged, the owner's list grows
        by this row and no other user's list changes. */
    method AddProject(d: Details) returns (id: int)
      requires Valid() && Route(session) == UserDashboard
      modifies this`projects, this`lastProjectId, this`issuedProjectIds
      ensures Valid()
      ensures id == old(lastProjectId) + 1 == lastProjectId
      ensures forall x :: x in old(issuedProjectIds) ==> x < id
      ensures issuedProjectIds == old(issuedProjectIds) + {id}
      ensures projects == old(projects) + [Project(id, session.value.userId, d)]
      ensures exists a :: a in accounts && a.id == session.value.userId
      ensures ListOwn(projects, session.value.userId) ==
        ListOwn(old(projects), session.value.userId) + [Project(id, session.value.userId, d)]
      ensures forall u :: u != session.value.userId ==> ListOwn(projects, u) == ListOwn(old(projects), u)
    {
      var owner := session.value.userId;
      lastProjectId := lastProjectId + 1;
      id := lastProjectId;
      issuedProjectIds := issuedProjectIds + {id};
      ghost var before := projects;
      var p := Project(id, owner, d);
      ProjectTableGrows(projects, id - 1, old(issuedProjectIds), p);
      projects := projects + [p];
      ListOwnAppend(before, p, owner);
      forall u | u != owner ensures ListOwn(projects, u) == ListOwn(before, u) {
        ListOwnAppend(before, p, u);
      }
    }

    /** `UPDATE ... WHERE id=? AND user_id=?` with the session user: the
        eleven columns of the row with that id change only if the session
        user owns it; id and owner are kept, no other row changes, and no
        other user's list changes. `updated` tells whether a row matched. */
    method UserUpdate(pid: int, d: Details) returns (updated: bool)
      requires Valid() && Route(session) == UserDashboard
      modifies this`projects
      ensures Valid()
      ensures projects == Updated(old(projects), IdOwnedBy(pid, session.value.userId), d)
      ensures updated <==> exists p :: p in old(projects) && p.id == pid && p.ownerId == session.value.userId
      ensures !updated ==> projects == old(projects)
      ensures forall u :: u != session.value.userId ==> ListOwn(projects, u) == ListOwn(old(projects), u)
    {
      var owner := session.value.userId;
      var hit := IdOwnedBy(pid, owner);
      ghost var before := projects;
      updated := SetDetails(hit, pid, d);
      forall u | u != owner ensures ListOwn(projects, u) == ListOwn(before, u) {
        ListOwnUntouched(before, hit, d, u);
      }
    }

    /** `UPDATE ... WHERE id=?`: the eleven columns of the row with that id
        change whoever owns it; id and owner are kept and no other row
        changes. `updated` tells whether a row matched. */
    method AdminUpdate(pid: int, d: Details) returns (updated: bool)
      requires Valid() && Route(session) == AdminDashboard
      modifies this`projects
      ensures Valid()
      ensures projects == Updated(old(projects), IdIs(pid), d)
      ensures updated <==> exists p :: p in old(projects) && p.id == pid
      ensures !updated ==> projects == old(projects)
    {
      updated := SetDetails(IdIs(pid), pid, d);
    }

    /** The shared effect of both updates: `hit` picks rows with id `pid`
        (and possibly more conditions); ids are unique, so at most one. */
    method SetDetails(hit: Project -> bool, pid: int, d: Details) returns (updated: bool)
      requires Valid()
      requires forall p :: hit(p) ==> p.id == pid
      modifies this`projects
      ensures Valid()
      ensures projects == Updated(old(projects), hit, d)
      ensures updated <==> exists p :: p in old(projects) && hit(p)
      ensures !updated ==> projects == old(projects)
    {
      match FirstIndex(projects, hit)
      case None =>
        assert forall p :: p in projects ==> !hit(p);
        UpdatedNothing(projects, hit, d);
        updated := false;
      case Some(i) =>
        OthersHaveOtherIds(projects, i);
        UpdatedOneRow(projects, hit, d, i);
        UpdatedKeepsIdsAscending(projects, hit, d);
        projects := projects[i := projects[i].(details := d)];
        updated := true;
    }

    /** `DELETE FROM projects WHERE id=?`: removes exactly the row with that
        id, if any, keeping every other row and their order. */
    method AdminDelete(pid: int) returns (deleted: bool)
      requires Valid() && Route(session) == AdminDashboard
      modifies this`projects
      ensures Valid()
      ensures projects == Except(old(projects), pid)
      ensures deleted <==> exists p :: p in old(projects) && p.id == pid
      ensures |projects| == |old(projects)| - (if deleted then 1 else 0)
    {
      match FirstIndex(projects, IdIs(pid))
      case None =>
        ExceptMissing(projects, pid);
        deleted := false;
      case Some(i) =>
        ExceptCutsOneRow(projects, i);
        CutKeepsIdsAscending(projects, i);
        ghost var before := projects;
        projects := projects[..i] + projects[i + 1..];
        assert forall k :: 0 <= k < |projects| ==> projects[k] == before[if k < i then k else k + 1];
        deleted := true;
    }
  }
}
