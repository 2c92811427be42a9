/** Clients of the data bank that rely on the handlers' contracts alone. */
module Scenario {
  import opened Records
  import opened Queries
  import opened Access
  import opened DataBank

  /** Seeding twice adds one admin; a name, the admin's included, is
      registered once; a wrong password is refused and leaves nobody
      logged in. */
  method Accounts() {
    var db := Seeded();
    var u1 := RegisterOnce(db);
    LoginChecks(db, u1);
  }

  /** A fresh database seeded twice holds the one seeded admin. */
  method Seeded() returns (db: Store)
    ensures fresh(db) && db.Valid() && db.projects == [] && db.session == None
    ensures |db.accounts| == 1
    ensures db.accounts[0] == Account(db.accounts[0].id, DefaultAdminName, DefaultAdminPassword, AdminRole)
  {
    db := new Store();
    db.InitDb();
    var seeded := db.accounts;
    db.InitDb();
    assert db.accounts == seeded;
  }

  method RegisterOnce(db: Store) returns (u1: int)
    requires db.Valid() && db.session == None && |db.accounts| == 1
    requires db.accounts[0] == Account(db.accounts[0].id, DefaultAdminName, DefaultAdminPassword, AdminRole)
    modifies db
    ensures db.Valid() && db.session == None && |db.accounts| == 2
    ensures db.accounts[1] == Account(u1, "u1", "pw1", UserRole)
  {
    assert db.accounts[0] in db.accounts;
    var ok := db.Register("u1", "pw1");
    assert ok;
    u1 := db.lastAccountId;
    assert db.accounts[1] in db.accounts;
    ok := db.Register("u1", "other");
    assert !ok;
    ok := db.Register("admin", "other");
    assert !ok;
  }

  method LoginChecks(db: Store, u1: int)
    requires db.Valid() && db.session == None && |db.accounts| == 2
    requires db.accounts[1] == Account(u1, "u1", "pw1", UserRole)
    modifies db
  {
    assert db.accounts[1] in db.accounts;
    var ok := db.Login("u1", "pw2");
    assert !ok && db.session == None;
    ok := db.Login("u1", "pw1");
    assert ok && Route(db.session) == UserDashboard;
  }

  /** One project between two project leaders and the admin: the owner sees
      it, the other leader can neither see nor update it, the owner's update
      lands, the admin deletes it, and its id is not issued again. */
  method SoilMapping() {
    var db, u1, u2 := ThreeAccounts();
    var d := Details("Soil Mapping", "", "", "2024-01-01", "2024-12-31", 50000.0, "", "", "", New, "");
    var pid := OwnerAdds(db, u1, d);
    OtherLeaderIsShutOut(db, u2, pid, d);
    var done := d.(status := Completed);
    OwnerUpdates(db, u1, pid, d, done);
    AdminDeletes(db, pid);
  }

  method ThreeAccounts() returns (db: Store, u1: int, u2: int)
    ensures fresh(db) && db.Valid() && db.projects == []
    ensures |db.accounts| == 3
    ensures db.accounts[0] == Account(db.accounts[0].id, DefaultAdminName, DefaultAdminPassword, AdminRole)
    ensures db.accounts[1] == Account(u1, "u1", "pw1", UserRole)
    ensures db.accounts[2] == Account(u2, "u2", "pw2", UserRole)
  {
    db := Seeded();
    assert db.accounts[0] in db.accounts;
    var ok := db.Register("u1", "pw1");
    u1 := db.lastAccountId;
    ok := db.Register("u2", "pw2");
    u2 := db.lastAccountId;
  }

  method OwnerAdds(db: Store, u1: int, d: Details) returns (pid: int)
    requires db.Valid() && db.projects == [] && |db.accounts| == 3
    requires db.accounts[1] == Account(u1, "u1", "pw1", UserRole)
    modifies db
    ensures db.Valid() && db.accounts == old(db.accounts)
    ensures db.projects == [Project(pid, u1, d)] && pid in db.issuedProjectIds
  {
    assert db.accounts[1] in db.accounts;
    var ok := db.Login("u1", "pw1");
    assert db.session == Some(Session(u1, UserRole));
    pid := db.AddProject(d);
    assert ListOwn([], u1) == [];
    assert ListOwn(db.projects, u1) == [Project(pid, u1, d)];
    db.Logout();
  }

  method OtherLeaderIsShutOut(db: Store, u2: int, pid: int, d: Details)
    requires db.Valid() && |db.accounts| == 3 && |db.projects| == 1
    requires db.accounts[2] == Account(u2, "u2", "pw2", UserRole)
    requires db.projects[0].id == pid && db.projects[0].ownerId != u2
    modifies db
    ensures db.Valid() && db.accounts == old(db.accounts) && db.projects == old(db.projects)
    ensures db.issuedProjectIds == old(db.issuedProjectIds)
  {
    assert db.accounts[2] in db.accounts;
    var ok := db.Login("u2", "pw2");
    assert db.session == Some(Session(u2, UserRole));
    assert db.projects[0] in db.projects;
    var changed := db.UserUpdate(pid, d.(status := Completed));
    assert !changed;
    db.Logout();
  }

  method OwnerUpdates(db: Store, u1: int, pid: int, d: Details, done: Details)
    requires db.Valid() && |db.accounts| == 3 && db.projects == [Project(pid, u1, d)]
    requires db.accounts[1] == Account(u1, "u1", "pw1", UserRole)
    modifies db
    ensures db.Valid() && db.accounts == old(db.accounts)
    ensures db.projects == [Project(pid, u1, done)]
    ensures db.issuedProjectIds == old(db.issuedProjectIds)
  {
    assert db.accounts[1] in db.accounts;
    var ok := db.Login("u1", "pw1");
    var changed := db.UserUpdate(pid, done);
    assert db.projects[0] == Project(pid, u1, done);
    db.Logout();
  }

  method AdminDeletes(db: Store, pid: int)
    requires db.Valid() && |db.projects| == 1 && db.projects[0].id == pid && |db.accounts| > 0
    requires db.accounts[0] == Account(db.accounts[0].id, DefaultAdminName, DefaultAdminPassword, AdminRole)
    modifies db
  {
    assert db.accounts[0] in db.accounts;
    var ok := db.Login(DefaultAdminName, DefaultAdminPassword);
    assert Route(db.session) == AdminDashboard;
    var deleted := db.AdminDelete(pid);
    assert deleted && db.projects == [];
    db.Logout();
  }
}
