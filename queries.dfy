/** The read side of the two tables: the row selections and the row
    lookups that the SQL statements of the handlers perform. */
module Queries {
  import opened Records

  /** `ys` is `xs` with some elements dropped and the rest in their original order. */
  ghost predicate IsSubsequence<T>(ys: seq<T>, xs: seq<T>)
    decreases |xs|
  {
    if ys == [] then true
    else if xs == [] then false
    else (ys[0] == xs[0] && IsSubsequence(ys[1..], xs[1..])) || IsSubsequence(ys, xs[1..])
  }

  lemma {:induction false} SubsequenceTransitive<T>(a: seq<T>, b: seq<T>, c: seq<T>)
    requires IsSubsequence(a, b) && IsSubsequence(b, c)
    ensures IsSubsequence(a, c)
    decreases |c|
  {
    if a != [] {
      assert b != [] && c != [];
      if b[0] == c[0] && IsSubsequence(b[1..], c[1..]) {
        if a[0] == b[0] && IsSubsequence(a[1..], b[1..]) {
          SubsequenceTransitive(a[1..], b[1..], c[1..]);
        } else {
          SubsequenceTransitive(a, b[1..], c[1..]);
        }
      } else {
        SubsequenceTransitive(a, b, c[1..]);
      }
    }
  }

  /** The rows of `xs` that satisfy `keep`, in table order: the effect of a
      `WHERE` clause, or of a boolean mask over a data frame. */
  function Select<T(!new)>(xs: seq<T>, keep: T -> bool): (r: seq<T>)
    ensures |r| <= |xs|
    ensures forall x :: x in r <==> x in xs && keep(x)
  {
    if xs == [] then []
    else if keep(xs[0]) then [xs[0]] + Select(xs[1..], keep)
    else Select(xs[1..], keep)
  }

  /** A selection keeps the selected rows in their table order. */
  lemma {:induction false} SelectKeepsOrder<T(!new)>(xs: seq<T>, keep: T -> bool)
    ensures IsSubsequence(Select(xs, keep), xs)
  {
    if xs != [] {
      SelectKeepsOrder(xs[1..], keep);
      if keep(xs[0]) {
        assert ([xs[0]] + Select(xs[1..], keep))[1..] == Select(xs[1..], keep);
      }
    }
  }

  lemma {:induction false} SelectAll<T(!new)>(xs: seq<T>, keep: T -> bool)
    requires forall x :: x in xs ==> keep(x)
    ensures Select(xs, keep) == xs
  {
    if xs != [] {
      assert forall x :: x in xs[1..] ==> x in xs;
      SelectAll(xs[1..], keep);
    }
  }

  lemma {:induction false} SelectAppend<T(!new)>(xs: seq<T>, ys: seq<T>, keep: T -> bool)
    ensures Select(xs + ys, keep) == Select(xs, keep) + Select(ys, keep)
  {
    if xs == [] {
      assert xs + ys == ys;
    } else {
      assert (xs + ys)[1..] == xs[1..] + ys;
      SelectAppend(xs[1..], ys, keep);
    }
  }

  /** Two masks that agree on every row select the same rows. */
  lemma {:induction false} SelectSame<T(!new)>(xs: seq<T>, f: T -> bool, g: T -> bool)
    requires forall x :: x in xs ==> f(x) == g(x)
    ensures Select(xs, f) == Select(xs, g)
  {
    if xs != [] {
      assert forall x :: x in xs[1..] ==> x in xs;
      SelectSame(xs[1..], f, g);
    }
  }

  /** Applying mask `f` and then mask `g` selects what the single mask `h`
      (`f` and `g` together) selects. */
  lemma {:induction false} SelectTwice<T(!new)>(xs: seq<T>, f: T -> bool, g: T -> bool, h: T -> bool)
    requires forall x :: x in xs ==> h(x) == (f(x) && g(x))
    ensures Select(Select(xs, f), g) == Select(xs, h)
  {
    if xs != [] {
      assert forall x :: x in xs[1..] ==> x in xs;
      SelectTwice(xs[1..], f, g, h);
      if f(xs[0]) {
        assert Select(xs, f) == [xs[0]] + Select(xs[1..], f);
        assert Select(xs, f)[1..] == Select(xs[1..], f);
      }
    }
  }

  /** The position of the first row satisfying `wanted`, as `fetchone` returns
      the first row a query yields (table order). */
  function FirstIndex<T>(xs: seq<T>, wanted: T -> bool): (r: Option<nat>)
    ensures r.Some? ==> r.value < |xs| && wanted(xs[r.value])
    ensures r.Some? ==> forall j :: 0 <= j < r.value ==> !wanted(xs[j])
    ensures r.None? <==> forall j :: 0 <= j < |xs| ==> !wanted(xs[j])
  {
    if xs == [] then None
    else if wanted(xs[0]) then Some(0)
    else match FirstIndex(xs[1..], wanted)
      case None => None
      case Some(i) => Some(i + 1)
  }

  // ----- the id counters and keys -----

  /** Ids strictly increase along the table, so no id occurs twice. */
  ghost predicate AccountIdsAscending(accounts: seq<Account>) {
    forall i, j :: 0 <= i < j < |accounts| ==> accounts[i].id < accounts[j].id
  }

  ghost predicate ProjectIdsAscending(projects: seq<Project>) {
    forall i, j :: 0 <= i < j < |projects| ==> projects[i].id < projects[j].id
  }

  // ----- users -----

  function HasUsername(username: string): Account -> bool {
    (a: Account) => a.username == username
  }

  function HasCredentials(username: string, password: string): Account -> bool {
    (a: Account) => a.username == username && a.password == password
  }

  function HasRole(role: string): Account -> bool {
    (a: Account) => a.role == role
  }

  /** `SELECT * FROM users WHERE role='admin'` finds a row. */
  function HasAdmin(accounts: seq<Account>): (b: bool)
    ensures b <==> exists a :: a in accounts && a.role == AdminRole
  {
    FirstIndex(accounts, HasRole(AdminRole)).Some?
  }

  /** `SELECT * FROM users WHERE username=?` finds a row. */
  function UsernameTaken(accounts: seq<Account>, username: string): (b: bool)
    ensures b <==> exists a :: a in accounts && a.username == username
  {
    FirstIndex(accounts, HasUsername(username)).Some?
  }

  /** No account before position `i` has both `username` and `password`. */
  ghost predicate FirstWith(accounts: seq<Account>, i: int, username: string, password: string) {
    forall j :: 0 <= j < i && j < |accounts| ==> accounts[j].username != username || accounts[j].password != password
  }

  /** The row `SELECT id, role FROM users WHERE username=? AND password=?`
      fetches first: an account matching both fields exactly, and no earlier
      account does; `None` exactly when no account matches both. */
  function FindLogin(accounts: seq<Account>, username: string, password: string): (r: Option<Account>)
    ensures r.Some? ==> r.value.username == username && r.value.password == password
    ensures r.Some? ==> exists i :: 0 <= i < |accounts| && accounts[i] == r.value && FirstWith(accounts, i, username, password)
    ensures r.None? <==> forall a :: a in accounts ==> a.username != username || a.password != password
  {
    match FirstIndex(accounts, HasCredentials(username, password))
    case None => None
    case Some(i) => Some(accounts[i])
  }

  /** An account appended under a name nobody holds is what a login with its
      credentials finds. */
  lemma LoginFindsNewAccount(accounts: seq<Account>, a: Account)
    requires !UsernameTaken(accounts, a.username)
    ensures FindLogin(accounts + [a], a.username, a.password) == Some(a)
  {
    var all := accounts + [a];
    assert all[|accounts|] == a;
    assert forall j :: 0 <= j < |accounts| ==> all[j] in accounts;
  }

  /** With no earlier account under the same name, a login with an
      account's own credentials finds that account. */
  lemma LoginFindsHolder(accounts: seq<Account>, k: nat)
    requires k < |accounts|
    requires forall j :: 0 <= j < k ==> accounts[j].username != accounts[k].username
    ensures FindLogin(accounts, accounts[k].username, accounts[k].password) == Some(accounts[k])
  {
    var a := accounts[k];
    var r := FindLogin(accounts, a.username, a.password);
    assert HasCredentials(a.username, a.password)(a);
    ghost var i :| 0 <= i < |accounts| && accounts[i] == r.value && FirstWith(accounts, i, a.username, a.password);
    assert i == k;
  }

  /** No two accounts share a username. */
  ghost predicate UsernamesDistinct(accounts: seq<Account>) {
    forall i, j :: 0 <= i < j < |accounts| ==> accounts[i].username != accounts[j].username
  }

  /** Appending an account under a name nobody holds keeps the names distinct. */
  lemma AppendKeepsNamesDistinct(accounts: seq<Account>, a: Account)
    requires UsernamesDistinct(accounts) && !UsernameTaken(accounts, a.username)
    ensures UsernamesDistinct(accounts + [a])
  {
    var all := accounts + [a];
    forall i, j | 0 <= i < j < |all| ensures all[i].username != all[j].username {
      if j == |accounts| {
        assert all[i] in accounts;
      }
    }
  }

  /** With distinct names, a username picks out at most one account. */
  lemma SameNameSameAccount(accounts: seq<Account>, a: Account, b: Account)
    requires UsernamesDistinct(accounts)
    requires a in accounts && b in accounts && a.username == b.username
    ensures a == b
  {
    var i :| 0 <= i < |accounts| && accounts[i] == a;
    var j :| 0 <= j < |accounts| && accounts[j] == b;
    assert !(i < j) && !(j < i);
  }

  /** With distinct names, logging in with any stored account's credentials
      finds exactly that account. */
  lemma LoginFindsEveryAccount(accounts: seq<Account>, k: nat)
    requires UsernamesDistinct(accounts) && k < |accounts|
    ensures FindLogin(accounts, accounts[k].username, accounts[k].password) == Some(accounts[k])
  {
    var a := accounts[k];
    var r := FindLogin(accounts, a.username, a.password);
    assert HasCredentials(a.username, a.password)(a);
    assert r.value in accounts;
    SameNameSameAccount(accounts, r.value, a);
  }

  // ----- projects -----

  function OwnerIs(userId: int): Project -> bool {
    (p: Project) => p.ownerId == userId
  }

  function IdIs(pid: int): Project -> bool {
    (p: Project) => p.id == pid
  }

  function IdIsNot(pid: int): Project -> bool {
    (p: Project) => p.id != pid
  }

  function IdOwnedBy(pid: int, userId: int): Project -> bool {
    (p: Project) => p.id == pid && p.ownerId == userId
  }

  /** `SELECT ... FROM projects WHERE user_id=?`: exactly the rows owned by
      `userId`, in table order. */
  function ListOwn(projects: seq<Project>, userId: int): (r: seq<Project>)
    ensures forall p :: p in r <==> p in projects && p.ownerId == userId
  {
    Select(projects, OwnerIs(userId))
  }

  lemma ListOwnKeepsOrder(projects: seq<Project>, userId: int)
    ensures IsSubsequence(ListOwn(projects, userId), projects)
  {
    SelectKeepsOrder(projects, OwnerIs(userId));
  }

  /** The table after `UPDATE projects SET <eleven columns> WHERE <hit>`:
      the rows `hit` picks carry `d`, every row keeps its id and owner, and
      every other row is as it was. */
  function Updated(projects: seq<Project>, hit: Project -> bool, d: Details): (r: seq<Project>)
    ensures |r| == |projects|
    ensures forall i :: 0 <= i < |r| ==> r[i].id == projects[i].id && r[i].ownerId == projects[i].ownerId
    ensures forall i :: 0 <= i < |r| ==>
      r[i].details == (if hit(projects[i]) then d else projects[i].details)
  {
    if projects == [] then []
    else
      var p := projects[0];
      [if hit(p) then p.(details := d) else p] + Updated(projects[1..], hit, d)
  }

  /** The table after `DELETE FROM projects WHERE id=?`. */
  function Except(projects: seq<Project>, pid: int): (r: seq<Project>)
    ensures forall p :: p in r <==> p in projects && p.id != pid
  {
    Select(projects, IdIsNot(pid))
  }

  /** An update that picks no row leaves the table as it was. */
  lemma {:induction false} UpdatedNothing(projects: seq<Project>, hit: Project -> bool, d: Details)
    requires forall p :: p in projects ==> !hit(p)
    ensures Updated(projects, hit, d) == projects
  {
    if projects != [] {
      assert forall p :: p in projects[1..] ==> p in projects;
      UpdatedNothing(projects[1..], hit, d);
    }
  }

  /** An update that picks row `i` alone rewrites row `i` alone. */
  lemma UpdatedOneRow(projects: seq<Project>, hit: Project -> bool, d: Details, i: nat)
    requires i < |projects| && hit(projects[i])
    requires forall k :: 0 <= k < |projects| && k != i ==> !hit(projects[k])
    ensures Updated(projects, hit, d) == projects[i := projects[i].(details := d)]
  {
    var r := Updated(projects, hit, d);
    assert forall k :: 0 <= k < |r| ==> r[k] == projects[i := projects[i].(details := d)][k];
  }

  /** An update keeps ids where they were, so they stay ascending. */
  lemma UpdatedKeepsIdsAscending(projects: seq<Project>, hit: Project -> bool, d: Details)
    requires ProjectIdsAscending(projects)
    ensures ProjectIdsAscending(Updated(projects, hit, d))
  {
  }

  /** Cutting out one row keeps the ids ascending. */
  lemma CutKeepsIdsAscending(projects: seq<Project>, i: nat)
    requires ProjectIdsAscending(projects) && i < |projects|
    ensures ProjectIdsAscending(projects[..i] + projects[i + 1..])
  {
    var r := projects[..i] + projects[i + 1..];
    assert forall k :: 0 <= k < |r| ==> r[k] == projects[if k < i then k else k + 1];
  }

  /** Listing one owner's rows commutes with an update: the owner sees the
      updated rows, and an update never moves a row into or out of a list. */
  lemma {:induction false} ListOwnUpdated(projects: seq<Project>, hit: Project -> bool, d: Details, userId: int)
    ensures ListOwn(Updated(projects, hit, d), userId) == Updated(ListOwn(projects, userId), hit, d)
  {
    if projects != [] {
      var p := projects[0];
      var q := if hit(p) then p.(details := d) else p;
      assert Updated(projects, hit, d) == [q] + Updated(projects[1..], hit, d);
      ListOwnUpdated(projects[1..], hit, d, userId);
      if p.ownerId == userId {
        assert ListOwn(projects, userId) == [p] + ListOwn(projects[1..], userId);
      }
    }
  }

  /** An update that picks no row owned by `userId` leaves that user's list as it was. */
  lemma ListOwnUntouched(projects: seq<Project>, hit: Project -> bool, d: Details, userId: int)
    requires forall p :: p in projects && hit(p) ==> p.ownerId != userId
    ensures ListOwn(Updated(projects, hit, d), userId) == ListOwn(projects, userId)
  {
    ListOwnUpdated(projects, hit, d, userId);
    UpdatedNothing(ListOwn(projects, userId), hit, d);
  }

  /** Appending a row extends its owner's list by that row and no other list. */
  lemma ListOwnAppend(projects: seq<Project>, p: Project, userId: int)
    ensures ListOwn(projects + [p], userId) ==
      ListOwn(projects, userId) + (if p.ownerId == userId then [p] else [])
  {
    SelectAppend(projects, [p], OwnerIs(userId));
    assert Select([p], OwnerIs(userId)) == (if p.ownerId == userId then [p] else []) by {
      assert [p][1..] == [];
    }
  }

  /** Deleting an id no row carries leaves the table as it was. */
  lemma ExceptMissing(projects: seq<Project>, pid: int)
    requires forall k :: 0 <= k < |projects| ==> projects[k].id != pid
    ensures Except(projects, pid) == projects
  {
    SelectAll(projects, IdIsNot(pid));
  }

  /** With unique ids, deleting by the id of row `i` cuts out row `i` alone. */
  lemma ExceptCutsOneRow(projects: seq<Project>, i: nat)
    requires ProjectIdsAscending(projects) && i < |projects|
    ensures Except(projects, projects[i].id) == projects[..i] + projects[i + 1..]
  {
    var p := projects[i];
    var before, after := projects[..i], projects[i + 1..];
    assert projects == before + [p] + after;
    OthersHaveOtherIds(projects, i);
    assert forall k :: 0 <= k < |before| ==> before[k].id != p.id;
    assert forall k :: 0 <= k < |after| ==> after[k].id != p.id by {
      forall k | 0 <= k < |after| ensures after[k].id != p.id {
        assert after[k] == projects[i + 1 + k];
      }
    }
    ExceptMissing(before, p.id);
    ExceptMissing(after, p.id);
    ExceptSplit(before, p, after);
  }

  /** With ascending ids, no row but row `i` carries row `i`'s id. */
  lemma OthersHaveOtherIds(projects: seq<Project>, i: nat)
    requires ProjectIdsAscending(projects) && i < |projects|
    ensures forall k :: 0 <= k < |projects| && k != i ==> projects[k].id != projects[i].id
  {
  }

  /** Deleting the id of a row between two parts deletes from each part and drops that row. */
  lemma ExceptSplit(before: seq<Project>, p: Project, after: seq<Project>)
    ensures Except(before + [p] + after, p.id) == Except(before, p.id) + Except(after, p.id)
  {
    SelectAppend(before + [p], after, IdIsNot(p.id));
    SelectAppend(before, [p], IdIsNot(p.id));
    assert Select([p], IdIsNot(p.id)) == [] by {
      assert [p][1..] == [];
    }
  }
}
