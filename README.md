# Research Project Data Banking System — a Dafny model of its record store

The application is a Streamlit front end over two SQLite tables: `users`
(id, username, password, role) and `projects` (id, owning user id, and
eleven descriptive columns: title, leader, staff, start and completion
dates, budget, fund source, location, type of research, status, remarks).
A login stores the account's id and role in the session. The role `"admin"`
opens a dashboard that lists, searches, filters, edits and deletes every
project. Any other role opens a project leader dashboard that adds projects
and lists and edits the leader's own.

This project models that record store in memory:

- `records.dfy` (module `Records`): the row types, the status enumeration
  and its stored text, the session, and the seeded admin credentials.
- `queries.dfy` (module `Queries`): the read side of the SQL statements.
  It holds row selection (`WHERE`), the first matching row (`fetchone`), a
  user's own projects, and the table after an `UPDATE` or a `DELETE`, with
  lemmas relating them.
- `search.dfy` (module `Search`): the admin dashboard's title search and
  status filter, two successive masks over the rows.
- `access.dfy` (module `Access`): the top-level dispatch from session and
  role to a page.
- `store.dfy` (module `DataBank`): class `Store`. Its fields are the two
  tables, the two AUTOINCREMENT counters (the largest id each table ever
  issued) and the session. It has one method per handler. The object
  invariant `Valid()` says six things. Ids strictly increase along each
  table, so they are unique. Every id is at most its counter. No two
  accounts share a username. The first account, if any, is the admin.
  Every admin account is the seeded `admin`/`admin123`. The session names
  an existing account with that account's role.
- `scenario.dfy` (module `Scenario`): clients that use only the handlers'
  contracts. They seed twice, register a name twice, and log in with a
  wrong password. They also walk one project past two project leaders and
  the admin.

Each button press becomes one method call. The state the page reads back
after `st.rerun()` is the object's new state.

Notes on what `app.py` does:

- `main` seeds the database on every run (app.py:393), before it shows
  the registration form. Seeding checks for any account with role `admin`,
  not for the username.
- There is no audit log, no viewer role, no user-side delete and no
  account deletion.
- An update that matches no row is still shown as "updated successfully",
  and a delete of a missing id as "Project deleted."; no not-found error is
  raised. The model's update and delete methods return whether a row
  matched (the statement's row count). The message itself is UI and is not
  modelled.

## Model

| member | source | states |
|---|---|---|
| `Records.Label` | app.py:213 | The stored text of every status is one of the four picker options. |
| `Records.ParseStatus` | app.py:211-216 | Stored status text maps back to a status exactly when it is that status's label ("New", "Completed", "Continuing", "On-going"). It maps to some status exactly when the text is one of the picker's options; any other text gives `None`, where `list.index` raises. |
| `Queries.Select` | app.py:139-143 | A row is kept exactly when it is in the input and passes the mask. The result is never longer than the input. |
| `Queries.FirstIndex` | app.py:94 | `fetchone`: the position of a row that satisfies the condition, with no earlier row satisfying it. `None` exactly when no row satisfies it. |
| `Queries.HasAdmin` | app.py:46-47 | True exactly when some account has role `admin`. |
| `Queries.UsernameTaken` | app.py:67-68 | True exactly when some account has that username. |
| `Queries.FindLogin` | app.py:90-94 | Returns an account whose username and password both equal the input, and no earlier account matches both. Returns `None` exactly when no account matches both. |
| `Queries.LoginFindsNewAccount` | app.py:67-74 | When no account holds a name, a login with the credentials of an account appended under that name finds that account. |
| `Queries.LoginFindsHolder` | app.py:90-94 | If no earlier account has the same username, logging in with an account's own credentials finds that account. |
| `Queries.AppendKeepsNamesDistinct` | app.py:67-74 | Inserting an account only after the name was found free keeps all usernames distinct. |
| `Queries.SameNameSameAccount` | app.py:67-69 | With distinct usernames, two stored accounts with the same name are the same account. |
| `Queries.LoginFindsEveryAccount` | app.py:90-94 | With distinct usernames, logging in with any stored account's credentials finds exactly that account. |
| `Queries.ListOwn` | app.py:304-320 | A row is listed exactly when it is in the table and its owner is the given user. |
| `Queries.ListOwnKeepsOrder` | app.py:304-320 | The listed rows are a subsequence of the table: they keep table order. |
| `Queries.ListOwnAppend` | app.py:281-293 | Appending a row extends its owner's list by that row at the end. Every other user's list is unchanged. |
| `Queries.Updated` | app.py:226-238 | Same length as the table. Every row keeps its id and owner. The rows the condition picks carry the new eleven columns. Every other row keeps its own. |
| `Queries.UpdatedNothing` | app.py:362-375 | An update whose condition picks no row leaves the table exactly as it was. |
| `Queries.UpdatedOneRow` | app.py:226-238 | If the condition picks row `i` alone, the update rewrites the columns of row `i` alone. |
| `Queries.UpdatedKeepsIdsAscending` | app.py:226-238 | An update keeps the ids strictly ascending, so they stay unique. |
| `Queries.ListOwnUpdated` | app.py:362-375 | Listing a user's rows commutes with any update. The owner sees the updated rows, and no row enters or leaves any user's list. |
| `Queries.ListOwnUntouched` | app.py:362-375 | An update that picks no row owned by a user leaves that user's list unchanged. |
| `Queries.Except` | app.py:246 | A row survives deletion by id exactly when it was in the table and has a different id. |
| `Queries.ExceptMissing` | app.py:246 | Deleting an id that no row carries leaves the table as it was. |
| `Queries.ExceptCutsOneRow` | app.py:246 | With unique ids, deleting by row `i`'s id removes row `i` and nothing else. The other rows keep their order. |
| `Queries.CutKeepsIdsAscending` | app.py:246 | Removing a row keeps the ids strictly ascending. |
| `Queries.OthersHaveOtherIds` | app.py:30 | With ascending ids, no row other than row `i` carries row `i`'s id: the key is unique. |
| `Search.Lower` | app.py:140 | Same length as the input. No ASCII capital letter is left. Each character is kept or replaced by its own lower-case letter, and only capital letters change. |
| `Search.LowerIdempotent` | app.py:140 | Lower-casing a lower-cased text changes nothing. |
| `Search.LowerEqual` | app.py:140 | Two texts have the same lower-case form exactly when they have equal length and agree at every position up to the case of an ASCII letter. |
| `Search.Filter` | app.py:137-143 | A row is shown exactly when it is in the input and passes both tests. The title test: the search is empty, or the title contains it ignoring case. The status test: the picker is "All", or the row's status equals the chosen one exactly. An empty search with "All" returns the input unchanged. |
| `Search.FilterIsOnePass` | app.py:137-143 | Applying the search mask and then the status mask gives the same rows as one single mask over both conditions. |
| `Search.FilterKeepsOrder` | app.py:137-143 | The filtered rows are a subsequence of the input: each mask keeps the order of what it is given. |
| `Search.FilterIdempotent` | app.py:137-143 | Filtering already filtered rows with the same inputs changes nothing. |
| `Search.FilterIgnoresCase` | app.py:140 | Two searches of equal length that agree at every position up to the case of an ASCII letter show the same rows. |
| `Search.SearchExample` | app.py:138-141 | Over the titles "Alpha Survey" and "Beta Study", both "alpha" and "ALPHA" show the "Alpha Survey" row alone. |
| `Access.Dashboard` | app.py:403-406 | The role `"admin"` leads to the admin dashboard. Every other role leads to the project leader dashboard. The login page is never chosen. |
| `Access.Route` | app.py:395-406 | With no session, the login and registration page is shown. With a session, its role picks the dashboard. |
| `DataBank.Store.constructor` | app.py:19-44 | Both tables are empty, both counters are zero, nobody is logged in, and the invariant holds. |
| `DataBank.Store.InsertAccount` | app.py:21 | Appends one account whose id is one more than the largest id ever issued. That id is larger than every earlier id. The invariant is kept, distinct usernames included, for a name not yet taken. |
| `DataBank.Store.InitDb` | app.py:46-51 | If no account has role admin, appends `admin`/`admin123` with role admin and a fresh id. Otherwise it changes nothing. Afterwards an admin exists, so a second call changes nothing (idempotent). |
| `DataBank.Store.Register` | app.py:67-74 | A taken username changes nothing and returns false. Otherwise it appends exactly one account with a fresh id, the given credentials and role `user`. Existing accounts are kept, usernames stay distinct, and a login with the new credentials finds the new account. It requires an admin to exist already, since `main` seeds first. |
| `DataBank.Store.Login` | app.py:90-102 | Succeeds exactly when some account matches both fields. Usernames are unique, so the session then holds that account's id and role. On failure the session is unchanged. A login that reaches the admin dashboard used the seeded credentials. |
| `DataBank.Store.Logout` | app.py:386 | The session is empty afterwards. |
| `DataBank.Store.AddProject` | app.py:281-293 | Appends exactly one row, owned by the session user, who is an existing account. Its id is larger than every id ever issued, so ids of deleted rows are not reused. Earlier rows are untouched. The owner's list grows by that row, and no other user's list changes. |
| `DataBank.Store.UserUpdate` | app.py:362-375 | The table becomes the update that picks rows with that id and the session user as owner. `updated` is true exactly when such a row existed; otherwise the table is unchanged. Ids and owners are kept, and no other user's list changes. |
| `DataBank.Store.AdminUpdate` | app.py:226-238 | The table becomes the update that picks the row with that id, whoever owns it. Ids and owners are kept. `updated` is true exactly when such a row existed; otherwise the table is unchanged. |
| `DataBank.Store.SetDetails` | app.py:226-238 | The shared effect of both updates. The table becomes the update over the condition, which picks only rows with the given id. `updated` is true exactly when a row was picked; otherwise the table is unchanged. The invariant is kept. |
| `DataBank.Store.AdminDelete` | app.py:246 | The table becomes the rows whose id differs, in order. `deleted` is true exactly when a row had that id, and the table then has one row fewer. |

## Left out

- The Streamlit widgets are not modelled: layout, form keys, success and error messages, `st.rerun`, and the data-frame display. Each button press is a method call whose arguments are the form's values.
- The SQLite connection is not modelled (`check_same_thread=False`, commits, closing). Several sessions writing to one database file are not modelled either: the model has one store and one session.
- Rows come back in table order. SQLite gives no order without `ORDER BY`; the model assumes the rowid order that a plain table scan yields.
- The Excel export (app.py:150-161) is library I/O with no logic of its own.
- Search.Filter: the search is a literal substring match with ASCII-only lower-casing. pandas' `str.contains` reads the search as a regular expression and folds case by Unicode rules; the model does neither.
- Search.Lower: only `A`–`Z` are lower-cased. Other letters are left as they are.
- Budgets are non-negative reals (the input widgets' `min_value=0.0`). There is no float rounding and no display formatting.
- Dates are the text the forms store. Parsing and display formatting by the date widgets are not modelled.
- DataBank.Store.AddProject: does not model SQLite's failure once an id would exceed 2^63-1, because the counters are unbounded.
- DataBank.Store.InsertAccount: does not model that same id limit.
- DataBank.Store.AddProject and DataBank.Store.UserUpdate require the session to route to the project leader dashboard. The admin methods require it to route to the admin dashboard. That dispatch in `main` is the only way to reach each handler.
- The admin dashboard's early return when the table is empty (app.py:167-170) is not modelled, nor is the choice of a project id from the listed ids. The update and delete methods accept any id and report when none matched.
- The invariant assumes the store starts from an empty database that only these handlers change. A database edited by other means could hold a second admin or two accounts with one name.
- DataBank.Store.Register requires an admin to exist. `main` calls `init_db` (app.py:393) before it can show the registration form (app.py:400), so registration before seeding cannot happen.
- Passwords are compared as stored plain text, as the source does. No hashing is modelled.
- Behaviour that `app.py` does not have is not invented: there is no audit trail, no viewer role, and no deletion by a project leader.
