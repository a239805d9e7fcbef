# Habit tracker: data access and authorization, in Dafny

This project models the core of a habit-tracking web backend. Users register and log in
for a bearer token. They then create, list, update, delete and toggle the daily
completion of their own habits. Two layers are modelled:

- `crud.dfy` (module `Crud`): the data-access functions of `sql_app/crud.py`, as a `Store`
  class whose `users` and `habits` sequences stand for the two tables, in insertion order.
  Queries are functions over those sequences. Writes are methods that reassign them, each
  one atomic (the session's `add`, `delete`, `commit` and `refresh` together).
- `main.dfy` (module `Main`): the request handlers of `sql_app/main.py`. Each one returns
  `Ok(value)` or `Err(status code)` in place of raising an HTTP exception.

`query.dfy` (module `Query`) gives the meaning of the three query shapes the source
uses: `filter`, `.first()` and `.offset(skip).limit(limit)`. `wrappers.dfy` holds `Option`
and `Result`.

How outside things are represented:

- Days are integers. The toggle takes `today` as a parameter.
- A protected handler gets the decoded token as `subject: Option<string>`. It is the
  `sub` claim, or `None` when decoding fails or the claim is missing.
- Password hashing and checking are function parameters: `hash` and `verifyPassword`.
- A new row gets some id not yet in its table. The model picks one above every existing
  id (`NextId`). The contracts promise only that it is fresh.
- A habit has an `id`, an `ownerId`, a `lastCompletedAt` day and a map of its descriptive
  columns. The column list belongs to `models`/`schemas`, which are not part of this model.
- An update payload is the value of every declared column plus the set of columns the
  client actually set. `exclude_unset` keeps only the set ones. So a column the client set
  to `None` is written as `Null`, and one the client left out is not written at all.

Two status codes are kept as the code has them:

- the toggle endpoint answers a missing habit with status 44, where delete and update answer 404 (`sql_app/main.py:122`);
- registering a taken username answers 400 (`sql_app/main.py:73`).

## Model

| member | source | states |
|---|---|---|
| `Query.Filter` | sql_app/crud.py:24 | the result holds exactly the rows that match, and is no longer than the input |
| `Query.FilterAppend` | sql_app/crud.py:24 | filtering keeps store order: the filter of a concatenation is the concatenation of the filters |
| `Query.FirstIndex` | sql_app/crud.py:34 | the position found matches and no earlier row matches; `None` only when no row matches |
| `Query.First` | sql_app/crud.py:8 | the row returned is stored, matches, and no earlier row matches; `None` exactly when nothing matches |
| `Query.FirstIsHeadOfFilter` | sql_app/crud.py:11 | `.first()` of a filter is the head of the filtered rows, or `None` when there are none |
| `Query.FirstAppend` | sql_app/crud.py:10-11 | appending rows keeps an existing first match, and otherwise yields the first match among the new rows |
| `Query.Page` | sql_app/crud.py:24 | offset/limit drops `skip` rows and keeps at most `limit`; element `i` of the page is element `skip + i` of the input |
| `Query.SecondOfThree` | sql_app/crud.py:23-24 | of three matching rows, skip 1 and limit 1 give exactly the second |
| `Crud.NextId` | sql_app/crud.py:15-18 | the id given to a new row is above every id already in the table, so it is fresh |
| `Crud.UpdateData` | sql_app/crud.py:44 | the update data holds exactly the columns the client set (all of them declared), with the values it sent |
| `Crud.Updated` | sql_app/crud.py:44-47 | set columns take their new value, an explicit `Null` included; unset columns, the id, the owner and the completion date are unchanged |
| `Crud.ApplyUpdate` | sql_app/crud.py:46-47 | the `setattr` loop over the set columns produces exactly `Updated` |
| `Crud.Store.GetUser` | sql_app/crud.py:7-8 | returns a stored user with that id, or `None` exactly when no user has it |
| `Crud.Store.GetUserByUsername` | sql_app/crud.py:10-11 | returns the first stored user with that username, never one with another name; `None` exactly when nobody has it |
| `Crud.Store.GetHabit` | sql_app/crud.py:34 | returns a stored habit with that id, or `None` exactly when none has it |
| `Crud.Store.HabitIndex` | sql_app/crud.py:41 | the position in the table of the habit `GetHabit` finds |
| `Crud.Store.GetHabits` | sql_app/crud.py:23-24 | only the user's habits; the user's habits in store order with the first `skip` dropped and at most `limit` kept |
| `Crud.Store.CreateUser` | sql_app/crud.py:13-19 | appends exactly one user with that username and `hash(password)` under a fresh id; other users and all habits unchanged; the user is then found by id |
| `Crud.Store.CreateUserHabit` | sql_app/crud.py:26-31 | appends exactly one habit with the given columns, the owner and no completion date, under a fresh id; the owner's listing gains it at the end, every other owner's listing is unchanged |
| `Crud.Store.DeleteHabit` | sql_app/crud.py:33-38 | returns the pre-deletion habit and removes exactly that row, the others keeping their order; on a missing id returns `None` and changes nothing |
| `Crud.Store.UpdateHabit` | sql_app/crud.py:40-50 | on the habit with that id applies `Updated`, every other habit unchanged, and returns it; on a missing id returns `None` and changes nothing |
| `Main.GetCurrentUser` | sql_app/main.py:48-65 | 401 when the subject is missing or names no user; otherwise the stored user with that username |
| `Main.CreateUser` | sql_app/main.py:69-74 | a taken username gives 400 and adds nobody; otherwise exactly one user is added and is found by its name; unique usernames stay unique |
| `Main.LoginForAccessToken` | sql_app/main.py:76-89 | 401 unless the username is known and the password verifies against its stored hash; on success a bearer token whose subject is that username |
| `Main.IssuedTokenResolves` | sql_app/main.py:86-88 | the subject of an issued token resolves to the user whose password was checked |
| `Main.CreateHabitForUser` | sql_app/main.py:95-101 | 401 for an unresolved caller; otherwise exactly one habit owned by the caller is appended |
| `Main.ReadHabits` | sql_app/main.py:103-111 | 401 exactly when the caller does not resolve; otherwise only the caller's habits, the same page as `GetHabits` for the caller's id |
| `Main.CheckAccess` | sql_app/main.py:119-125 | 401 first; then the not-found code when no habit has the id, whoever asks; then 403 for a non-owner; success only for the owner of an existing habit |
| `Main.ToggleDate` | sql_app/main.py:127-131 | the date becomes absent exactly when it was today, and today otherwise |
| `Main.ToggleTwiceRestores` | sql_app/main.py:127-131 | from an absent date or today's date, two toggles on the same day restore it |
| `Main.ToggleTwiceFromOtherDay` | sql_app/main.py:127-131 | from another day's date, two toggles on the same day leave the date absent |
| `Main.ToggleHabitCompletion` | sql_app/main.py:113-135 | 401, then 44 for a missing habit, then 403, with the store unchanged; otherwise only the target's completion date changes, by `ToggleDate` |
| `Main.DeleteHabit` | sql_app/main.py:137-152 | 401, then 404, then 403, with the store unchanged; otherwise exactly the target row is removed and its snapshot returned |
| `Main.UpdateHabitDetails` | sql_app/main.py:154-170 | 401, then 404, then 403, with the store unchanged; otherwise the target becomes `Updated`, every other habit unchanged |

## Left out

- Application setup, routing decorators and CORS configuration (`sql_app/main.py:18-34`): framework wiring.
- The session dependency `get_db` and the `commit`/`refresh` calls: connection handling. Each operation is one atomic update of the store.
- Concurrent requests: each handler runs alone against the store. The framework may run handlers concurrently. A handler's read and its later write can then interleave with another request: the username check and the insert of registration (`sql_app/main.py:71`, `sql_app/crud.py:16-17`), or the read and write of a toggle (`sql_app/main.py:119`, `sql_app/main.py:128-133`).
- Main.CreateUser: "unique usernames stay unique" holds when requests run one at a time. Two concurrent registrations of one name could both pass the check unless the database has a unique constraint; the table definitions are not part of this model.
- Username comparison: usernames are compared as exact strings (`HasUsername`). The database collation decides the comparison at `sql_app/crud.py:11`. Under a case-insensitive collation, "Alice" and "alice" would collide in registration, login and token resolution; collation and case folding are not modelled.
- Token signing, decoding, expiry and the `JWTError` path: the decoder's result is an input.
- Password hashing and verification: they are the function parameters `hash` and `verifyPassword`.
- `date.today()`: the day is the parameter `today`.
- `read_users_me` (`sql_app/main.py:91-93`): it returns the user `GetCurrentUser` resolves, unchanged.
- Response models: removing `hashed_password` from the public user view is serialization, not modelled.
- The database's real id scheme: only the freshness of a new id is modelled.
- Row order: the queries have no `ORDER BY`. The model takes insertion order for `.first()` and for listings.
- Object identity: rows are values. An in-place attribute write is the replacement of that row in its sequence. The returned habit equals the stored one, but aliasing between them is not modelled.
- Crud.Store.GetHabits: `skip` and `limit` are naturals; negative values, whose effect depends on the database backend, are not modelled.
- Main.ReadHabits: `skip` and `limit` are naturals, as for `GetHabits`.
- Crud.Updated: an update writes only the descriptive columns. An update payload that declares `last_completed_at`, `id` or `owner_id` is not modelled, since the payload's schema is not part of this model.
- Crud.Store.CreateUserHabit: the new habit starts without a completion date, the column default; a creation payload carrying one is not modelled.
