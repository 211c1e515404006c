# User table of the user service

The user service in `services/user-service/app.py` keeps its users in a
module-level dictionary, `users_db`. Three HTTP handlers read or update it:

- `create_user` derives an id from the email, `email.split("@")[0]`.
  It refuses the request with 400 "User already exists" when the email is already a key.
  Otherwise it stores `{user_id, email, name}` under the id and returns that record.
- `get_user` returns the record stored under an id, or fails with 404 "User not found".
- `list_users` returns every stored record.

This project models that table and proves what the handlers guarantee.
It also proves the consequences of a quirk in the code.
The duplicate check asks whether the EMAIL is a key, but the table is keyed by the derived id.
Ids never contain `@`, so:

- an email containing `@` is always accepted;
- a second email with the same local part silently replaces the first user;
- after `bob@x` is stored, the bare email `bob` is refused as a duplicate, although no user has it.

The model reproduces this behaviour as written and does not repair it.

Files:

- `py_str.dfy`, module `PyStr`: Python's `str.split` and `str.join` for a one-character separator (an empty list of pieces joins to the empty string).
  Splitting and joining are proved inverse in both directions.
- `user_service.dfy`, module `UserTable`:
  - the `Record`, `HttpError` and `Result` datatypes;
  - the id function `UserId`;
  - the table as a value `Db` (the dictionary plus its key insertion order) with its invariant `Db.Valid`;
  - the handlers as specification functions on `Db` (`CreateResponse`, `CreateState`, `Lookup`, `Values`);
  - lemmas about those functions;
  - the class `UserService`, whose fields `users` and `order` hold the table.
    Its methods `CreateUser`, `GetUser` and `ListUsers` are proved against the specification functions.

`Db.order` models the order in which a Python dict yields its values.
A new key goes last; overwriting an existing key keeps its place.
This is what makes `list_users` return the records in a definite order.

## Model

| member | source | states |
|---|---|---|
| `PyStr.Split` | services/user-service/app.py:30 | `split` gives at least one piece and no piece contains the separator. The first piece is a prefix of the string that stops at the first separator or at the end. |
| `PyStr.JoinSplit` | services/user-service/app.py:30 | Joining the pieces of a split with the separator gives back the original string. |
| `PyStr.SplitWithoutSep` | services/user-service/app.py:30 | A string without the separator splits into itself alone. |
| `PyStr.SplitAfterPiece` | services/user-service/app.py:30 | For a separator-free `p`, splitting `p + sep + t` gives `p` followed by the pieces of `t`. |
| `PyStr.SplitJoin` | services/user-service/app.py:30 | Joining separator-free pieces and splitting the result gives back exactly those pieces. |
| `UserTable.UserId` | services/user-service/app.py:30 | The id never contains `@`. It is a prefix of the email, followed in the email by `@` when shorter. It is the whole email when the email has no `@`. |
| `UserTable.UserIdOfAddress` | services/user-service/app.py:30 | The id of `local@domain` is `local` for any domain, when `local` has no `@`. |
| `UserTable.Empty` | services/user-service/app.py:19 | The empty table `users_db = {}` satisfies the invariant and lists no records. |
| `UserTable.Store` | services/user-service/app.py:31 | No contract; defines the dict assignment `users_db[user_id] = ...`: the record replaces the key's entry, and a new key goes last in the order. Its properties are stated by the create lemmas below. |
| `UserTable.CreateResponse` | services/user-service/app.py:27-36 | No contract; defines the response of `create_user`: 400 "User already exists" when the email is a key, otherwise the record `(UserId(email), email, name)`. |
| `UserTable.CreateState` | services/user-service/app.py:27-35 | No contract; defines the table after `create_user`: unchanged when the email is a key, otherwise `Store` of the new record. |
| `UserTable.Lookup` | services/user-service/app.py:40-43 | No contract; defines `get_user`: the record under the id, or 404 "User not found". Its properties are stated by `LookupFinds`. |
| `UserTable.Values` | services/user-service/app.py:47 | No contract; defines `list(users_db.values())`: the records of the keys in insertion order. Its properties are stated by `ValuesExact` and `CreateAppendsToListing`. |
| `UserTable.CreateKeepsValid` | services/user-service/app.py:27-35 | Every create preserves the table invariant. The invariant says: keys listed once in insertion order, each key is its record's `user_id`, and each key is the id of its record's email. |
| `UserTable.CreateStoresRecord` | services/user-service/app.py:30-36 | A successful create returns `(UserId(email), email, name)`, with no password. It stores exactly that record under `UserId(email)`, where `get_user` then finds it. |
| `UserTable.CreateRejectsIff` | services/user-service/app.py:27-28 | Create fails if and only if the email is a key, and then always with 400 "User already exists". A failed create leaves the table unchanged. |
| `UserTable.CreateOnlyTouchesItsKey` | services/user-service/app.py:31 | Any key other than `UserId(email)` is present after the create if and only if it was before, with the same record. |
| `UserTable.RejectedOnlyWithoutAt` | services/user-service/app.py:27-31 | On a reachable table, create fails if and only if the email has no `@` and is itself a key. So an email with `@` is always accepted. |
| `UserTable.AtEmailOverwrites` | services/user-service/app.py:27-31 | An email with `@` whose id is already taken is accepted. Its record replaces the old one under the id; the table keeps its size and key order. |
| `UserTable.SameLocalPartLosesFirstUser` | services/user-service/app.py:27-35 | Creating two different `@` emails with the same local part succeeds both times. The table does not grow, the id holds the second record, and no record has the first email any more. |
| `UserTable.BareLocalPartRefused` | services/user-service/app.py:27-31 | After `local@domain` is created, creating the bare email `local` fails with 400 and leaves the table unchanged, although no stored record has the email `local`. |
| `UserTable.LookupFinds` | services/user-service/app.py:38-43 | `get_user(id)` succeeds if and only if `id` is a key. It then returns the stored record, whose `user_id` is `id`; otherwise it fails with 404 "User not found". |
| `UserTable.ValuesExact` | services/user-service/app.py:45-47 | `list_users` returns as many records as there are keys. Every stored record appears, and every listed record is a stored one. |
| `UserTable.CreateAppendsToListing` | services/user-service/app.py:31-47 | Creating a user under a new id keeps the invariant and appends its record at the end of `list_users`, after the records listed before. |
| `UserTable.UserService.constructor` | services/user-service/app.py:19 | The service starts with the empty table, which satisfies the invariant. |
| `UserTable.UserService.CreateUser` | services/user-service/app.py:25-36 | The response and the new table are those of `CreateResponse` and `CreateState`; the password is not used. The table invariant is kept. |
| `UserTable.UserService.GetUser` | services/user-service/app.py:38-43 | Returns the stored record if and only if `id` is a key, with `user_id == id`; otherwise 404 "User not found". Nothing is changed. |
| `UserTable.UserService.ListUsers` | services/user-service/app.py:45-47 | Returns the stored records in key insertion order: one per key, each stored record present, none added. Nothing is changed. |
| `UserTable.OverwriteScenario` | services/user-service/app.py:25-47 | On a fresh service, creating `local@d1` and then `local@d2` leaves `get_user(local)` returning the second user. `list_users` then returns only that user. |

## Left out

- The FastAPI application, routing and the `uvicorn` start-up (app.py:1-6, 49-50).
  They are framework plumbing; only the handler bodies are modelled.
- Request and response validation by the pydantic models `UserCreate` and `User` (app.py:8-16).
  The handlers take the three fields as strings.
- The health endpoint (app.py:21-23): it returns a constant.
- The handlers are `async`. Each call is modelled as one atomic step, and concurrent requests are not modelled.
- The truthiness test `if not user` in `get_user` is modelled as "the id is not a key".
  A stored record is a non-empty dictionary and so is never falsy.
- Strings are sequences of characters. Python's code-point strings need no encoding or normalisation here,
  because `split("@")` only compares characters.
- services/product-service/app.py and frontend/src/App.jsx are not part of this model.
  The first returns a constant list, and the second is presentational UI.
