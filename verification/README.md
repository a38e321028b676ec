# In-memory user store

This project models the in-memory user service of `hardcodedapi.py` in Dafny. The service keeps a dictionary
`users` from integer ids to user records and seeds it with three users. Five handlers act on it:

- **get** rejects ids outside 1..99, then returns the stored record or fails with NotFound.
- **create** fails with AlreadyExists if the id is present; otherwise it stores the new user.
- **update** fails with NotFound if the id is absent; otherwise each non-`None` field overwrites the stored one.
- **delete** fails with NotFound if the id is absent; otherwise it removes the user and returns the removed record.
- **search** returns the first user, in insertion order, whose name matches the query case-insensitively.

Each handler is a pure function in module `Api`. It takes the store and the request and returns a `Step`: the
store afterwards, plus either the reply or an `Error` (`NotFound`, `AlreadyExists` or `InvalidId`).

The modules follow the program's parts:

- `Values`: record values and records. A record is a `map<string, Value>`, where a value is a string or an
  integer. The seeded users hold their age as a string, and the request models hold it as an integer. A
  record keyed by strings keeps the seeded users' misspelled key `"webiste"` as its own key.
- `Models`: the two request models, `User` and `UserUpdate`. `Dump` is the record that create stores.
  `ApplyUpdate` is update's six conditional writes, in the handler's order.
- `Store`: the dictionary, kept as `Dict(users, order)`. `users` is the map from ids to records, and `order`
  lists its ids in insertion order, as a Python dictionary keeps them. `UserStore` is the subset of
  dictionaries whose order lists every id exactly once and whose records all carry a string `"name"`. Every
  reachable store has that property: the seed does, and create and update only ever write a string name.
  Search relies on it. `InOrder` gives the records in iteration order. `FirstMatch` is search's scan.
  `Seed` is the seed data.
- `Api`: the five handlers.
- `Properties`: facts that relate several handler calls.

Behaviour kept from the code as written:

- Update writes its website to the key `"website"`. On a seeded user, that key sits beside the original
  `"webiste"` entry and does not replace it (`Properties.SeededWebsiteUpdate`).
- Create and update store age as an integer, while the seed stores it as a string.
- Only get checks the id range. Create accepts any integer id, so a user created under id 150 can never be
  read by get (`Properties.CreatedOutOfRangeUnreadable`).

## Model

| member | source | states |
|---|---|---|
| `Api.GetUser` | hardcodedapi.py:61-65 | An id at or below 0, or at or above 100, fails with InvalidId whether or not it is stored. In range, a stored id yields exactly its record and an absent one fails with NotFound. The store is unchanged in every case. |
| `Api.CreateUser` | hardcodedapi.py:69-74 | A present id fails with AlreadyExists and leaves the store as it was. Otherwise the keys grow by exactly that id, which maps to a record holding the six fields (it loads back to the same user). Every earlier binding is unchanged. The ids keep their order with the new id appended last, so the new record comes last in iteration order. The reply is the user. |
| `Api.UpdateUser` | hardcodedapi.py:78-95 | An absent id fails with NotFound and leaves the store as it was. Otherwise only that id is rebound, to the updated record, and the reply is that record. Iteration order never changes. |
| `Api.DeleteUser` | hardcodedapi.py:99-104 | An absent id fails with NotFound and leaves the store as it was. Otherwise exactly that key is removed, the reply carries the success message and the previous record, and the order of the other ids is kept. |
| `Api.SearchUserByName` | hardcodedapi.py:108-116 | A missing or empty name yields the "Name is required" message without error. Otherwise the reply succeeds exactly when some stored name matches after lower-casing, and fails with NotFound exactly when none does; no other error is possible. A successful reply is the record of the first match in insertion order. The store is unchanged. |
| `Store.SeedUser` | hardcodedapi.py:10-33 | Each seeded record has a string name equal to the given name, keeps its website under `"webiste"` with no `"website"` key, and holds its age as a string. |
| `Store.SeedContents` | hardcodedapi.py:9-34 | `Store.Seed` is the seed data. The store starts with Queens, Nafsan and Kings, iterated in that order. Each seeded record holds its website under `"webiste"`, none under `"website"`, and its age as a string. |
| `Store.NameMatches` | hardcodedapi.py:113 | Search's comparison: the record's name and the query are equal once both are lower-cased. It is a definition without a contract; `Properties.SearchCaseInsensitive` and `Store.FirstMatch` state what follows from it. |
| `Store.InOrder` | hardcodedapi.py:112 | Iterating over the values yields one record per stored id, and every stored record appears. |
| `Store.FirstMatch` | hardcodedapi.py:112-114 | The scan returns the first position whose name matches, with no match before it. It returns none exactly when no record matches. |
| `Store.FirstMatchPrefix` | hardcodedapi.py:112-114 | A first match is unaffected by records added after it. |
| `Store.RemoveAt` | hardcodedapi.py:103 | Removing one id from the insertion order keeps the order free of repeats and removes exactly that id. |
| `Store.AppendValid` | hardcodedapi.py:73 | Binding a fresh id to a named record keeps the store well formed and appends the record to the iteration order. |
| `Store.InOrderReplace` | hardcodedapi.py:82-94 | Rebinding an id in place changes the iterated record at its position and no other. |
| `Store.InOrderRemove` | hardcodedapi.py:103 | Popping an id drops its record from iteration and keeps the rest in order. |
| `Models.Dump` | hardcodedapi.py:37-43 | The stored form of a created user has exactly the six keys name, email, website, age, role and photo. |
| `Models.Load` | hardcodedapi.py:37-43 | Reading a user back out of a record succeeds only when the record holds all six declared fields. The user read back dumps to exactly the values the record holds under those keys. |
| `Models.LoadDump` | hardcodedapi.py:73 | The stored form loses nothing: the user can be read back from it. |
| `Models.DumpInjective` | hardcodedapi.py:73 | Different users are stored as different records. |
| `Models.ApplyUpdate` | hardcodedapi.py:83-94 | The six conditional writes, in the handler's order. It has no contract of its own. `Models.ApplyFrame` and `Models.ApplyIsOverlay` state its meaning. |
| `Models.Supplied` | hardcodedapi.py:83-94 | The reference meaning of an update: a key is supplied exactly when the matching field is not `None`. Only the six declared field names are ever supplied. |
| `Models.ApplyAt` | hardcodedapi.py:83-94 | After the six conditional writes, each key holds the value supplied for it. A key the update does not supply keeps its old presence and value. |
| `Models.ApplyFrame` | hardcodedapi.py:83-94 | The per-key fact above holds for every key at once. |
| `Models.ApplyIsOverlay` | hardcodedapi.py:83-94 | The sequential writes equal the stored record overlaid with exactly the supplied fields. |
| `Models.ApplyKeepsName` | hardcodedapi.py:83-84 | An updated record still carries a string name. |
| `Models.ApplyNoChange` | hardcodedapi.py:83-94 | An update with every field `None` leaves the record unchanged. |
| `Models.ApplyIdempotent` | hardcodedapi.py:83-94 | Applying the same update twice gives the same record as applying it once. |
| `Models.ApplyKeys` | hardcodedapi.py:83-94 | Update never removes a key. The keys it adds are among those it was given, and every key it was given is present afterwards. |
| `Models.WebsiteUpdateKeepsWebiste` | hardcodedapi.py:87-88 | A website-only update writes `"website"`, leaves a `"webiste"` entry as it was, and adds exactly the key `"website"`. |
| `Values.Lower` | hardcodedapi.py:113 | Lower-casing keeps the length of the string. Each letter 'A'..'Z' becomes the same letter in lower case (its code plus 32), and every other character is kept. No upper-case letter remains. |
| `Values.LowerIdempotent` | hardcodedapi.py:113 | Lower-casing twice is lower-casing once. |
| `Values.LowerIgnoresCase` | hardcodedapi.py:113 | Strings that differ only in letter case lower-case to the same string. |
| `Values.LowerSameCase` | hardcodedapi.py:113 | Conversely, strings that lower-case to the same string have the same length and differ at most in the case of letters. Together with `Values.LowerIgnoresCase`, search's comparison is exactly equality up to letter case. |
| `Properties.GetAfterCreate` | hardcodedapi.py:62-73 | After creating a user under an id in 1..99, get on that id returns the stored form of that user. |
| `Properties.CreatedOutOfRangeUnreadable` | hardcodedapi.py:62-73 | Create succeeds on a fresh id outside 1..99, but get on that id then fails with InvalidId. |
| `Properties.GetAfterDelete` | hardcodedapi.py:62-104 | After a delete, get on that id fails and a second delete fails with NotFound. Get on every other id answers as before. |
| `Properties.GetAfterUpdate` | hardcodedapi.py:62-95 | After a successful update, get on that id returns the record update replied with. |
| `Properties.CreateThenDelete` | hardcodedapi.py:70-104 | Deleting a user just created restores the store exactly, insertion order included, and returns the record create stored. |
| `Properties.UpdateInPlace` | hardcodedapi.py:82-95 | Iteration after an update sees the updated record at the old position and every other record as before. |
| `Properties.DeleteKeepsOrder` | hardcodedapi.py:100-104 | Iteration after a delete is the earlier iteration with the deleted record left out. |
| `Properties.UpdateNoChange` | hardcodedapi.py:82-95 | An update with every field `None` leaves the store unchanged and replies with the stored record. |
| `Properties.UpdateIdempotent` | hardcodedapi.py:79-95 | Applying the same update twice gives the same store and reply as applying it once, for present and absent ids alike. |
| `Properties.SeededWebsiteUpdate` | hardcodedapi.py:14-88 | Updating the website of seeded user 1 keeps `"webiste"` as `"queensdev.com"` and adds `"website"` with the new value. The record then has seven keys. |
| `Properties.SearchCaseInsensitive` | hardcodedapi.py:110-116 | Two queries that lower-case alike get the same reply. |
| `Properties.CreateKeepsSearchResult` | hardcodedapi.py:73-116 | Once a search succeeds, creating any user leaves its reply unchanged, because new users come last in iteration order. |
| `Properties.SeedSearch` | hardcodedapi.py:108-116 | On the seed data, searching "QUEENS" finds the user Queens, and an empty name gets the "Name is required" message. |

## Left out

- `myapi.py`: the database-backed variant. Its behaviour lives in the ORM and SQLite engine, which are not part of this model.
- Password hashing, token issue and verification, and current-user resolution: hardcodedapi.py and myapi.py contain no code for them.
- HTTP routing, status codes (201, 400, 404, 422) and the root endpoint (hardcodedapi.py:55-57) are left out. Failures are modelled as the `Error` datatype.
- Routing between `/user/search/` and `/user/{user_id}` is left out. Search is modelled as its own handler.
- Request validation and coercion by the request models are left out. Create and update receive well-typed `User` and `UserUpdate` values.
- Python's Unicode `str.lower()` is modelled as ASCII lower-casing (`Values.Lower`), applied to both sides of the comparison.
- Concurrency is left out. The web framework runs these plain handlers on a thread pool, so requests can interleave. A search iterating over `users.values()` (hardcodedapi.py:112) while a create inserts (hardcodedapi.py:73) raises `RuntimeError: dictionary changed size during iteration`. Two updates can interleave their field writes (hardcodedapi.py:83-94). The model runs each handler as one atomic step on one store.
- Key order inside a record is left out. Python keeps each record's keys in insertion order, and the JSON replies show that order. For example, after a website update on seeded user 1, `"website"` comes after `"photo"`. A record is modelled as a `map<string, Value>`, which has no key order, so the model states which keys and values a reply holds but not their order.
- Object identity is left out. Python's get returns the stored dictionary itself, and update mutates it in place. The model has value semantics, so these are the same observable transitions.
- Search reads `user["name"]`, which would raise on a record without a string name. No reachable store holds such a record, so the model encodes the fact in `UserStore` instead of modelling the crash.
