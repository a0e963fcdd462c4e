# Exhibition guide backend: route handlers and token guard

This project models the Express backend of a museum exhibition guide. Admins
register and log in (`/api/admin`). Behind a bearer-token guard they manage
their exhibitions (`/api/exhibitions`), the stations of each exhibition
(`/api/exhibitions/:exhibitionId/stations`, `/api/stations/:id`) and the QR
code of an exhibition's visitor page.

The PostgreSQL store is a class `Store.Db`. It holds the three tables
AdminUsers, Exhibitions and Stations as sequences of rows in insertion order.
It also holds the next value of each serial id sequence and a clock standing
for `CURRENT_TIMESTAMP`. Its invariant `Db.Valid` gathers four facts:

- serial ids start at 1 and increase with insertion order;
- creation times increase with insertion order;
- emails are unique;
- both foreign keys hold: `Exhibitions.admin_user_id` references AdminUsers
  and `Stations.exhibition_id` references Exhibitions.

The SQL statements are written as operations on sequences:

- `WHERE` is `Seqs.Filter`;
- `UPDATE … WHERE` is `Seqs.MapWhere`;
- `ORDER BY created_at DESC` over rows stored oldest first is `Seqs.Reverse`;
- `ON DELETE CASCADE` is a second `Filter` over Stations.

Handlers that only read the store are functions of the tables. Handlers
that write to it are methods that modify the `Db`. Each method keeps
`Valid` and states its entire new state.

Request bodies are JavaScript values (`Json.Json`), so the truthiness and
`typeof` tests of the handlers are modelled exactly. For example, arrays pass
`typeof texts === 'object'`, and `for … in` over an array yields the keys
"0", "1", ….

The foreign libraries are parameters, collected in `Services.Crypto`:

- `bcrypt.hash` and `bcrypt.compare`;
- `jwt.sign` and `jwt.verify`;
- `qrcode.toDataURL`, as an `encode` function;
- the salt from `bcrypt.genSalt`.

Their expected behaviour enters only as premises of the lemmas that need
them: the named predicates `HashSound` and `TokensSound`, and, in
`AuthMiddleware.EmptyTokenForbidden`, the requirement that `jwt.verify`
refuses the empty token.

## Model

| member | source | states |
|---|---|---|
| `AuthMiddleware.Split` | backend/authMiddleware.js:8 | `split(' ')` yields at least one field, no field holds a space, the fields rejoined with single spaces give back the header, and there is one field exactly when the header has no space |
| `AuthMiddleware.SplitUnique` | backend/authMiddleware.js:8 | the split is the only cut of a string into space-free fields that rejoin to it (by induction) |
| `AuthMiddleware.SplitFirstWord` | backend/authMiddleware.js:8 | a space-free leading word followed by a space splits off as the first field |
| `AuthMiddleware.SplitWord` | backend/authMiddleware.js:8 | a space-free word splits to itself |
| `AuthMiddleware.ExtractToken` | backend/authMiddleware.js:7-8 | no header gives no token; an empty header short-circuits to the token ""; otherwise there is a token exactly when the header has a space, and the token never holds a space |
| `AuthMiddleware.BearerRoundTrip` | backend/authMiddleware.js:8 | `scheme + " " + t` yields exactly `t`, whatever the scheme word |
| `AuthMiddleware.ExtraFieldsIgnored` | backend/authMiddleware.js:8 | fields after the second are ignored |
| `AuthMiddleware.SchemeNotChecked` | backend/authMiddleware.js:8 | the scheme is never checked: "X tok" yields "tok" |
| `AuthMiddleware.TrailingSpaceGivesEmptyToken` | backend/authMiddleware.js:8 | "Bearer " yields the empty token, not a missing one |
| `AuthMiddleware.Authenticate` | backend/authMiddleware.js:6-22 | 401 "Authentication token required." exactly when no token is found; 403 "Token is not valid." exactly when the token does not verify; a token that verifies always lets the request proceed, carrying exactly the payload `verify` returned |
| `AuthMiddleware.SignedTokenAccepted` | backend/authMiddleware.js:6-22 | a token the server signed, sent as `Bearer <token>`, passes the guard with exactly the signed payload |
| `AuthMiddleware.EmptyTokenForbidden` | backend/authMiddleware.js:8-17 | an empty header and a bare "Bearer " are answered 403, not 401 |
| `AuthMiddleware.Request.constructor` | backend/authMiddleware.js:7 | a request carries its Authorization header, with no user yet and `next` not yet called |
| `AuthMiddleware.AuthenticateToken` | backend/authMiddleware.js:6-22 | on rejection the response is sent and the request is left alone; otherwise `req.user` becomes the payload and `next` is called exactly once |
| `AuthRoutes.PublicUserOmitsHash` | backend/routes/authRoutes.js:38-44 | the token payload and the `user` of a session leave the password hash out: accounts that differ only in their hash give the same public form |
| `AuthRoutes.Register` | backend/routes/authRoutes.js:11-50 | 400 when the email or password is empty; 409 when the email is taken; both leave the store unchanged; otherwise exactly one account is appended with the next serial id and the bcrypt hash of the password, and 201 carries the token and `{ id, email }`; the store invariant is kept |
| `AuthRoutes.Login` | backend/routes/authRoutes.js:53-85 | 400 exactly when a field is empty; 401 "Invalid credentials." exactly when the email is unknown or the password does not match the first account with it; 200 exactly when both fields are given and the password matches that account, with the session of an account whose email and password match |
| `AuthRoutes.LoginFailuresIndistinguishable` | backend/routes/authRoutes.js:62-71 | an unknown email and a wrong password get identical responses |
| `AuthRoutes.LookupFindsAccount` | backend/routes/authRoutes.js:61 | with unique emails, the email lookup returns exactly the one account with that email (by induction) |
| `AuthRoutes.RegisterThenLogin` | backend/routes/authRoutes.js:27-40 | after registering, logging in with the same email and password succeeds for the new account, given that bcrypt's compare accepts its own hashes |
| `AuthRoutes.SessionTokenVerifies` | backend/routes/authRoutes.js:38 | a session token verifies to the account's `{ id, email }`, given that jwt's verify inverts its sign |
| `AuthRoutes.Logout` | backend/routes/authRoutes.js:88-92 | always 200 with the fixed client-side logout message |
| `ExhibitionRoutes.Create` | backend/routes/exhibitionRoutes.js:13-31 | 400 for a falsy title; 500 when the caller's id names no account (the foreign key); both leave the store unchanged; otherwise one row is appended with owner `caller`, the next serial id, a falsy description stored as null and both timestamps now, and sent back with 201; the invariant is kept |
| `ExhibitionRoutes.List` | backend/routes/exhibitionRoutes.js:34-46 | always 200; the list holds exactly the caller's exhibitions |
| `ExhibitionRoutes.ListNewestFirst` | backend/routes/exhibitionRoutes.js:38 | the list is strictly newest first |
| `ExhibitionRoutes.Get` | backend/routes/exhibitionRoutes.js:49-65 | 200 exactly when a row with that id is owned by the caller, and it is that row; otherwise 404 "Exhibition not found or access denied." |
| `ExhibitionRoutes.ForeignLooksMissing` | backend/routes/exhibitionRoutes.js:53-59 | another admin's exhibition and a missing id get the very same 404 |
| `ExhibitionRoutes.CreateThenGet` | backend/routes/exhibitionRoutes.js:22-26 | a newly created exhibition is found by its owner exactly as created |
| `ExhibitionRoutes.Update` | backend/routes/exhibitionRoutes.js:68-90 | 400 for a falsy title and 404 when the caller owns no such row, both leaving the store unchanged; otherwise only the matching row's title, description (null when falsy) and `updated_at` change, and the updated row is returned; the invariant is kept |
| `ExhibitionRoutes.ReviseKeepsWellFormed` | backend/routes/exhibitionRoutes.js:78-81 | rewriting rows at a later time keeps ids, creation times and timestamp order |
| `ExhibitionRoutes.ReviseKeepsReferences` | backend/routes/exhibitionRoutes.js:78-81 | every station still finds its exhibition after an update |
| `ExhibitionRoutes.ReviseKeepsOwners` | backend/routes/exhibitionRoutes.js:78-81 | every exhibition still finds its admin after an update |
| `ExhibitionRoutes.UpdateTouchesOneRow` | backend/routes/exhibitionRoutes.js:78-81 | an update changes exactly the one row, only in title, description and `updated_at`, and `updated_at` becomes strictly later |
| `ExhibitionRoutes.UpdateThenGet` | backend/routes/exhibitionRoutes.js:78-85 | after an update the owner reads back the new title and description |
| `ExhibitionRoutes.Delete` | backend/routes/exhibitionRoutes.js:93-110 | 404 with no change when the caller owns no such row; otherwise that row is removed together with all its stations (the cascade), and 200 carries the deleted row; the invariant is kept |
| `ExhibitionRoutes.DeleteKeepsWellFormed` | backend/routes/exhibitionRoutes.js:97-101 | removing a row and its stations keeps both tables well formed |
| `ExhibitionRoutes.DeleteKeepsReferences` | backend/routes/exhibitionRoutes.js:97-101 | after the cascade no station names the deleted exhibition, every remaining station has its parent and every remaining exhibition has its owner |
| `ExhibitionRoutes.DeleteRemovesOneRow` | backend/routes/exhibitionRoutes.js:98-105 | the delete removes exactly the one row that is returned, and keeps the others in order |
| `ExhibitionRoutes.FrontendBaseUrl` | backend/routes/exhibitionRoutes.js:128 | the base URL is never empty: a non-empty `FRONTEND_BASE_URL` is used as given, and an unset or empty one falls back to `http://localhost:3000` |
| `ExhibitionRoutes.VisitorUrl` | backend/routes/exhibitionRoutes.js:129 | the visitor URL is `<base>/visitor/exhibition/` followed by exactly the decimal spelling of the id |
| `ExhibitionRoutes.VisitorUrlsDistinct` | backend/routes/exhibitionRoutes.js:129 | different exhibitions get different visitor URLs |
| `ExhibitionRoutes.QrCodeFor` | backend/routes/exhibitionRoutes.js:113-149 | the same 404 as `Get` when the caller does not own the exhibition; 500 exactly when encoding fails; otherwise 200 with the id, the title, the visitor URL and the data URL encoded from it |
| `Json.Truthy` | backend/routes/exhibitionRoutes.js:17 | `!x` is true exactly for `undefined`, `null`, `false`, `0` and `""`; arrays and objects are always truthy |
| `Json.IsObject` | backend/routes/exhibitionStationRoutes.js:14 | `typeof x === 'object'` holds for `null`, arrays and objects |
| `Json.TruthyObjectIsContainer` | backend/routes/exhibitionStationRoutes.js:14 | a value passes both `!texts` and `typeof texts !== 'object'` exactly when it is an array or an object; `null` is stopped only by the truthiness test |
| `Json.OrNull` | backend/routes/exhibitionRoutes.js:24 | `description \|\| null`: truthy values are kept, falsy ones become null, so a stored description is either null or truthy |
| `Json.EntriesVisitEachKeyOnce` | backend/routes/exhibitionStationRoutes.js:17-18 | `for … in` over a parsed object visits each of its keys exactly once with that key's value, and over an array the indices "0", "1", … once each with the item there |
| `Json.NatToString` | backend/routes/exhibitionRoutes.js:129 | the decimal spelling of an id is non-empty and made of digits only, and is one digit exactly when the id is below 10 |
| `Json.NatToStringInjective` | backend/routes/exhibitionRoutes.js:129 | different ids are spelled differently (by induction) |
| `ExhibitionStationRoutes.TextNotString` | backend/routes/exhibitionStationRoutes.js:19 | the message names exactly the offending language: it reads back from between the fixed prefix and suffix |
| `ExhibitionStationRoutes.Rejection` | backend/routes/exhibitionStationRoutes.js:15-19 | every refused payload is answered 400 with a message: the handler's own missing-fields text, or the text naming the language |
| `ExhibitionStationRoutes.FirstNonString` | backend/routes/exhibitionStationRoutes.js:17-21 | none exactly when every text is a string; otherwise the key of the first entry whose value is not a string |
| `ExhibitionStationRoutes.PayloadCheck` | backend/routes/exhibitionStationRoutes.js:14-21 | "missing fields" exactly when the title or texts is falsy, texts is not an object or it has no keys; accepted exactly when the title is truthy, texts is a non-empty object or array and every value is a string; otherwise names the first key whose value is not a string |
| `ExhibitionStationRoutes.FirstNonStringAt` | backend/routes/exhibitionStationRoutes.js:17-21 | when every text before position i is a string and the one at i is not, the language named is the one at i |
| `ExhibitionStationRoutes.CheckPayload` | backend/routes/exhibitionStationRoutes.js:14-21 | the validation loop returns at the first non-string text and agrees with `PayloadCheck` |
| `ExhibitionStationRoutes.Create` | backend/routes/exhibitionStationRoutes.js:9-40 | 400 for a refused payload (checked first) and 404 unless the caller owns the exhibition, both leaving the store unchanged; otherwise one station is appended under the exhibition with the next serial id and now as both timestamps, and 201 carries it; the invariant is kept |
| `ExhibitionStationRoutes.InsertRow` | backend/routes/exhibitionStationRoutes.js:31-35 | the INSERT appends exactly one row under an existing exhibition and keeps the invariant |
| `ExhibitionStationRoutes.List` | backend/routes/exhibitionStationRoutes.js:43-63 | 404 exactly when the caller owns no exhibition with that id; otherwise 200 with exactly the stations of that exhibition |
| `ExhibitionStationRoutes.ListOldestFirst` | backend/routes/exhibitionStationRoutes.js:55 | the stations are listed strictly oldest first |
| `ExhibitionStationRoutes.DeleteThenList` | backend/routes/exhibitionStationRoutes.js:49-52 | once an exhibition is deleted, listing its stations gives 404, not an empty list |
| `StationRoutes.JoinOwners` | backend/routes/stationRoutes.js:25-28 | the join holds exactly the pairs of a station and the owner of an exhibition with the station's `exhibition_id` |
| `StationRoutes.OwnsStationMeans` | backend/routes/stationRoutes.js:9-17 | the caller owns a station exactly when a station with that id is there and its exhibition's owner is the caller |
| `StationRoutes.CheckStationOwnership` | backend/routes/stationRoutes.js:9-17 | the join restricted to that station id and owner has a row exactly when the caller owns the station; the store is only read |
| `StationRoutes.Get` | backend/routes/stationRoutes.js:20-45 | 404 "Station not found." exactly when no station with that id joins an exhibition; 403 only when it belongs to another admin's exhibition; 200 only with that station, owned by the caller |
| `StationRoutes.JoinSingle` | backend/routes/stationRoutes.js:24-30 | with unique ids the join for one station id is the single pair of that station and its exhibition's owner |
| `StationRoutes.GetAgreesWithOwnership` | backend/routes/stationRoutes.js:9-17 | GET answers 200 exactly when the ownership check passes, and 403 exactly when the station exists but the check fails |
| `StationRoutes.GetSplitsWhereCheckMerges` | backend/routes/stationRoutes.js:32-37 | GET tells another admin's station (403) from a missing one (404), while the ownership check behind PUT and DELETE fails for both |
| `StationRoutes.OwnedStationExists` | backend/routes/stationRoutes.js:64-75 | a station that passes the ownership check is there, so the UPDATE and the DELETE find it |
| `StationRoutes.ReviseStationKeepsInvariants` | backend/routes/stationRoutes.js:68-71 | an update at a later time keeps the Stations invariant and the foreign key |
| `StationRoutes.UpdateTouchesOneStation` | backend/routes/stationRoutes.js:68-71 | an update changes exactly the one station, only in title, texts and `updated_at`, and `updated_at` becomes strictly later |
| `StationRoutes.UpdateOwned` | backend/routes/stationRoutes.js:64-76 | 403 with no change unless the caller owns the station; otherwise the UPDATE rewrites only that station's title, texts and `updated_at` (one tick later), returns the rewritten row and keeps the store invariant |
| `StationRoutes.Update` | backend/routes/stationRoutes.js:48-84 | the creation payload check, with its own "missing" message, answered 400 first; 403 with no change unless the caller owns the station; otherwise that station gets the new title, texts and `updated_at`, and is returned |
| `StationRoutes.Delete` | backend/routes/stationRoutes.js:87-104 | 403 with no change unless the caller owns the station; otherwise that station alone is removed and returned with 200; the invariant is kept |
| `StationRoutes.DeleteKeepsInvariants` | backend/routes/stationRoutes.js:94 | removing stations keeps the Stations invariant and the foreign key |
| `StationRoutes.DeleteRemovesOneStation` | backend/routes/stationRoutes.js:94-99 | the delete removes exactly the one station that is returned, and keeps the others in order |
| `Seqs.Filter` | backend/routes/exhibitionRoutes.js:53-56 | `WHERE`: the rows kept are exactly those of the table that satisfy the condition, never more rows than the table |
| `Seqs.MapWhereMembers` | backend/routes/exhibitionRoutes.js:78-81 | after an `UPDATE … WHERE` the table holds exactly the rewritten matching rows and the untouched other rows |
| `Seqs.MapWhereNoMatch` | backend/routes/exhibitionRoutes.js:78-81 | an `UPDATE … WHERE` that matches no row leaves the table as it was |
| `Seqs.Reverse` | backend/routes/exhibitionRoutes.js:38 | `ORDER BY … DESC` over ascending storage: the same rows, back to front |
| `Seqs.FilterIncreasing` | backend/routes/exhibitionStationRoutes.js:55 | a `WHERE` keeps the storage order of the rows it keeps (by induction) |
| `Seqs.FilterSingle` | backend/routes/exhibitionRoutes.js:53-56 | a `WHERE` on a unique key matched by row k yields exactly that row |
| `Seqs.FilterAllBut` | backend/routes/exhibitionRoutes.js:98-101 | a `DELETE` that matches only row k leaves the rows before and after it |
| `Store.Db.Valid` | backend/routes/exhibitionRoutes.js:22-26 | the table constraints the handlers rely on: serial ids from 1 in insertion order, creation times in insertion order, unique emails, and both foreign keys |
| `Store.Db.constructor` | backend/routes/authRoutes.js:30-33 | the initial state the serial ids of the INSERT … RETURNING id start from (the schema itself is not part of this model): an empty store, every serial sequence at 1, satisfies the constraints |
| `Seqs.FilterAppend` | backend/routes/exhibitionRoutes.js:22-26 | a `WHERE` over a table with one row appended is the old result plus that row when it matches |

## Left out

- Store failures. The `catch` branches answer 500 on any error the driver throws, and no store operation fails in this model. The one exception is the foreign-key violation in `ExhibitionRoutes.Create`, which is modelled as 500.
- The 409 for error code 23505 in the station update. No unique constraint on Stations exists for it to report.
- The 404 fallbacks after the station UPDATE and DELETE (`stationRoutes.js` lines 72-75 and 95-98). The ownership check has just found the row, and `StationRoutes.OwnedStationExists` proves that the statements then match it, so these branches cannot be reached.
- Concurrency. Handlers run one at a time here, so the gap between the ownership check and the UPDATE or DELETE, where another request could intervene, is not modelled.
- Token expiry (`expiresIn: '1h'`) and the `iat`/`exp` fields jwt adds to the payload. The clock of `jwt.verify` is not modelled; `verify` is a parameter, and `Claims` holds only `{ id, email }`.
- `ExhibitionRoutes.Create`: a failed INSERT consumes a serial value in PostgreSQL. Here the counter advances only on success, so ids stay consecutive.
- Email and password are strings, and "" stands for both a missing field and an empty field. Non-string JSON values for them are not modelled.
- Route parameters are natural numbers. Spellings such as "007" or non-numeric ids, which PostgreSQL would cast or reject, are not modelled; the QR response's `exhibitionId` is the parsed number, not the raw string.
- The QR image itself. `qrcode.toDataURL` at error-correction level H is the parameter `encode`, so nothing is said about what it returns beyond success or failure.
- Logging (`console.error`), `dotenv` and the Express wiring. The mounting, the guard on whole routers, and `mergeParams` are left out; each protected handler takes `caller`, the `req.user.id` the guard sets. The logout route is outside the guard in the source, and `AuthRoutes.Logout` takes no credentials.
- The database schema file is not part of this model. The columns, the serial ids, the foreign keys and the cascade are those the handlers' SQL uses.
- Well-formedness of request objects. A `Json.Obj` lists its keys next to its field map, and the handlers accept any such value; `Json.WellFormedObject` (each key listed once, exactly the keys present) describes what a parsed body looks like and is assumed only by `Json.EntriesVisitEachKeyOnce`.
- Column types and conversions. The title, description and texts are stored as the request's JavaScript values and returned unchanged as the `RETURNING *` row; the conversion PostgreSQL applies to a text or JSON column (a title `5` read back as `"5"`, the texts document re-serialised) is not modelled.
- The order of rows for the email lookup at login. With unique emails there is at most one row (`AuthRoutes.LookupFindsAccount`).
