# Password manager backend, modelled in Dafny

This project models the core of a small password-manager web backend
(`server.js`). It covers five pieces:

- A user store keyed by system-assigned id. Each user has a unique e-mail,
  the hash of their login secret and an ordered list of saved credential
  entries embedded in their record.
- The routes over that store: register, login, add entry, list entries and
  delete entry.
- The token middleware. It takes the second space-separated piece of the
  `Authorization` header and verifies it as a signed token carrying a user id.
- The password generator: a loop over a fixed 74-character alphabet.
- The breach-check request. It splits the SHA-1 hex digest into an
  upper-cased 10-character prefix and the rest, then reads the service's
  reply with defaults.

Modules, one per component:

- `http.dfy` (`Http`): `Option`, `Failure` (an error status and its message)
  and `Result`.
- `ids.dfy` (`Ids`): the text of a record id (`_id.toString()`), and the
  round trip that makes it injective.
- `auth.dfy` (`Auth`): the login-secret hash, signed tokens and the
  `authenticateToken` header rule.
- `store.dfy` (`Store`): the `UserStore` class and its route methods, the
  delete filter and its lemmas. `Session` is a client that drives the store
  only through its contracts.
- `generator.dfy` (`Generator`): the generate-password loop.
- `breach.dfy` (`Breach`): the check-password payload and reply.

The store is a class. Its `users` map is reassigned the way `user.save()`
replaces a stored document. Two counters stand in for the engine's fresh
ids. `Valid()` is the store invariant:

- e-mails are unique, which is the unique index;
- every e-mail is non-empty, which is the schema's `required` rule;
- within each user, entry ids are distinct and were issued by the store.

Every mutating route keeps `Valid()`. Each one states the whole new state in
terms of the old one, so what happens to one user says in full that no other
user changes.

Behaviour of the routes worth knowing, as the code has it:

- Registration does not look the e-mail up first. Saving a taken e-mail
  fails on the unique index, and the route answers 500 "Error creating
  user". An empty e-mail fails the schema's `required` rule and gets the
  same answer.
- Login answers 400 both for an unknown e-mail and for a wrong secret. Only
  the messages differ.
- Listing for a user id that resolves to no user reads `passwords` of
  `null`. That throws, and the route answers 500.
- Adding an entry answers with a message only. The route passes `category`
  along, but the schema has no such field, so the saved entry does not keep
  it.
- bcrypt builds a 72-byte key from the secret. It appends a NUL to the
  secret and repeats the result until the key is full. Two secrets that
  give the same key match the same hash. This happens for long secrets
  that agree on their first 72 bytes (`Auth.CompareIgnoresTail`), and for
  short secrets that contain NUL (`Auth.NulCollision`).
- The breach check sends the prefix and the suffix of the digest. Together
  they are the whole upper-cased digest, so the service can rebuild the full
  hash (`Breach.PayloadRevealsDigest`).

## Model

| member | source | states |
|---|---|---|
| `Ids.Show` | server.js:154 | the text of an id is a non-empty run of decimal digits, so it holds no space |
| `Ids.ParseShow` | server.js:154 | reading an id's text back gives the id |
| `Ids.ShowInjective` | server.js:154 | two ids have the same text exactly when they are equal, so comparing `_id.toString()` with the path parameter singles out one id |
| `Auth.Significant` | server.js:65 | the 72-character key: it agrees with the secret on the secret's first 72 characters, and for a shorter secret the key holds a NUL right after the secret |
| `Auth.Hash` | server.js:65 | a stored hash is made with work factor 10 |
| `Auth.Compare` | server.js:88 | `bcrypt.compare`: only hashes made at work factor 10 from a 72-character key can match; what matches what is stated by `Auth.CompareHash` |
| `Auth.CompareHash` | server.js:88 | a secret matches the hash made from it; another secret matches it exactly when both give the same key; for two NUL-free secrets, one of them shorter than 72 characters, only the secret itself matches |
| `Auth.CompareIgnoresTail` | server.js:88 | a secret of at least 72 characters with anything appended still matches the hash of the secret |
| `Auth.NulCollision` | server.js:88 | the different secrets "a" and "a\0a" match the same hash |
| `Auth.Sign` | server.js:93-96 | `jwt.sign` with the user id as claim: the token holds no space, so it survives being the second piece of a header; its inverse is stated by `Auth.VerifySign` |
| `Auth.Verify` | server.js:50-58 | `jwt.verify`: a token that verifies to an id is that id's signed token; the converse is `Auth.VerifySign` |
| `Auth.Split` | server.js:46 | `split(" ")` gives at least one piece; its exact meaning is stated by `Auth.SplitJoin` |
| `Auth.TokenOf` | server.js:45-48 | `authHeader && authHeader.split(" ")[1]` with the `!token` test: an absent header gives no token, and a token is non-empty and holds no space; which piece it is, is stated by `Auth.TokenIsSecondPiece` |
| `Auth.Authenticate` | server.js:44-58 | the middleware answers 401 exactly when there is no token; every other refusal is 403; a request let through as `u` carries `u`'s signed token |
| `Auth.VerifySign` | server.js:50-58 | a signed token verifies to the id it was signed for, and a token verifies to an id only if it is that id's signed token |
| `Auth.SplitJoin` | server.js:46 | `split(" ")` is exact: no piece holds a space, and joining the pieces with single spaces gives back the header |
| `Auth.TokenIsSecondPiece` | server.js:45-48 | for a header `w t rest` (no space in `w` or `t`, `rest` empty or starting at a space) the token is `t`, or there is none when `t` is empty; the first word is never checked to be `Bearer` |
| `Auth.NoSpaceNoToken` | server.js:45-48 | a header without a space has no second piece, so the request is refused with 401 |
| `Auth.BearerRoundTrip` | server.js:44-58 | the header `Bearer <token of u>` authenticates as user `u` |
| `Auth.AuthenticatedMeansSigned` | server.js:44-58 | a request proceeds as user `u` exactly when the second header piece is `u`'s signed token |
| `Generator.RequestedLength` | server.js:168 | `parseInt(...) \|\| 16` is never 0, and a non-zero parsed value is kept; the full rule is stated by `Generator.GeneratePassword` |
| `Generator.GeneratePassword` | server.js:167-179 | the length is 16 for NaN or 0 and the parsed value when it is positive; a negative length gives the empty string; the k-th character is the alphabet character at the k-th draw, so every character is from the 74-character alphabet |
| `Breach.Upper` | server.js:196-197 | `toUpperCase` keeps the length and upper-cases each character in place |
| `Breach.BuildPayload` | server.js:195-198 | the request body: the prefix has at most 10 characters, exactly 10 when the digest has at least 10, and the two halves together are as long as the digest; their content is stated by `Breach.PayloadSplitsDigest` |
| `Breach.PayloadSplitsDigest` | server.js:195-198 | prefix + suffix is the upper-cased digest; the prefix has min(10, length) characters; a 40-digit digest gives 10 and 30 |
| `Breach.PayloadRevealsDigest` | server.js:186-198 | for a lower-case hex digest both halves are upper-case hex, and lower-casing their concatenation gives back the digest |
| `Breach.Summarize` | server.js:207-210 | `isLeaked` is true only when the reply says true; a missing `breachCount` is 0 and a present one is passed through |
| `Breach.CheckPassword` | server.js:182-215 | the route fails with 500 "Error checking password" exactly when the service call fails, and otherwise answers with the defaulted reply to the payload built from the digest |
| `Store.KeepOthers` | server.js:153-155 | the delete filter never lengthens the list; what it keeps is stated by the `KeepOthers` lemmas below |
| `Store.KeepOthersMembers` | server.js:153-155 | an entry survives the delete filter exactly when it was there and its id text differs from `passwordId` |
| `Store.KeepOthersAppend` | server.js:153-155 | the filter keeps the original order: filtering a concatenation is the concatenation of the filtered parts |
| `Store.KeepOthersNoMatch` | server.js:153-155 | when no entry's id text equals `passwordId`, the list is unchanged |
| `Store.KeepOthersRemovesOne` | server.js:147-158 | with distinct ids, deleting entry k's id removes exactly entry k, so the list is one shorter and otherwise in the same order |
| `Store.KeepOthersUnique` | server.js:153-155 | filtering keeps entry ids distinct |
| `Store.UserStore.Valid` | server.js:28-39 | the store invariant covers three things. The unique index: no two users share an e-mail. The `required` rule: no user has an empty e-mail. The engine's fresh ids: user ids stay below the next one to be issued, so that id is unused, and entry ids within a user are distinct |
| `Store.UserStore.constructor` | server.js:28-41 | an empty store satisfies the invariant |
| `Store.UserStore.FindByEmail` | server.js:82 | the user found has that e-mail; when none is found, no user has it |
| `Store.UserStore.Register` | server.js:62-77 | succeeds exactly when the e-mail is non-empty and unused, adding one user under a fresh id with the hashed secret and no entries; otherwise 500 and the store is unchanged; the invariant is kept |
| `Store.UserStore.Login` | server.js:79-101 | an unknown e-mail gives 400 "User not found"; for the user with that e-mail, a secret that matches the stored hash (gives the same 72-character key as the registered secret) gives that user's signed token, which verifies to their id, and any other secret gives 400 "Invalid password" |
| `Store.UserStore.AddEntry` | server.js:104-130 | a failed token check is 401/403, then an empty or missing field is 400, then an unknown user is 404, each leaving the store unchanged; otherwise only that user's list changes, growing by one entry with a fresh id and the given fields |
| `Store.UserStore.ListEntries` | server.js:132-139 | answers exactly the authenticated user's entries in stored order; a failed token check is 401/403 and an unknown user is 500 |
| `Store.UserStore.DeleteEntry` | server.js:142-164 | a failed token check is 401/403 and an unknown user is 404, each leaving the store unchanged; otherwise only that user's list changes, to the filtered list, and it succeeds whether or not an id matched |

## Left out

- HTTP framework wiring is not modelled: routing, CORS, JSON body parsing and `app.listen` (server.js:12-16, 217-220). The statuses of successful replies (200/201) are left out too; error statuses and messages are kept.
- The database connection is not modelled (server.js:19-25). Neither is the catch-all 500 for a failing store operation, nor the last-write-wins race between concurrent saves of one user, which is concurrency.
- Ids are natural-number counters with decimal text, not 24-digit hex object ids. A token id that is not a valid object id (a cast error, answered 500) cannot occur in the model.
- bcrypt is replaced by a stand-in hash: two secrets match the same hash exactly when they give the same 72-character key. The salt and the algorithm are left out.
- Auth.Hash: builds its key from 72 characters, not 72 UTF-8 bytes. The two agree for ASCII secrets. A secret with multi-byte characters is cut and repeated differently in the model than by bcrypt.
- JSON Web Token signing and verification are replaced by a stand-in (`jwt.` followed by the id text). The cryptography and the environment-provided secret are left out. The source sets no expiry, and the model has none either.
- Auth.Sign: drops the issued-at (`iat`) claim that signing adds by default. Real tokens of one user differ from login to login and each verifies to that user; the stand-in gives each id a single token, and `Auth.VerifySign`'s "only that id's signed token" rests on that.
- Register and login take the `email` and `password` body fields as strings. Bodies that omit them, where `undefined` reaches the database query or bcrypt, are not modelled.
- SHA-1 and the remote leak-check call are inputs: the digest is a string, and the service is a function from the payload sent to the reply, or None on failure. The request headers are left out.
- Upper-casing covers ASCII letters only, which is every character of a hex digest.
- `Math.random` is an index oracle `pick` whose i-th draw is below 74. `parseInt` is taken as already applied to the query parameter.
- `createdAt` timestamps (`Date.now`), dotenv configuration and console logging are left out.
