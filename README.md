# Personal PasteBin: authentication gate and snippet routes, in Dafny

This project models the server core of a single-user paste bin. One operator password,
checked against a bcrypt hash, yields a JSON Web Token valid for seven days. Every snippet
route sits behind a middleware that reads the token from the `Authorization: Bearer <token>`
header. The model answers 401 when no token is presented and 403 when the token is
malformed, signed with another secret or expired. Behind the gate, snippets are listed
newest first, created from a non-blank text, and deleted by id.

Files and modules:

- `wrappers.dfy` (`Wrappers`): `Option` for JavaScript's `undefined`, `Result` for calls that throw.
- `js_string.dfy` (`JsString`): `split` with a one-character separator and `trim`.
  Whitespace is ECMAScript WhiteSpace and LineTerminator.
- `snippet.dfy` (`Snippets`): the document shape (`_id`, required `text`, `createdAt` defaulted to now) and its validation.
- `snippet_store.dfy` (`SnippetStore`): the two queries, `find().sort({ createdAt: -1 })` and `findByIdAndDelete`.
- `jwt.dfy` (`Jwt`): a stand-in for `jwt.sign` / `jwt.verify`.
- `http.dfy` (`Http`): a response is one status and one body.
- `auth.dfy` (`Auth`): the login route, bearer-token extraction and the `verifyToken` gate.
- `server.dfy` (`Server`): the `Service` class. Its `store` field is the collection. Its methods are the three protected routes.
- `scenario.dfy` (`Scenario`): a client that logs in, creates, lists and deletes, then finds its token expired.

Modelling choices:

- **Configuration.** `Auth.Config` holds the password check and the signing secret, each `None` when its environment variable is unset, and the keyed hash the token library uses.
  - The password check is `bcrypt.compare` with the stored hash bound in.
  - The signing secret stands in for `JWT_SECRET`.
  - The keyed hash `hmac` stands in for HS256. It maps the secret and all three claims to a tag, so a token's signature covers its claims.
  - The code does not fail at start-up when a secret is missing. It fails per request: login answers 500, and verification fails, so the gate answers 403. The model follows the code: there is no fail-fast check at start-up.
- **Clock.** The clock is a parameter `nowMs`, in milliseconds as `Date.now` gives them.
  - `createdAt` is `nowMs`.
  - The token library works in whole seconds: `iat` is `nowMs / 1000`, `exp` is `iat + 604800`, and a token is expired once the current whole second reaches `exp`.
  - So a token stops being accepted at the start of the second seven days after its issue second. That can be up to 999 ms before seven days after the login. `Jwt.VerifySigned` states both bounds.
- **Token.** The token text is four `.`-separated fields: the `access` claim, `iat`, `exp` and the signature, the numbers in decimal. The signature is `hmac(secret, access, iat, exp)`, and verification recomputes it from the claims as presented. Decoding is proved to invert encoding, and an encoded token never contains a space.
- **Empty `Authorization` header.** `authHeader && …` evaluates to `""`, and `"" == null` is false. So an empty header, like a bare `Bearer `, reaches verification and is answered 403, not 401.
- **Store.** The store is a sequence in insertion order; ids are natural numbers from a counter.
  - The MongoDB collection outlives the server process. A `Service` therefore stands for the collection's whole lifetime from first deployment, across restarts, and its constructor is that first deployment with an empty collection.
  - Store failures, including a malformed id in the URL, are a `fault` flag on each route.
  - A fault is answered 500 by list and delete. It is answered 400 by create, whose `catch` uses 400. A fault never changes the store.
- **Ordering.** Snippets with equal `createdAt` have no defined relative order in the listing. `List` promises "newest first and a permutation of the store", which is all the query guarantees.

## Model

| member | source | states |
|---|---|---|
| `Snippets.NewDocument` | backend/models/Snippet.js:3-12 | a document validates exactly when `text` is present and non-empty; the result keeps the given id and text, and `createdAt` is the supplied value or else the current time |
| `JsString.Trim` | backend/server.js:104 | `trim()` yields the empty string exactly when every character is whitespace; a non-empty result starts and ends with non-whitespace, is the slice of the input right after its leading whitespace, and drops exactly the leading and trailing whitespace |
| `JsString.SplitPieces` | backend/server.js:71 | `split(' ')` yields a single piece exactly when the string has no separator, and no piece contains the separator |
| `JsString.JoinSplit` | backend/server.js:71 | joining the pieces of a split with the separator gives back the split string |
| `JsString.SplitJoin` | backend/server.js:71 | splitting a join of separator-free pieces gives back exactly those pieces |
| `Jwt.Sign` | backend/server.js:51-55 | a signed token carries the given claim and the secret's tag over its claims, `iat` is the current whole second and `exp` is seven days (604800 s) after it |
| `Jwt.DecodeEncode` | backend/server.js:51-58 | decoding the text of an issued (well-formed) token gives back the token |
| `Jwt.EncodeHasNoSpace` | backend/server.js:71 | the text of a well-formed token contains no space, so it survives the `split(' ')` of the header |
| `Jwt.Verify` | backend/server.js:77 | verification succeeds exactly when the text decodes, a secret is configured, the signature is that secret's tag over the claims as they stand, and the current whole second is before `exp`; on success it returns the decoded claims |
| `Jwt.VerifySigned` | backend/server.js:51-55 | a token signed with `key` at time T verifies at time t exactly when the configured secret gives its claims the same tag and t is before second `iat + 7 days`; it is rejected from T + 7 days on and accepted under `key` from T to T + 7 days − 1 s; when tags do not collide, only `key` accepts it |
| `Jwt.TamperedRejected` | backend/server.js:77 | when tags do not collide, a token that differs from one `key` issued but keeps its signature (edited claims) or its claims (replaced signature) is rejected under `key` at every time |
| `Auth.Login` | backend/server.js:35-63 | a missing or empty password gives 400; a password the hash does not match gives 401; a match with a configured secret gives 200 and a token whose claims decode to `access: 'granted'` with a 7-day expiry; missing configuration gives 500; only 200 carries a token |
| `Auth.MissingPasswordNeverCompared` | backend/server.js:36-40 | a missing or empty password is answered 400 "Password is required" whatever the password hash, the secret and the time, so no comparison or issue can influence it |
| `Auth.BearerToken` | backend/server.js:69-71 | no token exactly when the header is absent or is non-empty without a space; an empty header yields the token `""`; otherwise the token is the second piece of the header split at spaces, and never contains a space |
| `Auth.BearerRoundTrip` | backend/server.js:69-71 | from the header `Bearer <token>` that the client sends, the middleware extracts exactly `<token>` when it has no space |
| `Auth.Gate` | backend/server.js:68-84 | rejections are 401 or 403 only; 401 exactly when no token is presented; the request proceeds exactly when the presented token decodes, carries the configured secret's tag over its claims and is unexpired, and then carries the decoded claims |
| `Auth.GatePresentedToken` | backend/server.js:77-80 | a presented well-formed token is admitted with its claims when it carries the configured secret's tag over its claims and is unexpired, and is otherwise 403, never 401 |
| `Auth.HeaderEdgeCases` | backend/server.js:69-80 | no header or a bare `Bearer` is 401; `Bearer ` with nothing after the space, or an empty header, presents the empty token and is 403 |
| `Auth.LoginTokenOpensGate` | backend/server.js:51-58 | the token from a successful login opens the gate until the start of the second seven days after the login second, and is 403 from then on |
| `Auth.TamperedTokenForbidden` | backend/server.js:77-80 | when tags do not collide, a login token with its claims edited (such as `exp` pushed forward) or its signature replaced is 403 at every time |
| `SnippetStore.SortNewestFirst` | backend/server.js:94 | the listing is ordered by `createdAt` descending and is a permutation of the collection |
| `SnippetStore.NewestListedFirst` | backend/server.js:94 | a snippet strictly newer than every other is the first one listed |
| `SnippetStore.RemoveById` | backend/server.js:121 | deleting an absent id leaves the collection as it is; deleting a present id shortens it by one; nothing that was not stored appears |
| `SnippetStore.RemoveByIdAt` | backend/server.js:121 | deleting cuts out exactly the first document with that id and keeps every other document in its relative order |
| `SnippetStore.RemoveByIdUnique` | backend/server.js:121 | with unique ids, the ids after a delete are the ids before it minus the deleted one, and stay unique |
| `Server.AppendKeepsInvariant` | backend/server.js:107-109 | saving a valid, non-blank snippet under the next id keeps ids unique and below the counter; the new id was not in use |
| `Server.NonEmptyTextNotBlank` | backend/server.js:104 | a text that passes the create check is present, non-empty and not blank |
| `Server.Service.constructor` | backend/server.js:4 | the service starts with the configuration from the environment, an empty collection and a valid state |
| `Server.Service.List` | backend/server.js:91-99 | a rejected request gets the gate's 401/403; an admitted one gets 500 on a store fault and otherwise 200 with every stored snippet newest first; the store is never changed |
| `Server.Service.Create` | backend/server.js:102-114 | a rejected request gets 401/403; missing or blank text gets 400 with the fixed message; a fault gets 400; otherwise 201 with a snippet that has the input text, `createdAt` equal to now and a fresh id, and that snippet is the only addition to the store; on every status but 201 the store is unchanged |
| `Server.Service.Delete` | backend/server.js:117-129 | a rejected request gets 401/403; a fault gets 500; an id that is not stored gets 404 "Snippet not found"; a stored id gets 200 "Snippet deleted successfully", the collection loses exactly that id and one document, and no document is added or altered; on every status but 200 the store is unchanged |

## Left out

- Express set-up, CORS, JSON body parsing, `app.listen`, the MongoDB connection and `process.exit` (backend/server.js:1-30): process and I/O plumbing.
- bcrypt hashing: the comparison is an arbitrary function of the submitted password.
- HMAC-SHA256 and the base64url/JSON token format. `hmac` is an arbitrary function of the secret and the claims, and the token text is the decimal encoding described above.
  - `Jwt.TamperedRejected` and `Auth.TamperedTokenForbidden` assume that `hmac` has no collisions (`Jwt.CollisionFree`). Real HMAC-SHA256 has that property only computationally, against an attacker who does not know the secret.
  - A token whose header names another algorithm is not modelled. For a string secret and no `algorithms` option, jsonwebtoken accepts only the HS256, HS384 and HS512 family; the model has the single function `hmac`.
  - Tokens without an `exp` claim, which `jwt.verify` would accept at any time, cannot be represented: the server only ever issues tokens with `exp`, and forging one needs the secret.
  - The server passes no options to `jwt.verify`, so no audience or issuer is checked. `nbf` is never set on issued tokens; it is not modelled.
- Non-string JSON values for `password` or `text` (numbers, booleans, objects): body fields are `Option<string>`.
  - In the code, bcrypt throws on a non-string password (500).
  - `trim` on a non-string text throws outside the `try`, so no response is sent.
- Route parameters are strings in the code and ids are natural numbers here. A malformed id (a cast error, answered 500) is covered only by the `fault` flag.
- The texts of library error messages (`err.message`) and the reason phrases sent by `sendStatus`: they are the bodies `ErrorMessage` and `StatusText`.
- Mongoose's version key `__v` in stored documents: it is not read or written by any route.
- Documents written to the collection other than through the create route: `Service.Valid()` speaks only of documents the routes created.
- Concurrency between requests: each route is one atomic step on the collection.
- The React client (frontend/src/App.jsx, frontend/src/Login.jsx) is not part of this model. It only builds the `Bearer` header, which `Auth.BearerRoundTrip` covers, and mirrors server results.
