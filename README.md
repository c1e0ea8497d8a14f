# TinyLink short-link service — a Dafny model

TinyLink is a URL-shortening web service. A client posts a long URL and an
optional custom short code. The service validates both, picks a code (the
custom one, or a random one found by probing the link table), and stores a
`Link` row (`id`, `original_url`, `short_code`, `clicks`, `last_clicked`,
`created_at`). Visiting `/:code` redirects to the stored URL and counts the
click. The API also lists links newest first, returns one link's stats, and
deletes a link by code.

This project models the service's core, all of it in `server.js`:

- the code pattern `CODE_REGEX`;
- the random code generator `makeShortCode`;
- the URL check `isValidUrl`;
- the five handlers for `POST /api/links`, `GET /api/links`,
  `GET /api/links/:code`, `DELETE /api/links/:code` and `GET /:code`.

The Prisma link table becomes an in-memory store class `LinkStore`. Its
`Create` refuses a code that is already stored, as the database's uniqueness
constraint does (Prisma error `P2002`).

Modules, one per component:

| file | module | what it holds |
|---|---|---|
| `wrappers.dfy` | `Wrappers` | `Option`, `Result` |
| `codes.dfy` | `ShortCodes` | `CODE_REGEX` as a small matcher; `makeShortCode` built from `toString(36)`, the non-alphanumeric strip and `slice` |
| `urls.dfy` | `Urls` | `isValidUrl` over an abstract URL parser; the base origin and `short_url` |
| `links.dfy` | `Links` | the `Link` record; the table queries as functions on the rows; the `LinkStore` class |
| `allocation.dfy` | `Allocation` | the bounded probe loop for a generated code, and the code it adopts |
| `api.dfy` | `Api` | responses, the handlers, one outcome function per state-changing handler, and the lemmas |

Each handler is a method of module `Api` that takes the `LinkStore` as a parameter. Its
postcondition says that the response and the new table are exactly what a
pure outcome function (`CreateSpec`, `RedirectSpec`, `DeleteSpec`) gives for
the old table. The service's promises are then lemmas about those functions.
Every handler also keeps `LinkStore.Valid()`: codes are unique, ids are
unique, and ids are below the next id.

Non-deterministic inputs and foreign code are parameters:
- `Math.random()`: a `RandomSource` giving each probe its length pick and
  base-36 digits, plus the fallback's digits;
- `new Date()`: a `now` timestamp;
- the WHATWG `URL` parser: a `UrlParser` function that gives the protocol,
  or a parse failure;
- `process.env.BASE_URL` and the request's protocol and host: an `Origin`.

Some of the code's behaviour differs from what a reader might expect, and
the model follows the code:

- One might expect a generated code of exactly the requested length. In the
  code, `makeShortCode` keeps *at most* `len` characters of
  `"0" + digits`. So every generated code starts with `0`. It is shorter than
  asked when the random value has few base-36 digits (0.5 gives `"0i"`).
  Such a code does not match `CODE_REGEX`, yet it is stored
  (`GeneratedCodeMatchesIff`, `ShortRandomGivesMalformedCode`,
  `AutoCodeShape`). Only custom codes are guaranteed to match the pattern.
- One might expect the fallback after six collisions to be stored no matter
  what. In the code, a fallback that collides reaches the uniqueness
  constraint and is answered with 409 `code_exists`
  (`CreateGeneratedConflict`).
- `healthz` matches the code pattern, so it can be created as a custom code.
  But the redirect route reserves it and never looks it up
  (`HealthzIsReservedYetWellFormed`).

## Model

| member | source | states |
|---|---|---|
| `ShortCodes.CodeMatchesIff` | server.js:24 | the pattern accepts a string exactly when it has 6 to 8 characters, all in `[A-Za-z0-9]` |
| `ShortCodes.MatchCodeMeaning` | server.js:24 | the matcher, after `n` characters, accepts the rest exactly when the total length is 6 to 8 and the rest is alphanumeric |
| `ShortCodes.Digit36` | server.js:28 | each base-36 digit is written as a lower-case letter or a decimal digit |
| `ShortCodes.StripNonAlnum` | server.js:28 | the strip leaves only `[A-Za-z0-9]` characters and never lengthens the string |
| `ShortCodes.StripKeepsAlnum` | server.js:28 | the strip leaves an all-alphanumeric string unchanged |
| `ShortCodes.Prefix` | server.js:28 | `slice(0, len)` gives the first `min(len, length)` characters |
| `ShortCodes.StrippedFraction` | server.js:28 | stripping `toString(36)` of a random value leaves `"0"` followed by its digits |
| `ShortCodes.MakeShortCodeShape` | server.js:27-29 | a generated code has `min(len, digits + 1)` characters, starts with `0`, continues with the random digits, and is lower-case alphanumeric |
| `ShortCodes.GeneratedCodeMatchesIff` | server.js:27-29 | for a length of 6 to 8, a generated code matches the code pattern exactly when the random value has at least 5 base-36 digits |
| `ShortCodes.ShortRandomGivesMalformedCode` | server.js:27-29 | the random value 0.5 (one digit) gives the code `"0i"`, which fails the pattern |
| `Urls.IsValidUrl` | server.js:31-38 | true exactly when the parser yields protocol `http:` or `https:`; a parse failure yields false |
| `Urls.DropTrailingSlash` | server.js:79 | removes exactly one trailing `/` when there is one, and otherwise changes nothing |
| `Urls.ShortUrlShape` | server.js:79-88 | the short URL is the base (minus at most one trailing `/`), then `/`, then the code |
| `Links.Lookup` | server.js:57 | `findUnique` by code returns a stored row with that code, and returns nothing exactly when no row has it |
| `Links.Without` | server.js:126 | `deleteMany` leaves no row with the code, keeps only stored rows, and removes as many rows as carried the code |
| `Links.WithoutKeepsOthers` | server.js:126 | `deleteMany` keeps every row whose code differs |
| `Links.WithoutAbsent` | server.js:126 | deleting a code no row carries leaves the table unchanged |
| `Links.CountZeroIffAbsent` | server.js:127 | the deleted count is 0 exactly when no row carries the code |
| `Links.UniqueCountAtMostOne` | server.js:126-127 | with codes unique, at most one row carries a code |
| `Links.WithoutWellFormed` | server.js:126 | deleting keeps codes and ids unique |
| `Links.SetStatsWellFormed` | server.js:145-148 | an update of `clicks`/`last_clicked` by id keeps codes and ids unique |
| `Links.InsertByTimeSpec` | server.js:99 | inserting a row into a newest-first list keeps it newest first and adds exactly that row |
| `Links.NewestFirstSpec` | server.js:99 | the listing is ordered by `created_at` descending and is a permutation of the table |
| `Links.TwoRowsNewestFirst` | server.js:99 | any newest-first permutation of two rows with different creation times is the newer row, then the older |
| `Links.LinkStore.FindUnique` | server.js:57 | the scan returns exactly the lookup of the code in the current table |
| `Links.LinkStore.Create` | server.js:75-77 | refuses a stored code with the uniqueness violation and leaves the table unchanged; otherwise appends one new row (next id, no clicks, never clicked, created now) |
| `Links.LinkStore.UpdateStats` | server.js:145-148 | sets `clicks` and `last_clicked` of the row with the id, leaves every other row, and keeps the table valid |
| `Links.LinkStore.DeleteMany` | server.js:126 | removes the rows with the code, returns how many there were, and keeps the table valid |
| `Links.LinkStore.FindManyNewestFirst` | server.js:99 | returns every row exactly once, ordered by `created_at` descending |
| `Allocation.CandidateNotEmpty` | server.js:64 | a probe's candidate is never empty, so `if (!short_code)` only fires after six collisions |
| `Allocation.FirstFreeFromSpec` | server.js:63-71 | the probe picks the first try whose candidate is absent, and every earlier try collided; with none free, all six collided |
| `Allocation.AutoCodeProvenance` | server.js:62-72 | the generated code is either a candidate from one of the six tries that was absent when looked up, after all earlier tries collided, or the length-8 fallback after all six collided |
| `Allocation.AutoCodeShape` | server.js:64-72 | every generated code has 1 to 8 lower-case alphanumeric characters and starts with `0` |
| `Allocation.ProbeForCode` | server.js:62-72 | the loop adopts the first free candidate, or the fallback when all collided or the candidate was empty; it makes one lookup per try, at most 6 |
| `Api.CreateLinkHandler` | server.js:44-94 | the response and the new table are the create outcome for the old table; the table stays valid |
| `Api.ListLinksHandler` | server.js:97-104 | answers with every row exactly once, newest first |
| `Api.GetLinkHandler` | server.js:107-118 | 400 `invalid_code` for a malformed code; 404 `not_found` when no row has it; otherwise the stored row with that code |
| `Api.DeleteLinkHandler` | server.js:121-132 | the response and the new table are the delete outcome for the old table; the table stays valid |
| `Api.RedirectHandler` | server.js:135-154 | the response and the new table are the redirect outcome for the old table; the table stays valid |
| `Api.CreateBadRequest` | server.js:47-55 | create answers 400 exactly when the URL is missing, empty or not http(s), or a custom code fails the pattern; the table is then unchanged |
| `Api.CreateAddsOneRowOrNone` | server.js:44-94 | create answers only 201, 400 or 409; every non-201 answer leaves the table unchanged, and 201 appends exactly the returned row |
| `Api.CreateTakenCustomCode` | server.js:57-58 | a valid custom code gets 409 `code_exists` exactly when it is already stored, and the table is then left unchanged |
| `Api.CreateFreeCustomCode` | server.js:53-60 | a valid, unstored custom code is always inserted as the new row, with its short URL |
| `Api.CreateSuccess` | server.js:75-88 | a successful create stores one fresh row with the given URL and the previously unstored code, with no clicks; it answers with that row and its short URL; the code is the valid custom code or the generated one |
| `Api.CreateGeneratedConflict` | server.js:62-91 | without a custom code, create answers 409 exactly when all six candidates collided and the fallback code is stored too |
| `Api.CreatedShortUrl` | server.js:79-88 | a 201's short URL is the `BASE_URL` setting when non-empty, otherwise protocol `://` host, with at most one trailing `/` removed, then `/` and the stored code |
| `Api.CreatePreservesWellFormed` | server.js:75-77 | create keeps codes and ids unique |
| `Api.RedirectWithoutClick` | server.js:137-143 | a reserved segment goes to the next route, and a malformed or unknown code answers 404; neither changes the table |
| `Api.RedirectCountsOneClick` | server.js:142-150 | for a stored code: 302 to its URL; exactly that row's `clicks` goes up by 1 and its `last_clicked` becomes now; every other row is unchanged |
| `Api.RedirectPreservesWellFormed` | server.js:145-148 | a redirect keeps the table valid; it never lowers a click count, and it never changes an id, code, URL or creation time |
| `Api.HealthzIsReservedYetWellFormed` | server.js:137-139 | `healthz` matches the code pattern, but the redirect route passes it on without touching the table |
| `Api.DeleteMeaning` | server.js:121-128 | delete answers 400 exactly for a malformed code, 404 exactly when no row has it, and `ok` otherwise; `ok` removes exactly that one row and keeps every other row; other answers leave the table unchanged |
| `Api.DeleteTwice` | server.js:123-128 | deleting a stored code twice answers `ok`, then 404, and the second call changes nothing |
| `Api.ListingAfterTwoCreates` | server.js:97-100 | after creating two different custom codes into an empty table at increasing times, every newest-first permutation of the table (what `ListLinksHandler` promises) is the later row, then the earlier one |

## Left out

- Express plumbing: CORS, JSON body parsing, static files, the `/healthz` route, the `/code/:code` page, the catch-all page and `app.listen`. These hold no logic. `next()` on a reserved segment is modelled only as "this route does not answer".
- Store failures other than the uniqueness violation, and the 500 `db_error` / "Server error" answers they lead to: the in-memory store never fails in any other way.
- Integer widths: `id` and `clicks` are unbounded `nat`s. The database columns' fixed width and the store error that an id or click-count overflow would raise are not modelled.
- Prisma's error for an update of an id that no longer exists: `UpdateStats` does not report it. The redirect updates a row it has just found, so this cannot happen in the sequential model.
- Concurrency: the race between the existence check and the insert, and the non-atomic `clicks + 1` read-modify-write. The model runs one request at a time.
- JavaScript coercion of non-string JSON body values (a numeric `custom_code`, for instance): fields are optional strings. An empty string is treated as missing, as JavaScript truthiness does.
- The exact digit string `Number.prototype.toString(36)` prints for a double: the digits are a free input. Any count of digits is allowed, so more strings are possible than a real double can give.
- The WHATWG URL parser: it is the abstract `UrlParser` parameter.
- Urls.IsValidUrl: says nothing about which strings a real URL parser accepts or which protocol it reports, because the parser is a parameter.
- The tie order among rows with equal `created_at`: the database leaves it open. `NewestFirst` puts the later insertion first, and `ListLinksHandler` promises only the order and the permutation.
- Id assignment: the Prisma schema is not part of this model. Ids come from a counter that starts at 1, as an autoincrement column would give.
- JSON serialization of responses: a response carries the row, or the error string and status.
- `public/app.js` (browser rendering), `routes/links.js` (an older router that `server.js` never mounts) and `db.js` (connection-pool configuration) are not part of this model.
