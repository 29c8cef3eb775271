# Visit-tracking and link-settings backend, modelled in Dafny

This project models `server.js`, the backend of a small landing site. The backend
does three things:

- It records page visits posted to `POST /api/track`. Each visit gets the client address from the
  forwarded-for header or the socket, the user agent, a country taken from CDN headers, and a
  `path` and `ref` from the JSON body.
- It keeps one settings document, `links`, that admins can read and replace. A replacement is
  normalised against the built-in defaults before it is stored.
- It serves an admin API behind HTTP Basic authentication. The API answers visit statistics over
  four windows (day, week, month, all time), the newest visits, and the links document.

The model is written as pure functions over immutable data:

- The `visits` table is a sequence of rows with strictly increasing rowids.
- The `settings` table is a map from key to row.
- Requests and responses are datatypes, and JSON values are a `Json.Value` datatype with
  JavaScript truthiness.
- `Server.Handle` is the whole request router, auth gate included.
- The clock, local midnight (`startOfDay`), and whether the storage engine accepts an insert are
  parameters.

Modules: `Wrappers` (Option), `Json`, `Http`, `Text` (trim, split and `parseInt`), `Auth`,
`Settings`, `Visits`, `Countries` (the top-countries query), `Stats`, `RequestHeaders`, `Tracking`
and `Server`.

The settings normaliser is stated over a `Settings.Defaults` value, and `Settings.Std` holds the
server's own defaults. The general lemmas hold for any defaults. `Settings.StdNormalize` spells
out the server's concrete constants.

The top-countries query is specified by `Countries.IsTopCountries`:

- exactly `min(10, number of countries)` rows
- distinct countries
- exact counts, each at least 1
- non-increasing counts
- no omitted country has more visits than a listed one

SQLite leaves the order of tied counts open, so the specification admits any order among ties.
`Countries.TopCountries` computes one answer it admits, using group, insertion sort and truncation.

Two behaviours worth knowing:

- Tracking answers `{ ok: false }`, with status 200, when the insert throws. `Tracking.Track`
  says exactly when that happens.
- The visits limit is only capped above, at 500. A negative limit within SQLite's integer range
  reaches SQLite, which reads a negative `LIMIT` as "no limit", and `Visits.LimitedCount` models
  that. Below `Visits.MinLimit` the query throws instead. `Server.LowLimitNotModelled` and
  `Server.MinusOneListsAll` show the two sides of that bound.

`Server.Handle` takes the admin secrets as a parameter and holds for any secrets. The server's
own secrets are `Auth.Configured` of its environment, which are never empty, and
`Server.EmptyPasswordRefused` states what that buys.

The tracking insert passes `path` and `ref` as the last two of six positional arguments.
better-sqlite3 spreads an array argument into its elements, and a plain object binds only named
parameters, of which the insert has none. `Tracking.BindTail` models this, so `{"path": ["/x"]}`
stores `/x`.

## Model

| member | source | states |
|---|---|---|
| Auth.Configured | server.js:16-17 | The admin user and password are the environment values when set and non-empty, else `admin` and `change_me_strong_pass`. Neither is ever empty. |
| Auth.Gate | server.js:20-27 | A request passes exactly when its decoded credentials equal the configured user and password. Otherwise the answer is 401 with the `WWW-Authenticate: Basic realm="Admin"` header. |
| Settings.FillButtons | server.js:171-173 | Every default button key ends up present. Each one keeps the given value if it is a string and gets the default URL otherwise. Keys outside the default set are kept unchanged. Input whose default keys are all strings comes back unchanged. |
| Settings.MergeButtons | server.js:169-173 | Whatever `buttons` the payload holds, every default button of the result is a string. |
| Settings.NormalizeWith | server.js:163-173 | The stored document has the payload's keys plus `fortune`, `job` and `buttons`. `fortune` and `job` are the payload's value if it is a string, else the default. Every other payload member is carried through unchanged. |
| Settings.NormalizeShape | server.js:166-173 | Every normalised document has string `fortune` and `job` and a `buttons` object whose default buttons are all strings. |
| Settings.NormalizeDefaultButtons | server.js:169 | A missing or falsy `buttons` is replaced by exactly the default buttons. |
| Settings.NormalizeGivenButtons | server.js:171-173 | A given `buttons` object keeps its string entries and extra keys. Each non-string or missing default entry gets the default URL. |
| Settings.NormalizeFixesNormalized | server.js:166-173 | A document that already has the normalised shape is left unchanged by the normaliser. |
| Settings.NormalizeIdempotent | server.js:166-173 | Normalising twice gives the same document as normalising once. |
| Settings.NormalizeEmpty | server.js:164-166 | Posting an empty payload stores exactly the default document. |
| Settings.StdNormalize | server.js:52-65 | With the server's constants, posting `{}` stores `defaultLinks`. Missing or non-string values become `fortune.html`, `#` and `https://t.me/`. A missing or falsy `buttons` becomes the default buttons. |
| Settings.Upsert | server.js:67-71 | After an upsert the key holds the new value and timestamp, whether or not a row existed. Every other row is unchanged. |
| Settings.Seed | server.js:72-79 | Start-up leaves an existing `links` row alone. Otherwise it inserts the default document. Either way a `links` row exists afterwards. |
| Settings.ReadLinks | server.js:154-157 | Reading the links gives the stored document, or `defaultLinks` when no row exists. |
| Settings.WriteLinks | server.js:163-182 | After a post, reading the links gives the normalised payload, stamped with the post's time. An absent body counts as `{}`. All other settings rows are unchanged. |
| Settings.LastWriterWins | server.js:67-71 | Two posts in a row leave the same table as the second post alone. |
| Settings.FreshReadIsDefault | server.js:72-79 | A fresh database, seeded or not, reads back `defaultLinks`. |
| Settings.StoredLinksNormalized | server.js:163-179 | Whatever is posted, the stored links document is a JSON object with the normalised shape. |
| Visits.Append | server.js:35-43 | Inserting a visit appends it under the next rowid: one above the last, or 1 for an empty table. Ids stay strictly increasing and within SQLite's rowid range. The insert fails only when the last rowid is already the maximum. |
| Visits.Between | server.js:122 | The window holds exactly the visits whose `ts` lies in `[lo, hi]`, both ends inclusive, each as many times as it is stored. |
| Visits.CountByRange | server.js:122 | `COUNT(*)` is at most the table size. It is 0 exactly when no row is in range, and the table size exactly when every row is. |
| Visits.CountAll | server.js:122 | A window holds every row exactly when every row's `ts` is in range. |
| Visits.CountAppend | server.js:84-86 | Recording a visit raises by one the count of every window containing its timestamp, and leaves every other window's count alone. |
| Visits.CountCovered | server.js:122 | If every visit in one window also lies in another, the first window's count is at most the second's. |
| Visits.CountMonotone | server.js:122 | Widening a `BETWEEN` range never lowers the count. |
| Visits.LimitedCount | server.js:129 | `LIMIT n` lets through `min(n, size)` rows for `n >= 0` and every row for a negative `n`. |
| Visits.NewestFirst | server.js:128-130 | The listing holds distinct stored rows in strictly decreasing id order. It has `min(limit, size)` rows, or all rows for a negative limit. Every omitted row is older than every listed one. |
| Visits.RecentVisits | server.js:128-130 | The answer has one element per selected row, newest first, with the columns `ts, ip, country, path, ref`. |
| Visits.LimitFromQuery | server.js:150 | A missing or empty `limit` means 100. Otherwise the limit is the `parseInt` value capped at 500, or NaN when nothing parses. A result is never above 500. |
| Visits.DecimalLimit | server.js:149-152 | A decimal `limit=k` returns the `min(k, 500, table size)` newest visits. |
| Text.Trim | server.js:102 | `trim` gives a slice of the input with no white space at either end. It is empty exactly when the input is all white space. |
| Text.Split | server.js:102 | `split` on a one-character separator gives at least one piece, and no piece contains the separator. |
| Text.JoinSplit | server.js:102 | Joining the pieces of a split with the separator gives back the original string. |
| Text.SplitHead | server.js:102 | The first piece of a split is the prefix before the first separator, or the whole string when there is none. |
| Text.ParseInt | server.js:150 | `parseInt` gives NaN for a string without digits, and a non-negative number for one that starts with a digit. |
| Text.ParseSkipsSpace | server.js:150 | `parseInt` ignores leading white space. |
| Text.ParseShowNat | server.js:150 | `parseInt` reads every decimal numeral back as its value. |
| Text.ParseShowNeg | server.js:150 | `parseInt` reads every negative decimal numeral back as its value. |
| Visits.LimitOfNegative | server.js:150 | A `limit` written `-<digits of n>` becomes the limit -n; the cap at 500 leaves it alone. |
| Server.LowLimitNotModelled | server.js:150-151 | Any `limit` below `Visits.MinLimit`, -2^63 among them, falls outside the modelled requests, since SQLite refuses it. |
| Server.MinusOneListsAll | server.js:150-151 | A `limit` of `-1` is within the modelled requests and lists every stored visit. |
| RequestHeaders.DetectCountry | server.js:88-96 | The country is the first non-empty of `cf-ipcountry`, `x-vercel-ip-country` and `x-country`, else `Unknown`. It is never empty. |
| RequestHeaders.ForwardedFor | server.js:102 | The forwarded address has no comma, no surrounding white space, and only characters of the header. |
| RequestHeaders.ForwardedForFirstEntry | server.js:102 | For a header `a,rest`, the forwarded address is `a` trimmed. |
| RequestHeaders.ForwardedForSingleEntry | server.js:102 | For a header with no comma, the forwarded address is the whole header trimmed. |
| Text.SplitNoSep | server.js:102 | A string without the separator splits into the one-element list holding itself. |
| RequestHeaders.ClientIp | server.js:101-104 | The client address is the forwarded entry when non-empty, else the socket address, else the empty string. |
| Tracking.BodyField | server.js:107 | `path` and `ref` take the body member whenever it is present, even when it is null or empty. The default applies only when the member or the whole body is absent. |
| Tracking.Bind | server.js:108 | A single JSON value binds to a parameter exactly when it is null, a number or a string. A string binds as text. |
| Tracking.BindAll | server.js:108 | An array argument binds when each of its elements does, one parameter per element, in order. |
| Tracking.Spread | server.js:108 | An argument supplies its array's elements, no value for a plain object, or itself. |
| Tracking.BindTail | server.js:108 | `path` and `ref` bind exactly when together they supply two values and are not both objects. The two values fill the `path` and `ref` columns in order. |
| Tracking.BindScalars | server.js:108 | For values that are neither arrays nor objects, `path` and `ref` bind one to one. Binding fails when either cannot be bound. |
| Tracking.BindArrayPath | server.js:107-108 | A one-element array `path` stores its element as the path. |
| Tracking.BindArraySpill | server.js:107-108 | A two-element `path` array fills both columns when `ref` is an empty array. With a string `ref` it supplies too many values and the insert fails. |
| Tracking.BindObjectPath | server.js:107-108 | An object `path` with a string `ref` leaves a parameter unbound, so the insert fails. |
| Tracking.Derive | server.js:100-107 | The user agent is the `user-agent` header, and the derived country is never empty. |
| Tracking.Track | server.js:98-113 | A visit is stored exactly when storage is up, `path` and `ref` bind to the last two parameters, and a rowid is left. The stored row carries the derived values and time. On failure the table is unchanged. |
| Tracking.TrackDefaults | server.js:107 | Posting `{}` or no body records `path` `/` and `ref` empty. An explicit empty `path` is kept. |
| Countries.CountOfPositive | server.js:123-126 | A country has a positive count in a window exactly when one of its visits lies there. |
| Countries.DistinctCountries | server.js:124-126 | The grouping keys are the window's countries, each listed once. |
| Countries.Group | server.js:124-126 | `GROUP BY country` gives one row per country in the window, each with its exact visit count. |
| Countries.Insert | server.js:126 | Insertion keeps the list ordered by descending count and adds exactly the one row. |
| Countries.InsertDistinct | server.js:126 | Inserting a row for a new country keeps the countries distinct. |
| Countries.SortByCount | server.js:126 | Sorting gives a permutation of the groups in non-increasing count order. |
| Countries.SortDistinct | server.js:126 | Sorting keeps the countries distinct. |
| Countries.TopCountries | server.js:123-127 | The query answer meets `IsTopCountries`: min(10, #countries) distinct countries, each with its exact positive count, largest first, and no omitted country has more visits than a listed one. |
| Countries.TopIsMaximal | server.js:126 | Cutting the sorted groups at ten leaves out no country that has more visits than a listed one. |
| Countries.SumIsCountAmong | server.js:124-126 | The listed counts add up to the number of visits from the listed countries. |
| Countries.TopCountriesWithinCount | server.js:122-127 | The counts in a window's country list add up to at most that window's visit count. |
| Stats.WindowsAt | server.js:133-137 | All windows end now. They start at local midnight, 6 and 29 days before it, and at the epoch, so the month window starts no later than the week window, which starts no later than the day window. |
| Stats.Summarize | server.js:139-144 | A window's `visits` is its `BETWEEN` count. Its `countries` meets the top-countries specification and sums to at most `visits`. |
| Stats.StatsReport | server.js:132-147 | Each window's stats are those of its own window: from local midnight, 6 days before it, 29 days before it, and the epoch, all up to now. Day ≤ week ≤ month visit counts. Month ≤ all holds when the month window starts at or after the epoch, or when no visit predates the epoch. |
| Stats.MonthWithinAll | server.js:136-137 | The month window is covered by the all-time window when it starts at or after the epoch, or when no visit has a negative timestamp. |
| Stats.MonthMayExceedAll | server.js:136-137 | With the clock less than 29 days past the epoch, one visit with a negative timestamp is counted in the month window but not in the all-time one. |
| Server.Startup | server.js:72-79 | Start-up leaves the visits alone, makes a `links` row exist, and never changes what reading the links answers. |
| Server.Admin | server.js:132-182 | Admin handlers never touch visits, and only the links post changes settings. Each answers 200. |
| Server.Handle | server.js:98-182 | The state stays valid. An admin request without the right credentials gets the 401 challenge and changes nothing. Only tracking changes visits, and only the links post changes settings. Tracking answers `{ ok }` with `ok` true exactly when a row was added. |
| Server.NoCredentialsNoData | server.js:20-27 | An admin request with no credentials gets the 401 challenge and leaves the state unchanged. |
| Server.FreshLinksAreDefault | server.js:72-79 | Right after start-up on an empty database, an authorised read of the links answers `defaultLinks`. |
| Server.EmptyPasswordRefused | server.js:16-27 | With the environment-configured secrets, credentials with an empty password are always refused, and the request changes nothing. |
| Server.WriteThenRead | server.js:154-182 | An authorised post of the links followed by a read answers the normalised payload. |

## Left out

- Express wiring is not modelled: middleware order, CORS, `trust proxy`, static files, the `/admin` page, the `/track.js` script and `listen`. None of it holds logic about the data.
- The errors of the `express.json()` body parser are not modelled: a malformed or over-limit JSON body is answered 400 or 413 before any handler runs. The request bodies of the model are the ones it has already parsed.
- `isValidUrl` is defined but never called.
- Decoding the `Authorization` header is the `basic-auth` library's job. Its result enters the model as an optional name/password pair.
- `startOfDay` is a local-time calendar computation. Its result is the `dayStart` parameter, and the model assumes only `dayStart <= now`.
- `Date.now()` is the `now` parameter.
- The database is modelled as values. Not modelled: file I/O, WAL journaling, schema creation, durability, and concurrent requests.
- A storage failure is modelled only on the tracking insert, through the `storageUp` parameter. On the admin routes an SQLite exception would make Express answer 500, and that path is not modelled.
- JSON text is not modelled. `JSON.stringify` followed by `JSON.parse` on a stored document is taken as the identity. Number formatting, `undefined` members and non-finite numbers are not modelled.
- Server.Handle: requires a `limit` that `parseInt` reads as a number no lower than `Visits.MinLimit`, about -2^63. A NaN limit reaches SQLite, and what the driver does with it is not modelled. A lower limit, -2^63 among them, makes SQLite refuse the LIMIT, so the query throws and Express answers 500. That error path is not modelled either.
- Server.Handle: requires that a truthy `buttons` member of a posted payload is an object. The code writes into a truthy string, number or array in ways that depend on JavaScript property semantics, which are not modelled.
- Tracking.Spread: a plain-object argument is taken to bind named parameters only, so it supplies no positional value. Buffers and BigInts, which the driver also binds, cannot come out of a JSON body.
- Tracking.Bind: the TEXT column's conversion of a bound number to text is not modelled. A number is stored as a number.
- Text.ParseInt: produces exact integers. The double rounding `parseInt` applies to numerals longer than 2^53 is not modelled.
- Strings are sequences of Unicode characters, not UTF-16 code units.
- A top-level JSON array as the request body is not modelled: bodies are objects or absent. Express accepts an array. Posted to `/api/track`, it stores a visit with the default `path` and `ref`. Posted to `/api/admin/links`, its indices are spread into the stored document.
- A `limit` query parameter given more than once is not modelled: it is a single optional string. Express then passes an array, which `parseInt` reads as its comma-joined text, so `?limit=5&limit=9` means 5.
- Non-finite numbers are not modelled. `JSON.parse` yields an infinity for an over-large numeral such as `1e400`, and such a `path` or `ref` would reach the insert.
- A request header sent more than once is not modelled; each header has a single value.
- Countries.TopCountries: fixes one order among tied counts. SQLite may return another, and `Countries.IsTopCountries` is the specification that admits all of them.
