# Activity ledger: a Dafny model

This project models the core of a small points-tracking web application, in
two parts.

- **The server** (`server.js`). An Express application over two SQLite
  tables: users and activities. A user registers and logs in, then sends
  their id in a `User-ID` header. With it they add, list, edit and delete
  their own activities (name, points 1..1000, date, host, description) and
  read their total and statistics against a fixed goal of 100 points.
- **The dashboard** (`Frontend/script.js`). It keeps a local copy of the
  user's activity list. After each successful request it updates that copy
  itself instead of reloading it: `unshift` after an add, replace-by-id after
  an edit, `filter` after a delete. It checks its forms before sending them,
  shows a badge for the total, and opens an achievement dialog at 100 points.

Files and modules:

| file | module | contents |
|---|---|---|
| `outcomes.dfy` | `Outcomes` | `Option`, `Result`, and the server's error responses with their HTTP status |
| `text.dfy` | `Text` | JavaScript `trim` (its whitespace set) and `substring(0, n)` |
| `validation.dfy` | `Validation` | request-body values with JavaScript truthiness; the name and points checks; the sanitisation shared by add and edit; the `:id` text |
| `users.dfy` | `Users` | the users table, its lookups, and the `validateUser` gate |
| `ledger.dfy` | `Ledger` | the activities table: owner filter, newest-first listing, the scoped UPDATE and DELETE, and the aggregates |
| `server.dfy` | `Server` | class `Store`, whose fields are the two tables and their counters; one method per route |
| `client.dfy` | `Client` | `parseInt`, the form check, the badge tiers, and class `Dashboard` holding the local list and total |
| `sync.dfy` | `Sync` | the local list after each update equals the server's new listing; how the form check relates to the server's checks; the achievement finding |
| `scenario.dfy` | `Scenario` | a concrete session through `Store` |

Modelling choices:

- **Request bodies.** A JSON body field is a `Value`: absent, null, boolean,
  integer, string or compound. The handlers' checks are written as the
  source's own disjunctions. Lemmas then give the accepted set in plain
  terms.
- **Ids and `User-ID`.** An id arriving as text (the `:id` segment or the
  `User-ID` header) is an `IdText`. Its four cases are what the handlers can
  tell apart: empty, not a number, equal to the integer key `n`, or a number
  equal to no key.
- **Library calls.** bcrypt's hash and compare are function parameters. The
  server's clock appears only as `today` (the default date) and as the
  `created` counter that orders rows.

## Model

| member | source | states |
|---|---|---|
| Outcomes.Failure.Status | server.js:100-323 | every error is a 4xx or 5xx; 401 exactly for a missing or unknown `User-ID` and for bad credentials; 400 exactly for the body and id checks |
| Text.TrimStart | server.js:216 | `trim`'s left half: the result is a suffix of the input; what was dropped is all whitespace; the result does not start with whitespace |
| Text.TrimEnd | server.js:216 | `trim`'s right half: a prefix of the input; the dropped tail is whitespace; the result does not end with whitespace |
| Text.Trim | server.js:208 | the trimmed string neither starts nor ends with whitespace |
| Text.Take | server.js:216 | `substring(0, n)` is a prefix of at most n characters, exactly min(n, length) of them |
| Text.TrimIsMiddleSlice | server.js:216 | `trim` keeps one contiguous slice of the input, with only whitespace on either side |
| Text.TrimEmptyIffBlank | server.js:208 | `name.trim().length === 0` holds exactly when the name is all whitespace (both directions) |
| Text.TrimIdempotent | Frontend/script.js:251 | trimming the already-trimmed form name changes nothing |
| Validation.Truthy | server.js:208 | a value is falsy exactly when it is undefined, null, false, 0 or the empty string |
| Validation.NameAccepted | server.js:208-210 | the name check accepts exactly the strings that are not all whitespace |
| Validation.PointsAccepted | server.js:212-214 | the points check accepts exactly the numbers 1 to 1000 |
| Validation.IdAccepted | server.js:262-264 | the check on `!id` and `isNaN(id)` refuses exactly the empty id and the id that is not a number; a number passes, whether or not it is some row's key |
| Validation.OptionalText | server.js:217-218 | a falsy host or description becomes ""; a string is trimmed and cut to the limit; a truthy non-string throws, which becomes a 500 |
| Validation.Sanitize | server.js:208-219 | succeeds exactly when the name and points checks pass and host and description are falsy or strings; a bad name is reported before bad points; the stored fields are well formed; the name is the first min(100, length) characters of the trimmed name; points are kept; a falsy date becomes today; host and description are `OptionalText` of the input; when name and points pass, the only possible failure is the 500 from a non-string host or description |
| Users.FindById | server.js:192 | finds a user exactly when the id is registered, and the user found has that id |
| Users.FindByEmail | server.js:160 | finds a user exactly when one has that email, and the user found has it |
| Users.Clash | server.js:110 | true exactly when some user has the email or the username |
| Users.Gate | server.js:184-200 | a blank header gives "User ID is required"; the request proceeds exactly when the header is a registered user's id, and then as that user; a non-blank header that names no user gives "Invalid user" |
| Users.FindByEmailUnique | server.js:160-178 | emails are unique, so login's lookup finds the one user with that email |
| Ledger.Owned | server.js:246 | `WHERE user_id = ?` keeps exactly the owner's rows |
| Ledger.ListFor | server.js:246 | the listing holds exactly the owner's rows, one entry per row |
| Ledger.Reverse | server.js:246 | reversal keeps the length and mirrors positions |
| Ledger.OwnedAppend | server.js:246 | the owner filter distributes over concatenation |
| Ledger.OwnedKeepsOrder | server.js:246 | the owner's rows stay in insertion order |
| Ledger.ListForMeaning | server.js:246 | from a table in insertion order, the listing is strictly newest first |
| Ledger.ReverseAppend | server.js:246 | reversing a concatenation swaps and reverses the parts |
| Ledger.ListAfterAppend | server.js:221-223 | after an insert by the owner, the listing is the new row followed by the old listing |
| Ledger.Matches | server.js:288 | `this.changes` is 0 exactly when no row has that id and owner |
| Ledger.UpdateWhere | server.js:279-281 | the UPDATE replaces the five columns of the rows with that id and owner, and no other row |
| Ledger.DeleteWhere | server.js:315 | the DELETE keeps exactly the rows without that id and owner; the length drops by `this.changes` |
| Ledger.MatchesAtMostOne | server.js:288 | ids are unique, so `this.changes` is 0 or 1 |
| Ledger.MatchNeedsKey | server.js:280 | only a numeric id that is some row's key selects a row |
| Ledger.UpdateWithoutMatch | server.js:288-290 | an UPDATE that changes nothing leaves the table as it was |
| Ledger.DeleteWithoutMatch | server.js:321-323 | a DELETE that removes nothing leaves the table as it was |
| Ledger.AppendKeepsValid | server.js:221-223 | inserting with the next id and sanitised fields keeps the table invariant (ids and creation order increasing, fields well formed) |
| Ledger.UpdateKeepsOwners | server.js:280 | an UPDATE never changes a row's owner |
| Ledger.UpdateKeepsValid | server.js:279-281 | an UPDATE with sanitised fields keeps the table invariant |
| Ledger.DeleteKeepsOrder | server.js:315 | a DELETE keeps the surviving rows in insertion order |
| Ledger.DeleteKeepsValid | server.js:315 | a DELETE keeps the table invariant |
| Ledger.UpdateLeavesOthers | server.js:280 | one user's UPDATE leaves every other user's rows unchanged |
| Ledger.DeleteLeavesOthers | server.js:315 | one user's DELETE leaves every other user's rows unchanged |
| Ledger.Total | server.js:333 | `COALESCE(SUM(points), 0)` is 0 when the owner has no rows, and is not negative when none of the owner's points is |
| Ledger.SumNonNegative | server.js:333 | a sum of non-negative points is not negative |
| Ledger.Remaining | server.js:339 | `Math.max(0, 100 - total)` is never negative, is 0 or 100 - total, and is at least 100 - total |
| Ledger.MaxOf | server.js:352 | `MAX(points)` bounds every row's points and is the points of some row |
| Ledger.MinOf | server.js:353 | `MIN(points)` is at most every row's points and is the points of some row |
| Ledger.StatsFor | server.js:347-370 | the count is the length of the owner's listing and the total is `Ledger.Total`; remaining is `Ledger.Remaining` of the total; with no rows every figure is 0 and remaining is 100; otherwise every row of the owner's lies between min and max, and both are some row's points |
| Ledger.SumAppend | server.js:333 | `SUM` distributes over concatenation |
| Ledger.SumBounds | server.js:333 | with points in 1..1000, the sum lies between the row count and 1000 times it |
| Ledger.TotalAfterAppend | server.js:333 | an insert adds its points to its owner's total and to nobody else's |
| Ledger.TotalRange | server.js:333-339 | the total is never negative and is 0 exactly when the owner has no rows; remaining lies in 0..100 |
| Ledger.StatsMeaning | server.js:347-370 | the count and total are the owner's; with no rows every figure is 0 and remaining is 100; otherwise 1 <= min <= max <= 1000, both are some row's points, and the total lies between count and 1000 times count |
| Server.Store.constructor | server.js:35-92 | both tables start empty, with their invariant |
| Server.Store.Register | server.js:96-148 | missing fields, then a short password, then an existing email or username, then a failing hash, each give their error; it succeeds exactly when none of them applies, and then appends exactly one user with a fresh id and the hash; a failed registration changes neither the table nor the next id; the response omits the hash |
| Server.Store.Login | server.js:151-181 | missing fields give 400; it succeeds exactly when some user has the email and the password matches that user's hash, and then returns that user without the hash; with both fields present, every failure is "Invalid email or password" (401) |
| Server.Store.AddActivity | server.js:203-240 | the gate's error, then the body's error; it succeeds exactly when both pass, and then appends one row with the next id, which is above every existing id; a rejected add changes neither the table nor the next id nor the creation counter; the table invariant holds after |
| Server.Store.ListActivities | server.js:243-253 | exactly the caller's rows, newest first |
| Server.Store.UpdateActivity | server.js:256-303 | gate, then the id check, then the body checks, in that order; "not found" exactly when no row has that id and the caller as owner; success exactly when one does, and then only that row's columns change; the invariant holds and owners are kept |
| Server.Store.DeleteActivity | server.js:306-327 | gate, then the id check; "not found" exactly when no row has that id and owner; on success exactly that one row is gone |
| Server.Store.GetTotal | server.js:330-341 | the caller's total and `Math.max(0, 100 - total)`; total >= 0; remaining in 0..100; total 0 exactly when the caller has no rows |
| Server.Store.GetStats | server.js:344-372 | as `Ledger.StatsMeaning`, for the caller |
| Client.DigitRun | Frontend/script.js:252 | the leading digits `parseInt` reads: all digits, and the next character is not one |
| Client.DecimalText | Frontend/script.js:410 | `String(points)` is a non-empty string of decimal digits |
| Client.DecimalTextValue | Frontend/script.js:410 | the digits `String` writes have the written value |
| Client.DecimalTextUnsigned | Frontend/script.js:314 | `parseInt` reads those digits back whole |
| Client.ParseIntDecimalText | Frontend/script.js:314 | `parseInt(String(n)) == n` for every n >= 0 |
| Client.ParseIntNegative | Frontend/script.js:252 | a leading minus negates: `parseInt("-" + String(n)) == -n` |
| Client.ParseInt | Frontend/script.js:252 | blank text is NaN; a negative result needs a minus sign after the leading whitespace; text whose first non-space character is a decimal digit, and does not start "0x", gives a number >= 0 |
| Client.FormAccepts | Frontend/script.js:257-260 | the form check passes exactly when the name is not all whitespace and `parseInt` gives a number >= 1 |
| Client.BadgeFor | Frontend/script.js:609-621 | the badge's rank is the number of the thresholds 50, 75 and 100 the total reaches |
| Client.BadgeMonotone | Frontend/script.js:609-621 | a larger total never shows a lower badge |
| Client.ShowsAchievement | Frontend/script.js:625 | the achievement opens exactly when the badge reads "Goal Achieved" |
| Client.DisplayedRemaining | Frontend/script.js:541 | `Math.max(0, remaining)` is never negative, never below remaining, equals it when it is not negative, and is otherwise 0 |
| Client.FindIndex | Frontend/script.js:350 | `findIndex` gives -1 exactly when no element has the id; otherwise the first index with it |
| Client.ReplaceFirst | Frontend/script.js:350-353 | replacing the first element with the id keeps the length |
| Client.WithoutId | Frontend/script.js:392 | `filter(a => a.id != id)` keeps exactly the elements without the id |
| Client.ReplaceFirstAt | Frontend/script.js:350-353 | it replaces exactly the element `findIndex` finds, and is the identity when there is none |
| Client.WithoutIdAppend | Frontend/script.js:392 | the filter distributes over concatenation, so survivors keep their order |
| Client.Dashboard.constructor | Frontend/script.js:4-10 | an empty list and a zero total |
| Client.Dashboard.ActivityAdded | Frontend/script.js:288 | the new activity is placed in front of the old list |
| Client.Dashboard.ActivityEdited | Frontend/script.js:350-353 | the element `findIndex` finds is replaced, and every other element is unchanged |
| Client.Dashboard.ActivityDeleted | Frontend/script.js:392 | the list keeps exactly the elements with another id |
| Client.Dashboard.TotalLoaded | Frontend/script.js:537 | the total becomes the one received |
| Client.Dashboard.CheckAchievement | Frontend/script.js:624-629 | shows exactly when the stored total is at least 100 |
| Client.Dashboard.AddedAsWritten | Frontend/script.js:288-298 | as written: the achievement check sees the total from before the add; the refreshed total arrives afterwards |
| Client.Dashboard.AddedThenChecked | Frontend/script.js:288-298 | with the refresh awaited first: the achievement shows exactly when the new total reaches 100 |
| Sync.Views | Frontend/script.js:285-288 | the dashboard's copy of a row is its record, position by position |
| Sync.MirrorAfterAdd | Frontend/script.js:288 | after an insert, the server's listing is the new record in front of the old listing, as `unshift` does |
| Sync.OwnedAfterDelete | server.js:315 | the owner's rows after a DELETE are the old ones filtered by id |
| Sync.WithoutIdReverse | Frontend/script.js:392 | filtering by id commutes with the newest-first reversal |
| Sync.MirrorAfterDelete | Frontend/script.js:392 | after a DELETE, the server's listing is the old listing filtered by id, as the dashboard's `filter` does |
| Sync.ReplaceAll | server.js:279-281 | every record with the id is replaced, and no other |
| Sync.CountId | server.js:288 | the count is 0 exactly when no record has the id |
| Sync.CountIdOwned | server.js:288 | in the owner's listing, the number of records with the id is `this.changes` |
| Sync.ReplaceAllIsFirst | Frontend/script.js:350-353 | when at most one record has the id, replacing all is replacing the first |
| Sync.OwnedAfterUpdate | server.js:279-281 | the owner's rows after an UPDATE are the old ones with the edited record in place of the one with the id |
| Sync.MirrorAfterUpdate | Frontend/script.js:350-353 | after an UPDATE, the server's listing is the old listing with the edited record at the position `findIndex` finds |
| Sync.FormThenServer | Frontend/script.js:257 | a form the dashboard lets through passes the server's name check; its points pass the server's check exactly when they are at most 1000 |
| Sync.FormAllowsOverLimit | Frontend/script.js:257 | 1001 points pass the form check and are refused by the server |
| Sync.EditFormRoundTrip | Frontend/script.js:408-410 | a stored activity shown in the edit form passes the form check and reads back the same points |
| Sync.AchievementAtGoal | Frontend/script.js:624-629 | the achievement, the "Goal Achieved" badge and the server's remaining reaching 0 all happen at the same totals |
| Sync.MissedAchievement | Frontend/script.js:288-298 | from 90 points, an add of 20 brings the total to 110, yet the dialog is not shown |
| Sync.ShownWhenAwaited | Frontend/script.js:288-298 | the same add shows the dialog when the refresh is awaited |
| Scenario.RunSanitized | server.js:216-219 | `"Run "` with 30 points is stored as `"Run"` with today's date and an empty host and description |
| Scenario.TwoUsers | server.js:96-148 | two registrations with distinct names and emails both succeed, with distinct ids |
| Scenario.AddRun | server.js:203-240 | the first activity becomes the user's only row |
| Scenario.Session | server.js:306-341 | another user's delete of that row is "not found"; a missing header is refused; the owner's total is 30 and remaining is 70 |

## Findings

| source | as written | input that shows it | evidently intended | confidence | as-written member | corrected member |
|---|---|---|---|---|---|---|
| Frontend/script.js:290-298 | `updateStats()` is started without `await`, then `checkAchievement()` runs at once. It reads `this.totalPoints` before the refreshed total is stored. | Total 90; add an activity of 20 points. The server's total is 110, but the dialog does not open. It opens only at the next add. | The dialog opens on the add that reaches 100 points. | not executed; medium-high (the call order in the handler determines it) | Client.Dashboard.AddedAsWritten, Sync.MissedAchievement | Client.Dashboard.AddedThenChecked, Sync.ShownWhenAwaited |

## Left out

- Database and hashing failures: a SQLite error or a bcrypt error answers 500. The model has no failing database. A failing hash is the `hashOf` parameter returning None. A failing compare is `matches` returning false, which the login handler treats like a wrong password.
- Server.Store.Register: the duplicate check and the insert are one atomic step. In the source they are separate callbacks, so two concurrent registrations can both pass the check. The UNIQUE columns then make the second insert fail with a 500, which is not modelled.
- Concurrency in general: requests are modelled one at a time.
- Server.Store.GetStats: `averagePoints` is not modelled, because AVG is a floating-point division.
- Fractional points: a JSON number such as 2.5 passes the server's points check. The model's points are integers.
- The current date: `new Date().toISOString().split('T')[0]` is the parameter `today`.
- `created_at`: modelled as a counter that increases with every insert. In SQLite it is `CURRENT_TIMESTAMP` with one-second resolution, so rows inserted in the same second can list in either order.
- String lengths: `substring` and `password.length` count UTF-16 code units. The model counts characters, so the two differ on characters outside the Basic Multilingual Plane.
- Non-string credentials: username, email and password are optional strings. The source's behaviour on a number or object in those fields (for example `password.length` on a number) is not modelled.
- `IdText`: it classifies the text of an id. How JavaScript's `isNaN` and SQLite's type affinity map a given text onto those four cases is not modelled. For example, "1e0" and " 1 " become `Key(1)`, and "1.5" becomes `NoKey`.
- Server.Store.UpdateActivity: the response echoes `id` as the text of the path segment, not as a number. The dashboard compares ids with `==` and `!=`, which convert between the two, so the model uses the number.
- `date`: stored as the `Value` received. How SQLite converts a non-string date on storage is not modelled.
- `parseInt`: the model uses exact integers. The source uses double precision, so digit strings above 2^53 lose precision.
- The page itself is not modelled: rendering, notifications, the loading overlay, `fetch`, `localStorage`, the login page (`auth.js`), the progress bar's percentage, and the count animation.
- Express wiring, CORS, the health route, schema creation and migrations are not modelled.
