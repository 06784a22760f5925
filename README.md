# Exercise tracker: the validator, the exercise append and the log query

A model in Dafny of the sequential logic of a small Express/Mongoose exercise
tracker (`index.js`). Users have a `username`, a `count` and a `log` of
exercises (description, duration, date text). The model covers three things:

- `errorIfInvalidDate`, the date gate. It returns normally for any string that
  JavaScript's `Date` can parse. It throws "Incorrect date format" for an
  unparsable string that misses `^\d{4}-\d{2}-\d{2}$`. Any other string reaches
  a call of the misspelled `Errow` and throws a ReferenceError.
- `POST /api/users/:_id/exercises`. A supplied date is validated before the
  user is fetched. Without a supplied date the current moment is used. The
  fetched document then gets `count++` and `log.push(...)`, and the new entry
  is echoed once the save succeeds.
- `GET /api/users/:_id/logs`. The `from` and `to` bounds are validated and
  parsed into timestamps. The stored log is filtered in insertion order, with
  both bounds inclusive, except that the code ignores a bound whose timestamp
  is 0 (see Findings). The result is cut by `slice(0, limit)`. The reply
  carries the stored `count`, not the length of the filtered log.

JavaScript's `Date` is not interpreted. `Dates.DateLib` bundles `Date.parse`
(which `new Date(string)` also uses), with `None` for NaN, and
`toDateString`. `Date.now()` is the parameter `now`. The store is an
abstract lookup result, `Users.Lookup`: the found document as a `User`
object, `null`, or an error. Whether the save succeeds is the parameter
`saved`.

Modules: `Dates` (dates.dfy), `Users` (users.dfy), `Exercises`
(exercises.dfy), `Logs` (logs.dfy).

Where the code behaves differently from what it evidently intends, the model
records both:

- `Dates.CheckDateAsWritten` follows the code: the validator's last branch throws a ReferenceError. `Dates.CheckDate` is the corrected validator, which throws "Invalid date" there.
- `Logs.KeptAsWritten` follows the code: a bound whose timestamp is 0 is ignored. `Logs.Kept` is the corrected filter callback, which applies every supplied bound.
- The handlers `Exercises.AddExercise` and `Logs.GetLogs` use the corrected `Dates.CheckDate` and `Logs.Kept`. Lemmas relate each corrected member to its as-written one.

The model also follows the code in two more places:

- An unknown user identifier makes the handler dereference `null` (`NullUser`). No explicit not-found error is produced.
- `limit` is any integer the query converts to. A negative one drops entries from the end, as `slice` does.

## Model

| member | source | states |
|---|---|---|
| `Dates.IsoPatternByPosition` | index.js:18 | the pattern `\d{4}-\d{2}-\d{2}` anchored at both ends holds exactly for ten-character strings with `-` at positions 4 and 7 and an ASCII digit everywhere else |
| `Dates.CheckDateAsWritten` | index.js:16-23 | the validator returns normally exactly when `Date` parses the string, whatever its format; an unparsable string that misses the pattern gets "Incorrect date format"; one that matches it reaches the misspelled `Errow` (ReferenceError), so no unparsable string is accepted |
| `Dates.CheckDate` | index.js:16-23 | the corrected validator: the same accepted strings and the same "Incorrect date format" cases; a well-formed date `Date` rejects gets "Invalid date"; it differs from the code as written only by turning the ReferenceError into "Invalid date" |
| `Dates.ImpossibleDateHitsMisspelling` | index.js:17-21 | for "2023-13-45", a well-formed date that `Date` refuses, the code as written throws the ReferenceError while the corrected validator throws "Invalid date" |
| `Users.User.constructor` | index.js:29-48 | a new record has count 0 and an empty log, so count equals the log length |
| `Users.User.Append` | index.js:107-108 | count rises by exactly 1, the new exercise becomes the last log entry, earlier entries and the username are unchanged, and count equal to the log length is preserved |
| `Exercises.StoredDate` | index.js:85-104 | the stored date text is `toDateString` of the parsed supplied date, or of the current moment when no date is supplied |
| `Exercises.AddExercise` | index.js:77-112 | a supplied date that fails validation throws before the lookup and leaves the record untouched; with a store error nothing is sent or changed; with a missing user the handler fails on `null`; otherwise the record gets one more count and the new exercise at the end of its log, and the reply echoes id, username, stored date, duration and description when the save succeeds |
| `Logs.RequestWindow` | index.js:127-134 | a bound is present in the window exactly when it was supplied, and then it is `Date.parse` of the supplied text |
| `Logs.Kept` | index.js:149-159 | an entry is kept exactly when `from <= parse(date)` (if `from` is given) and `parse(date) <= to` (if `to` is given): both bounds inclusive; an entry whose date does not parse is never dropped |
| `Logs.KeptAsWritten` | index.js:149-159 | the callback as written is `Logs.Kept` with every bound, lower or upper, whose timestamp is 0 taken as absent; so it agrees with `Logs.Kept` whenever neither bound is the epoch |
| `Logs.Filter` | index.js:146-161 | the filtered log is never longer than the stored log |
| `Logs.FilterIsSubsequence` | index.js:146-161 | the filtered log is a subsequence of the stored log, in insertion order |
| `Logs.FilterMembership` | index.js:146-161 | an entry is in the filtered log exactly when it is in the stored log and the callback keeps it, and every kept entry occurs there exactly as often as in the stored log |
| `Logs.FilterKeepsAll` | index.js:146-161 | a callback that keeps every stored entry leaves the log unchanged |
| `Logs.FilterAgrees` | index.js:146-161 | two callbacks that agree on every stored entry produce the same filtered log |
| `Logs.NoBoundsKeepsEverything` | index.js:146-161 | with neither `from` nor `to`, every entry is kept, in order |
| `Logs.WindowFilter` | index.js:146-161 | the query's filter is a subsequence of the stored log and holds exactly the stored entries inside the inclusive window, each as often as it is stored |
| `Logs.AsWrittenAgreesAwayFromEpoch` | index.js:149-159 | the code as written and the corrected filter give the same log whenever neither bound has timestamp 0 |
| `Logs.EpochUpperBoundIgnored` | index.js:131-155 | with `to=1970-01-01` (timestamp 0) the code as written returns an exercise dated after the epoch; the corrected filter drops it |
| `Logs.FilterLog` | index.js:146-161 | the reduce loop builds exactly the filtered log of the specification function |
| `Logs.SliceEnd` | index.js:166 | the end index of `slice(0, limit)` never exceeds the log length |
| `Logs.Truncate` | index.js:139-166 | the result is a prefix of the filtered log; a missing limit returns all of it; a limit k >= 0 returns the first min(k, length) entries; a negative k drops the last -k entries |
| `Logs.PrefixOfSubsequence` | index.js:146-166 | every prefix of a subsequence of the stored log is a subsequence of it |
| `Logs.SubsequenceOfInit` | index.js:146-161 | a subsequence of the log without its last entry is a subsequence of the whole log |
| `Logs.QueryResult` | index.js:146-166 | the returned log is a subsequence of the stored log holding only entries inside the window; without a limit it holds every stored entry inside the window, each as often as it is stored |
| `Logs.GetLogs` | index.js:119-168 | `from` is validated first, then `to`, both before the lookup, and a failure throws its error; with a store error nothing is sent; a missing user fails on `null`; otherwise the reply has the username, the stored count (not the filtered length), the id, and the limited filtered log; for a consistent record that count is the length of the whole stored log |

## Left out

- Express setup, CORS, static files, the `/` route, body parsing and `app.listen` (index.js:1-12, 62, 74, 173-175): HTTP plumbing.
- The Mongoose connection, schema options, `User.find`, `User.create`, `findById` and `save` with their `console.error` logging (index.js:26-59, 69, 97-99, 109-111, 143-144): database I/O. A lookup is a `Users.Lookup` value and the save is the `saved` flag.
- The user listing and the user creation endpoints (index.js:53-71): a database projection and an insert. Only the schema defaults appear, in `Users.User.constructor`.
- The internals of `Date`: parsing rules, time zones, `Date.now()` and the `toDateString` format are uninterpreted (`Dates.DateLib`, `now`).
- `ObjectId` generation (index.js:68) and the `_id` that a pushed exercise receives: foreign library.
- `parseInt` for `duration` (index.js:78), including NaN: duration is an opaque integer.
- The conversion of the `limit` query text to an integer by `slice`. This covers NaN becoming 0, fractions and `Infinity`. `limit` is the resulting integer, and `None` stands for a missing or empty value (replaced by `Number.MAX_VALUE`).
- Query parameters given more than once, which arrive as arrays.
- Logs.GetLogs: the handler reassigns `data.log` on the fetched document before replying. That document is never saved, so the model returns the filtered log and changes nothing.
- Exercises.AddExercise, Logs.GetLogs: these use the corrected `Dates.CheckDate` and `Logs.Kept` (see Findings). `Dates.CheckDate` passes and throws on the same strings as the code, but a well-formed impossible date gets "Invalid date" instead of a ReferenceError. `Logs.Kept` differs from the code only for a bound whose timestamp is 0.
- Exercises.AddExercise, Logs.GetLogs: an exception thrown in the store callback for a missing user (`data.count++` at index.js:107, `data.log.reduce` at index.js:146) is modelled as the `NullUser` reply. What the process does next is not modelled.
- The lost update when two appends to one user race (read, modify, save): concurrency.

## Findings

| source | as written | input that shows it | evidently intended | confidence | as-written member | corrected member |
|---|---|---|---|---|---|---|
| index.js:21 | `throw new Errow("Invalid date")` calls an undefined identifier, so a well-formed but impossible date throws a ReferenceError | `date=2023-13-45` (matches the pattern, rejected by `Date`) | throw `new Error("Invalid date")` | not executed; high | `Dates.ImpossibleDateHitsMisspelling` | `Dates.CheckDate` |
| index.js:149-155 | after `from = Date.parse(from)` and `to = Date.parse(to)`, the tests `if(from)` and `if(to)` test the timestamp, so a bound at the epoch (timestamp 0) is treated as absent | `to=1970-01-01` with an exercise dated in 2023: it is returned | test whether the bound was supplied | not executed; high | `Logs.EpochUpperBoundIgnored` | `Logs.Kept` |
