# Admin dashboard form state, modelled in Dafny

This project models the logic of the doctor-appointment admin dashboard page
(`frontend/src/pages/AdminDashboard.tsx`). The page lets an administrator
create and delete doctors. For a selected doctor it also builds a list of
times of day and turns each one into an availability slot on a chosen date.

The page's React state is an immutable `State` record. It holds the doctor
name and specialty fields, the selected doctor id, the selected date, the
chosen times, and the pending time input. Every event handler is a pure
function from a `State` to a `Transition`. A transition holds the next state,
the HTTP requests the handler issues (in issue order), and the alert it shows.
The server's answers are parameters of the handlers:

- `Response` is the outcome of a create or delete call.
- `allCreated` says whether every slot request succeeded.
- `confirmed` is the answer to the delete confirmation dialog.

Modules:

- `JsStrings`: JavaScript's `<` on strings, which `Array.prototype.sort`
  uses when no comparator is given. It is written as a hand-written
  lexicographic order, proved to be a strict total order and to agree with
  the first-difference definition. Also `String.prototype.trim` and the
  white-space set it strips.
- `JsArrays`: the default `sort`, modelled as insertion sort and proved to
  return the only sorted permutation of its input. Also `filter(t => t !== x)`.
- `AdminDashboard`: the state, the five handlers, the input-field events, and
  sessions (`Run`) over any sequence of events. The central result is that the
  chosen times stay strictly ascending and never contain an empty entry, from
  the initial `['09:00', '10:00']` on, whatever the user does and however the
  server answers.

Three behaviours of the page are worth stating up front:

- The page reports a failed slot batch with one generic alert, not with
  counts of succeeded and failed slots. `SaveSlots` models that alert.
- All slot requests are issued before any answer is awaited, so a server
  failure on one of them does not hold back the others. An invalid date,
  however, makes `toISOString` throw inside the `map`. The requests for the
  earlier times have then already been issued, and no later ones are.
  `SlotRequests` models that prefix.
- The name guard trims the name, but the request carries the name as typed.

## Model

| member | source | states |
|---|---|---|
| `JsStrings.Less` | frontend/src/pages/AdminDashboard.tsx:65 | the string `<` that `sort()` compares with; it carries no contract of its own, and its meaning is stated by `LessIsLexicographic` and the order lemmas below |
| `JsStrings.LessIsLexicographic` | frontend/src/pages/AdminDashboard.tsx:65 | the string order used by `sort()` holds exactly when, past the common prefix, the left string has ended while the right has not, or has the smaller character at the first difference |
| `JsStrings.LessTotal` | frontend/src/pages/AdminDashboard.tsx:65 | any two strings are ordered one way or the other, or are equal, so `sort()` has a unique answer |
| `JsStrings.LessTransitive` | frontend/src/pages/AdminDashboard.tsx:65 | the string order used by `sort()` is transitive |
| `JsStrings.LessIrreflexive` | frontend/src/pages/AdminDashboard.tsx:65 | no string sorts strictly before itself |
| `JsStrings.LessAsymmetric` | frontend/src/pages/AdminDashboard.tsx:65 | two strings never sort strictly before each other |
| `JsStrings.IsJsWhiteSpace` | frontend/src/pages/AdminDashboard.tsx:32 | the characters `trim()` strips: the ECMAScript WhiteSpace and LineTerminator code points; it is a definition, and `Trim`'s contract is stated in its terms |
| `JsStrings.Trim` | frontend/src/pages/AdminDashboard.tsx:32 | `trim()` yields the middle of the string between a blank prefix and a blank suffix, with no white space at either end; it is empty exactly when every character is white space |
| `JsStrings.TrimIdempotent` | frontend/src/pages/AdminDashboard.tsx:32 | trimming a trimmed name changes nothing |
| `JsArrays.Sort` | frontend/src/pages/AdminDashboard.tsx:65 | `sort()` returns a permutation of its input that is sorted |
| `JsArrays.SortedPermutationUnique` | frontend/src/pages/AdminDashboard.tsx:65 | two sorted lists with the same elements are equal, so any sorting algorithm gives the model's result |
| `JsArrays.InsertKeepsSorted` | frontend/src/pages/AdminDashboard.tsx:65 | inserting a time in place into a sorted list keeps it sorted |
| `JsArrays.InsertKeepsStrictlyAscending` | frontend/src/pages/AdminDashboard.tsx:61-65 | inserting a time that is not yet present into a strictly ascending list keeps it strictly ascending |
| `JsArrays.SortAppendIsInsert` | frontend/src/pages/AdminDashboard.tsx:65 | appending to a sorted list and re-sorting is the same as inserting the new time in place |
| `JsArrays.Without` | frontend/src/pages/AdminDashboard.tsx:70 | `filter(t => t !== timeToRemove)`; it carries no contract of its own, and its meaning is stated by `WithoutKeepsTheRest` and `WithoutAbsent` |
| `JsArrays.WithoutKeepsTheRest` | frontend/src/pages/AdminDashboard.tsx:70 | the filter drops every copy of the removed time, keeps every other element with its count, and keeps the survivors in their original relative order |
| `JsArrays.WithoutAbsent` | frontend/src/pages/AdminDashboard.tsx:70 | filtering out a time that is not in the list changes nothing |
| `JsArrays.WithoutKeepsStrictlyAscending` | frontend/src/pages/AdminDashboard.tsx:70 | filtering a strictly ascending list leaves it strictly ascending |
| `JsArrays.WithoutRemovesOnePosition` | frontend/src/pages/AdminDashboard.tsx:70 | in a duplicate-free list, removing the element at index i yields the list with exactly that position cut out |
| `AdminDashboard.Init` | frontend/src/pages/AdminDashboard.tsx:11-19 | the page starts with no doctor selected, empty name and specialty fields, today's date, and a two-element strictly ascending time list with no empty entry |
| `AdminDashboard.CreateDoctor` | frontend/src/pages/AdminDashboard.tsx:30-46 | a name that is all white space sends nothing, changes nothing and alerts; otherwise exactly one create request carrying the untrimmed name and the specialty is issued; on success both fields are cleared and the list is fetched again; on failure the state is kept and the reason shown is the server's non-empty `error` field, or else the client's error message |
| `AdminDashboard.DeleteDoctor` | frontend/src/pages/AdminDashboard.tsx:48-57 | the form state never changes; a declined confirmation issues nothing; a confirmed one issues the delete, then a re-fetch on success or a failure alert otherwise |
| `AdminDashboard.ResortFacts` | frontend/src/pages/AdminDashboard.tsx:65 | appending a time and re-sorting gives a sorted list with that time added; when the list was sorted this is an in-place insertion; when it was strictly ascending and lacked the time, the result is strictly ascending |
| `AdminDashboard.AddTime` | frontend/src/pages/AdminDashboard.tsx:59-67 | an empty input is a no-op; a duplicate alerts and keeps the list and the input; a new time yields a sorted list that is the old list plus that time, one longer, with the input cleared; strict ascent and the absence of empty entries are preserved; no request is issued |
| `AdminDashboard.RemoveTime` | frontend/src/pages/AdminDashboard.tsx:69-71 | the time is gone, every other time keeps its count and relative order, an absent time changes nothing, strict ascent is preserved, and only the list changes |
| `AdminDashboard.RemoveTimeAt` | frontend/src/pages/AdminDashboard.tsx:70 | removing the time at index i of a strictly ascending list cuts out exactly that position |
| `JsArrays.WithoutInsert` | frontend/src/pages/AdminDashboard.tsx:65-70 | filtering out a time that was just inserted in place gives back the original list |
| `AdminDashboard.AddThenRemove` | frontend/src/pages/AdminDashboard.tsx:59-71 | adding a new time and then removing it restores the list |
| `AdminDashboard.RemoveThenAdd` | frontend/src/pages/AdminDashboard.tsx:59-71 | removing a chosen time and adding it again restores the list |
| `JsArrays.InsertIntoGap` | frontend/src/pages/AdminDashboard.tsx:65-70 | inserting an element of a strictly ascending list into the list without it puts it back in its old position |
| `AdminDashboard.LocalDateTimeInjective` | frontend/src/pages/AdminDashboard.tsx:77 | two different times on the same date give two different date-time texts, so the never-repeating chosen times reach `new Date` as pairwise different texts |
| `AdminDashboard.SlotRequests` | frontend/src/pages/AdminDashboard.tsx:76-82 | one slot request per time, in list order, each with the doctor id and the instant of date "T" time; the requests stop exactly at the first time whose date-time is not a valid instant |
| `AdminDashboard.Truthy` | frontend/src/pages/AdminDashboard.tsx:74 | `!selectedDoctorId` is true for null and for the empty id; it is a definition, and `SaveSlots`' contract states what the guard does |
| `AdminDashboard.SaveSlots` | frontend/src/pages/AdminDashboard.tsx:73-92 | without a truthy selected doctor nothing happens; otherwise the issued requests start with the converted prefix of the slot requests; when a time does not convert, exactly that prefix is issued and a failure alert is shown; when all convert, one slot request per time in list order; on full success, and always when there are no times (`Promise.all([])` resolves), the dialog closes, the alert reports the count and the list is re-fetched; a failed batch keeps the state and shows a failure alert; the times never change |
| `AdminDashboard.Step` | frontend/src/pages/AdminDashboard.tsx:129-269 | only the create, delete and save buttons reach the server, and no event breaks the time-list invariant |
| `AdminDashboard.Run` | frontend/src/pages/AdminDashboard.tsx:129-269 | a session is the events replayed through `Step`; its own contract only says there is one alert per event, and the session results are the lemmas below |
| `AdminDashboard.ReplaySplit` | frontend/src/pages/AdminDashboard.tsx:129-269 | replaying two batches of inputs one after the other is replaying the second from where the first ended, with the two batches' requests and alerts concatenated |
| `AdminDashboard.RunSplit` | frontend/src/pages/AdminDashboard.tsx:129-269 | a session cut in two ends where its second part ends when started from the end of the first, and issues the requests and alerts of the two parts in turn |
| `AdminDashboard.RunKeepsTimesInvariant` | frontend/src/pages/AdminDashboard.tsx:59-71 | any sequence of events keeps the times strictly ascending and free of empty entries |
| `AdminDashboard.ReachableTimesInvariant` | frontend/src/pages/AdminDashboard.tsx:18-71 | from the initial state, every reachable time list is strictly ascending with no empty entry |
| `AdminDashboard.LocalSessionIssuesNothing` | frontend/src/pages/AdminDashboard.tsx:129-269 | a session that never presses create, delete or save issues no request |

## Left out

- Rendering, JSX, styling, framer-motion animation and the `useAuth` admin gate (`AdminDashboard.tsx:94-108`). The handlers are modelled as callable whether or not the slot dialog is open. This covers more states than the page can reach, so the invariant is, if anything, stronger than needed.
- `fetchDoctors` and the `doctors` list (`AdminDashboard.tsx:21-28`). The re-fetch is recorded as a `GetDoctors` request, but its response and the list it fills in are not modelled.
- `new Date(...)` and `toISOString()` (`AdminDashboard.tsx:17, 77-79`). They depend on the clock and the time zone. Today's date is a parameter of `Init`. The conversion of a local date-time text to an instant is the parameter `toInstant`, whose `None` stands for the RangeError an invalid date raises.
- SaveSlots: the `Promise.all` outcome is one `allCreated` flag. Which slot requests failed, and the order in which their answers arrive, are not modelled, because the page only distinguishes all-succeeded from not. When there are no chosen times, the flag is ignored, because `Promise.all([])` always resolves.
- CreateDoctor, DeleteDoctor and SaveSlots: each handler runs as one atomic step, from the click to the server's answer, although each awaits the server. On the page, other events can arrive while a request is pending. For example, a second click on "Create" before the first POST returns sends a second `POST /doctors` with the same name, because the fields are cleared only after the `await`. A second click on "Save" sends duplicate slot posts. Text typed into the fields during a pending create is wiped by the clear that follows. The model's second `CreateDoctor` sees the cleared name and sends nothing. Interleavings of events with pending requests are not modelled.
- `console.error` logging and the exact text of the alerts. Alerts are the `Alert` datatype.
- JsStrings.Less compares Unicode scalar values, while JavaScript compares UTF-16 code units. The two orders differ only between characters above U+FFFF and those in U+E000 to U+FFFF, and the time field produces ASCII text.
- The set of white-space characters for `trim` follows the current Unicode space-separator category. It does not track changes between Unicode versions.
- `Backend/src/routes/doctorRoutes.ts` only registers Express routes. The controller behind them is not part of this model, so server-side validation, not-found errors and cascading deletion are not modelled.
- `Backend/scripts/clear-last-entry.ts` is a database maintenance script: it finds the newest doctor, deletes it and disconnects. It is pure I/O, and the cascade it relies on lives in a schema that is not part of this model.
