# ResCare maintenance requests, modelled in Dafny

ResCare is a residence maintenance system. Students register, log in and
file maintenance requests. Administrators move each request from Pending to
Approved to Completed. Every new or changed request is pushed over Socket.IO
to the administrators' room and to the room of the author's residence and
block.

This project models the following parts in Dafny and proves properties
about them:

- the Express service in `server.js`;
- the list reducers, status classes and action buttons of the administrator
  and student pages;
- the dashboard counters;
- the registration form's input filter and submit gate.

Modules, one per concern:

- `Wrappers`: `Option`, `Outcome` and `Result`.
- `Text`: JavaScript `trim`, ASCII `toLowerCase` and `length` in UTF-16 code units. Equality under the
  database collation is modelled as ASCII case folding.
- `Validation`: the register handler's checks: presence, the email regular
  expression, password length and the contact number.
- `Schema`: a row of each table, the status vocabulary and the column limits.
- `Queries`:
  - `COALESCE` resolution of a request's display fields: live account first,
    snapshot second;
  - the block filter;
  - `ORDER BY dateCreated DESC`;
  - the two list queries.
- `Rooms`: the Socket.IO room names.
- `Server`: class `Service`.
  - Its fields are the three tables, their AUTO_INCREMENT counters, the log
    of emitted events and the rooms each connection has joined.
  - Each route handler is a method that states every error answer and the
    complete new state.
  - The tables' invariant (`TablesValid`) is kept by every handler.
- `RequestViews`: the `new-request` and `request-updated` reducers shared by
  the three list pages, and `getStatusClass`.
- `ViewConsistency`: when a page's list, patched by the events it receives,
  equals what the list query would return now.
- `AllRequests`: the APPROVE and COMPLETE buttons.
- `StudentRequests`: the fetch path, the room pair and the server's route
  matcher.
- `AdminDashboard`: the status counts.
- `Registration`: the form state as class `RegistrationPage`, with
  `handleChange`, `allFilled` and the submit gate.

Inputs:

- bcrypt's hash is a parameter of `Register`, and bcrypt's comparison is a
  function parameter of `Login`.
- The verified JWT payload is an `Identity` parameter.
- The database clock is the `now` parameter of `CreateRequest`.
- `parseInt` of a path segment is an `Option<int>`, with `None` for NaN.

Where the code's behaviour is surprising, the model follows the code:

- Login lower-cases the email before both lookups, and the duplicate check
  compares under the collation.
- The page's submit gate does not check the password's length, so
  `Registration.GateAllowsShortPassword` shows a form that the gate lets
  through and the server refuses. The browser's `minLength` attribute is what
  stops that form.
- With student-supplied residences, room names can collide.
  `Rooms.StudentRoomsCanCollide` gives an example. The four residences the
  registration form offers never collide
  (`Registration.FormResidenceRoomsDistinct`).
- A block containing `/` makes the student page fetch a path that the
  block route reads differently (`StudentRequests.SlashInBlockBreaksFetch`).
- The block query compares residence and block under the case-insensitive
  collation, but room names are compared exactly. The page of block "a"
  therefore lists requests filed from block "A", yet never receives their
  `new-request` or `request-updated` events, which go to the room of block
  "A" (`ViewConsistency.BlockListWiderThanRoom`).
- The length checks use JavaScript's `length`, which counts UTF-16 code
  units (`Text.Utf16Length`): a character outside the Basic Multilingual
  Plane counts twice (`Text.AstralCountsTwice`).

## Model

| member | source | states |
|---|---|---|
| Text.Trim | server.js:391-392 | the result is a contiguous slice of the input with only white space cut off either end, and it neither starts nor ends with white space |
| Text.TrimEmptyIffBlank | src/Student/Registration.jsx:44-51 | `s.trim()` is falsy exactly when `s` is all white space |
| Text.Lower | server.js:392 | lower-casing keeps the length, turns each upper-case ASCII letter into its lower-case letter and changes no other character |
| Text.Utf16Length | server.js:558 | JavaScript's `length` lies between the number of characters and twice that, and equals the number of characters exactly when every character is in the Basic Multilingual Plane |
| Text.DigitsUtf16Length | server.js:377 | a string of decimal digits has as many code units as characters |
| Text.AstralCountsTwice | server.js:558 | every character outside the Basic Multilingual Plane is one character but two code units |
| Text.Utf16LengthAppend | server.js:558 | the code-unit count of a concatenation is the sum of the parts' counts, so a length is the sum of its characters' widths |
| Text.LowerIdempotent | server.js:392 | lower-casing a lower-cased email changes nothing |
| Text.SameTextLowered | server.js:478 | looking up the lower-cased input under the collation finds the same rows as looking up the raw input |
| Validation.ValidateEmail | server.js:283-286 | `validateEmail` holds exactly of the strings `^[^\s@]+@[^\s@]+\.[^\s@]+$` matches |
| Validation.EmailScanMatchesPattern | server.js:283-286 | the scan at the first '@' that computes `validateEmail` accepts exactly the strings the regular expression matches |
| Validation.EmailScanSound | server.js:283-286 | every email the scan accepts splits into local part, '@', host, '.', top-level part, each a non-empty run without white space or '@' |
| Validation.EmailScanComplete | server.js:283-286 | every string of that shape passes the scan |
| Validation.ValidatePassword | server.js:288-290 | a missing password fails; a passing one has at least three characters; six characters always pass; for text inside the Basic Multilingual Plane it passes exactly from six characters on |
| Validation.CheckRegistration | server.js:364-379 | the first failing check decides: missing field, then bad email, then a password under six code units, then a contact number that is not ten digits; no error exactly when all four pass |
| Schema.StatusesDistinct | server.js:689 | the three listed statuses are different strings |
| Queries.Resolve | server.js:623-628 | the row keeps every request column and shows the live account's name, residence and block while the author has an account, and the snapshot's once it is gone |
| Queries.InBlockShowsPair | server.js:623-630 | the WHERE clause `InBlock` keeps a request whose resolved row shows the residence and block (under the collation); when the request has no account, or its snapshot agrees with the account, it keeps it only then |
| Queries.InsertByDate | server.js:631 | inserting into a newest-first list keeps it newest first and adds exactly the one row |
| Queries.PrependNewest | server.js:631 | a row no older than the head may go in front of a newest-first list |
| Queries.SortNewestFirst | server.js:661 | the ordered result is newest first and a permutation of its input |
| Queries.SortedMembers | server.js:661 | ordering keeps exactly the rows it is given |
| Queries.FilterBlock | server.js:628-630 | a request is kept exactly when it is in the table and its live account or its snapshot is in the given residence and block |
| Queries.ResolveAllMembers | server.js:655-660 | a row is in the resolved list exactly when it is some request of the table, resolved |
| Queries.ListAll | server.js:651-662 | the full list has one row per request and is newest first |
| Queries.ListAllSpec | server.js:653-662 | the full list holds every request resolved and nothing else |
| Queries.BlockMember | server.js:622-632 | a row is in the block list exactly when it is a resolved request whose account or snapshot is in that block |
| Queries.ListByBlock | server.js:618-632 | the block list is newest first |
| Queries.ListByBlockSpec | server.js:622-632 | the block list holds exactly the resolved requests of that block |
| Rooms.AdminRoomIsNoStudentRoom | server.js:273-280 | no student room is the administrators' room |
| Rooms.StudentRoom | server.js:260 | a student room name is the prefix, the residence, the infix and the block, in that order, as the join handler and the broadcast helper both build it (server.js:278) |
| Rooms.StudentRoomInjectiveForEqualLengths | server.js:260 | two pairs with residences of equal length give the same room only if they are the same pair |
| Rooms.StudentRoomsCanCollide | server.js:278 | two different (residence, block) pairs can give the same room name |
| Server.ToAdmins | server.js:273-275 | the event goes to the administrators' room, which is no student room, with its name and payload |
| Server.ToStudentRoom | server.js:277-280 | the event goes to the pair's room, which is not the administrators' room, with its name and payload |
| Server.SnapshotRows | server.js:434-441 | the deleted student's requests carry the student's name, residence and block; only the snapshot columns change; other authors' rows are untouched |
| Server.DetachRows | server.js:206 | after `ON DELETE SET NULL` the deleted student's rows have a NULL author; only `studentId` changes; other authors' rows are untouched |
| Server.NewRequest | server.js:572-575 | the inserted row has the given id, the author, the listed status Pending, the clock's time and the author's identity as snapshot |
| Server.DeleteRows | server.js:434-444 | after the snapshot UPDATE and the ON DELETE SET NULL, no request is lost; the deleted student's requests lose their author and carry the author's name, residence and block; every other request is unchanged |
| Server.SetStatus | server.js:713-716 | only the status of the rows with that id changes |
| Server.SetStatusTouchesOneRow | server.js:713-716 | with AUTO_INCREMENT ids the UPDATE changes exactly the one row with that id |
| Server.RegisterPreservesTables | server.js:390-393 | inserting a student with a fresh id and an unused lower-case email keeps the table invariant |
| Server.CreatePreservesTables | server.js:572-575 | inserting a request with the next id, a listed status and its author's snapshot keeps the invariant |
| Server.DeletePreservesTables | server.js:434-444 | snapshot, delete and detach keep the invariant |
| Server.SetStatusPreservesTables | server.js:689-716 | setting a listed status keeps the invariant |
| Server.Service.constructor | server.js:169-207 | the store starts with empty student and request tables, the seeded administrators, counters at 1 and no events |
| Server.Service.Register | server.js:362-393 | each failed check answers its error and changes nothing; a taken email changes nothing; otherwise exactly one student is added under the next id, with trimmed name, residence and block and the email lower-cased, and nothing else changes |
| Server.Service.InsertStudent | server.js:390-393 | the row takes the next id and keeps the invariant |
| Server.Service.Login | server.js:465-539 | missing input answers 400; an administrator match is decided by the administrator's password even when a student has the same email; otherwise the student match decides; no match is invalid credentials |
| Server.Service.DeleteStudent | server.js:411-444 | 0 or NaN answers 400, an unknown id 404 before any authorisation, a student deleting another 403, all without change; otherwise the account is removed and its requests are kept with the snapshot |
| Server.Service.RemoveStudent | server.js:434-444 | the tables after snapshot, delete and detach; nothing else changes |
| Server.Service.CreateRequest | server.js:551-601 | missing fields, input over 255 or 1000 UTF-16 code units and an unknown author change nothing; otherwise exactly one Pending request is added with the next id, trimmed text and the author's snapshot, and the joined row is emitted to the administrators' room and to the author's room |
| Server.Service.InsertRequest | server.js:572-575 | the new row's id is above every existing id and the invariant is kept |
| Server.Service.Emit | server.js:273-280 | one event is appended to the log and nothing else changes |
| Server.Service.UpdateStatus | server.js:681-746 | a missing or unlisted status and an unknown id change nothing; otherwise only that request's status changes, from any status to any listed one, and the resolved row is emitted to the administrators' room and to its resolved room |
| Server.Service.UpdateRequestStatus | server.js:713-716 | the requests table after the UPDATE; the invariant is kept |
| Server.Service.GetAllRequests | server.js:651-662 | the answer is the full list: newest first, every request resolved once |
| Server.Service.GetBlockRequests | server.js:618-632 | the answer is the block list: newest first, exactly that block's requests resolved |
| Server.Service.JoinAdminRoom | server.js:254-257 | the connection is now in the administrators' room |
| Server.Service.JoinStudentRoom | server.js:259-263 | the connection is now in the room built from the residence and block it sent |
| RequestViews.OnNewRequest | src/Admin/AllRequests.jsx:66-68 | the list grows by one; its head is the new row and its tail the old list |
| RequestViews.OnRequestUpdated | src/Admin/AllRequests.jsx:71-77 | the length is kept, rows with the update's id become the update, all others are unchanged |
| RequestViews.UpdateOfAbsentIdIsIdentity | src/Admin/AllRequests.jsx:72-76 | an update whose id is not in the list leaves it unchanged |
| RequestViews.UpdateIdempotent | src/Student/StudentRequests.jsx:60-66 | receiving the same update twice is receiving it once |
| RequestViews.UpdateDistributes | src/Admin/AdminDashboard.jsx:55-61 | the reducer works row by row, so it distributes over concatenation |
| RequestViews.UpdatedRowsFrom | src/Admin/AllRequests.jsx:72-76 | every row after an update is the update or was already in the list |
| RequestViews.StatusClass | src/Admin/AllRequests.jsx:108-119 | approved and completed in any case get their classes; every other status gets `status-pending` |
| RequestViews.StatusClassOfValidStatus | src/Student/StudentRequests.jsx:108-119 | a listed status gets `status-` followed by its lower-cased name |
| ViewConsistency.InsertMap | server.js:631 | inserting by date commutes with any change of rows that keeps dates |
| ViewConsistency.SortMap | server.js:661 | the ordering commutes with any change of rows that keeps dates |
| ViewConsistency.ResolveAllAppend | server.js:655-660 | resolving a table with one more request appends that request's resolved row |
| ViewConsistency.SortAppendNewest | server.js:661 | a row at least as new as all others is ordered first |
| ViewConsistency.FilterAppend | server.js:629 | the block filter keeps an appended request exactly when it is in the block |
| ViewConsistency.FilterMap | server.js:629 | the block filter commutes with a change that moves no request into or out of the block |
| ViewConsistency.CreateKeepsAdminView | src/Admin/AllRequests.jsx:66-68 | if the clock never runs backwards, prepending the emitted row to the administrators' list gives the list the query now returns; a request of the same second as an earlier one comes first only by the model's tie order |
| ViewConsistency.CreateKeepsBlockView | src/Student/StudentRequests.jsx:55-57 | if the clock never runs backwards, prepending the emitted row to the author's block list gives the block list the query now returns; a request of the same second as an earlier one comes first only by the model's tie order |
| ViewConsistency.ResolveSetStatus | server.js:697-716 | resolving after the status UPDATE is replacing by id, in the resolved list, with the updated row |
| ViewConsistency.SortUpdate | server.js:661 | ordering by date commutes with replacing by id, when the replacement has the date of the rows it replaces |
| ViewConsistency.FilterSetStatus | server.js:630 | the status UPDATE moves no request into or out of any block list |
| ViewConsistency.UpdateKeepsAdminView | src/Admin/AllRequests.jsx:71-77 | replacing by id with the emitted row gives the administrators' list the query now returns |
| ViewConsistency.UpdateKeepsBlockView | src/Student/StudentRequests.jsx:60-66 | replacing by id with the emitted row gives every block list the query now returns |
| ViewConsistency.BlockListWiderThanRoom | server.js:630 | a request filed from block "A" is in the block list of block "a", while the room of block "A" is not the room of block "a" (server.js:278) |
| ViewConsistency.DeletedRowResolvesAlike | server.js:434-444 | with current snapshots, a request shows the same card after its author's deletion and stays in exactly the blocks it was in |
| ViewConsistency.DeletionKeepsCards | src/Admin/AllRequests.jsx:146-158 | a student's deletion changes no card, and no card's place, in the administrators' list or in any block list |
| ViewConsistency.CardsOfMapped | src/Admin/AllRequests.jsx:146-158 | when a change leaves every request's card alone, the ordered lists show the same cards |
| AllRequests.Buttons | src/Admin/AllRequests.jsx:161-172 | Completed shows no buttons, Approved only COMPLETE, every other status APPROVE and COMPLETE |
| AllRequests.Rank | src/Admin/AllRequests.jsx:161-172 | the intended order of the listed statuses: Pending 0, Approved 1, Completed 2, each rank held by exactly one status |
| AllRequests.ButtonsMoveForward | src/Admin/AllRequests.jsx:161-172 | every shown button sends a listed status other than Pending, appears only on requests that are not Completed, and moves a listed status strictly forward |
| AllRequests.ForwardMovesHaveButtons | src/Admin/AllRequests.jsx:161-172 | every forward move between listed statuses has a button |
| StudentRequests.FetchPath | src/Student/StudentRequests.jsx:90-92 | the fetched path is the block route's prefix followed by the residence, a slash and the block |
| StudentRequests.ParsePair | server.js:618 | the two route parameters are non-empty and slash-free, and rejoin to the matched rest of the path |
| StudentRequests.RouteBlockPath | server.js:618 | a matched path is the fetch path of the parameters read, possibly with one trailing slash |
| StudentRequests.ParsePairRoundTrip | server.js:618 | two non-empty slash-free segments are read back from their joined form |
| StudentRequests.FetchPathRoundTrip | src/Student/StudentRequests.jsx:49-52 | for safe segments the server reads back exactly the pair the page joined its room with |
| StudentRequests.SlashInBlockBreaksFetch | src/Student/StudentRequests.jsx:90-92 | a block containing '/' is not read back |
| AdminDashboard.CountStatus | src/Admin/AdminDashboard.jsx:76-78 | the count is at most the list's length, and zero exactly when no row has that status |
| AdminDashboard.Summarize | src/Admin/AdminDashboard.jsx:76-79 | the total is the list's length and bounds each count |
| AdminDashboard.CountsPartitionTotal | src/Admin/AdminDashboard.jsx:76-79 | pending + approved + completed is at most the total, and equal to it when every status is listed |
| AdminDashboard.CountAppend | src/Admin/AdminDashboard.jsx:76-78 | counting distributes over concatenation |
| AdminDashboard.NewRequestCounts | src/Admin/AdminDashboard.jsx:50-52 | a new request raises the total by one and only the count of its own status, by one |
| AdminDashboard.UpdateKeepsTotal | src/Admin/AdminDashboard.jsx:55-61 | an update never changes the total |
| AdminDashboard.UpdateMovesOneCount | src/Admin/AdminDashboard.jsx:55-61 | with distinct ids, an update moves one row from its old status's count to its new status's count |
| Registration.ContactInputOk | src/Student/Registration.jsx:36 | a contact number the filter lets through is at most ten code units, and one of ten passes the server's contact check |
| Registration.AllFilled | src/Student/Registration.jsx:42-54 | a form that passes `allFilled` has every field the register handler demands, and equal, non-empty passwords |
| Registration.HandleChange | src/Student/Registration.jsx:33-40 | a contact number is taken only when it is at most ten digits, otherwise the form is unchanged; any other field takes the value verbatim; no other field changes |
| Registration.HandleChangeKeepsContact | src/Student/Registration.jsx:35-36 | a change keeps the contact number at most ten digits |
| Registration.ReplayKeepsContact | src/Student/Registration.jsx:19-40 | whatever is typed, starting from the empty form, the contact number stays at most ten digits |
| Registration.ToBody | src/Student/Registration.jsx:65 | the posted body carries the six fields the handler reads, as typed |
| Registration.GateMeetsServerChecks | src/Student/Registration.jsx:42-54 | a form the gate lets through passes the server's presence and contact checks, and with six or more password characters its strength check too |
| Registration.StartsFilled | src/Student/Registration.jsx:45 | a string starting with a non-space character is filled |
| Registration.GateAllowsShortPassword | src/Student/Registration.jsx:42-54 | the gate enables submission for a password the server refuses as too short |
| Registration.PrefixIdentifiesResidence | src/Student/Registration.jsx:146-152 | the first two letters tell the four offered residences apart |
| Registration.FormResidenceRoomsDistinct | src/Student/Registration.jsx:146-152 | two offered residences give the same room only with the same residence and block |
| Registration.RegistrationPage.constructor | src/Student/Registration.jsx:19-31 | the form starts empty, invalid and not loading |
| Registration.RegistrationPage.Change | src/Student/Registration.jsx:33-54 | the form after `handleChange`, with `isFormValid` recomputed by `allFilled` |
| Registration.RegistrationPage.SubmitDisabled | src/Student/Registration.jsx:174 | the button is disabled exactly when the form is not all filled or a registration is loading |
| Registration.RegistrationPage.Submit | src/Student/Registration.jsx:56-65 | a disabled button sends nothing; an enabled one starts loading and posts the form's body |
| Registration.RegistrationPage.StartLoading | src/Student/Registration.jsx:59 | loading starts and the form is kept |
| Registration.RegistrationPage.Finish | src/Student/Registration.jsx:103-105 | loading ends and the form is kept |

## Left out

- Password hashing and comparison (bcrypt), signing and verifying tokens (JWT) and the `authenticateToken` middleware: these are foreign libraries. The hash, the comparison function and the caller's identity are inputs.
- The MySQL pool, database creation and startup seeding of the administrator: this is I/O. The constructor takes the seeded administrators as its argument.
- The 500 answers on database errors. The model assumes every statement succeeds. The commonly reached ones are the column limits of server.js:172-176: a trimmed full name or email over 255 characters, a residence over 100 or a block over 50. `Register` promises a new student for such input, while MySQL's default strict mode refuses the INSERT; the same holds for request snapshots of such a student.
- Concurrency between requests. Each handler runs as one atomic step, although `DeleteStudent`'s two statements are separate and not in a transaction.
- Socket.IO transport, delivery and the disconnect callback, which only logs. Events are an append-only log.
- The `formatDateTime` and `toISOString` formatting: this depends on locale and the date library. `dateCreated` is an ordered integer timestamp.
- Express plumbing, static serving, the health and catch-all routes, and shutdown.
- Percent-decoding of route parameters, query strings and fragments in the fetched path, and Express's case-insensitive matching of the route's literal part: `RouteBlockPath` matches `/api/requests/block/` exactly, as the page always sends it. `FetchPathRoundTrip` holds only for segments free of `/ \ ? # %` and not equal to `.` or `..`.
- The order of requests created within the same second. `SortNewestFirst` puts the later row of the table first among equal dates. MySQL promises no particular order there.
- Server.NewRequest: its contract does not repeat that subject and description are stored trimmed; its definition applies `Text.Trim` to both, and `CreateRequest` states the new row through it.
- ViewConsistency.CreateKeepsAdminView: allows a request created in the same second as earlier ones; the prepended row is then first only by the model's tie order, not by any order MySQL promises.
- ViewConsistency.CreateKeepsBlockView: the same tie order, for the block list.
- CreateRequest: `studentId` is taken as an integer; a numeric string that MySQL would coerce is not modelled. The same holds for the `:id` parameter of the update route.
- UpdateStatus: the route is not behind `authenticateToken`, so any caller may change a status; the model has no identity parameter there because the code checks none.
- Text.Lower: covers ASCII letters only; the collation's folding of other letters is not modelled.
- Text.Utf16Length: Dafny strings are sequences of Unicode scalar values, so a JavaScript string holding an unpaired surrogate cannot be represented. JSON values that are not strings are not modelled.
- Registration: the browser's own `required`, `minLength` and `type="email"` checks, and the auto-login and navigation after a successful registration.
- AdminDashboard: the approved count is computed but not displayed; `Summarize` carries it anyway.
- The other pages (login, profile, new request, navigation bars, landing, help) and the build and deployment configuration.
