# Student portal decision logic, in Dafny

The portal is a set of React views over a hosted document store. Three small
pieces of it make decisions, and this project models and proves them:

- **Form lifecycle status** (`src/lib/statusCompute.ts`, module
  `StatusCompute`). A form has a start date and an end date. Each date is a
  string with an optional `HH:mm` time. `parseDateTime` turns each pair into
  an instant:
  - a string containing `-` goes to the platform's date parser unchanged;
  - a `DD/MM/YYYY` string is split on `/` and rebuilt as `YYYY-MM-DD`;
  - any other string goes to the platform's parser unchanged;
  - a truthy time sets hours and minutes and zeroes seconds and
    milliseconds; without one the instant is midnight.

  `computeFormStatus` then compares the current instant with both instants,
  using strict `<` and `>`. It answers `Upcoming`, then `Closed`, then
  `Open`. `computeFormsStatus` maps this over a list of forms.
- **Admin allow-list check** (`src/lib/adminAuth.ts`, module `AdminAuth`).
  `fetchAllowedEmails` reads the `admins/allowed` document:
  - a missing document, or an `emails` field that is not an array, gives
    the empty list;
  - an array gives its entries lower-cased;
  - a failed read is rethrown.

  `verifyAdminAccess` refuses a user without an email before reading
  anything. Otherwise it asks whether the lower-cased email is on the list.
- **Document type detection** (`src/pages/admin/DocumentsManagement.tsx`,
  module `DocumentType`). `detectDocType` classifies a lower-cased URL:
  - `PDF` if it ends in `.pdf`;
  - otherwise `Drive` if it contains `drive.google.com`;
  - otherwise `External`.

  `handleSubmit` stores that type on every create and update. The identical
  copy in `src/pages/admin/AdminDashboard.tsx:719-724` is covered by the same
  model.

The string operations these rely on are in module `Text`:
`toLowerCase`, `endsWith`, `includes`, `split` with its inverse `join`, and
`parseInt(_, 10)`. Module `Results` holds the `Option` and `Result` types.

Modelling choices:
- A JavaScript `Date` is `Instant`: either `At(ms)`, milliseconds since the
  epoch, or `Invalid`, the date whose time value is NaN. Every comparison
  with `Invalid` is false, as in JavaScript.
- The wall clock (`new Date()`) is the parameter `now`.
- The platform's string-to-date parser (`new Date(text)`) is the parameter
  `native`, a function from strings to instants. No claim is made about
  which strings it accepts. This still makes the `/` re-encoding provable:
  `d/m/y` parses exactly as `native("y-m-d")` does.
- The remote read of `admins/allowed` is an input value: `Missing`,
  `Present(field)` or `Failed(error)`. A thrown error is `Err(error)`.
- An asynchronous call is modelled by the outcome it settles to.

## Model

| member | source | states |
|---|---|---|
| `StatusCompute.ComputeFormStatus` | src/lib/statusCompute.ts:15-35 | `Upcoming` iff now is strictly before the start instant; else `Closed` iff now is strictly after the end instant; else `Open`. An invalid instant makes its comparison false |
| `StatusCompute.ParseDate` | src/lib/statusCompute.ts:48-59 | a string containing `-` goes to the native parser unchanged, even if it also contains `/`; a `/` string without `-` goes there re-encoded; any other string goes there unchanged |
| `StatusCompute.ParseDateTime` | src/lib/statusCompute.ts:45-73 | a date the parser rejects stays invalid whatever the time |
| `StatusCompute.NoTimeMeansMidnight` | src/lib/statusCompute.ts:65-70 | with no time, or an empty (falsy) one, the result is valid iff the date is, and is then midnight at the start of the parsed day |
| `StatusCompute.TimeSetsClock` | src/lib/statusCompute.ts:62-64 | with a time string, a valid date stays valid iff the hour and the minute parse. A valid result has 0 seconds and 0 milliseconds. An in-range `h:m` keeps the day and reads back as hour `h` and minute `m` |
| `StatusCompute.SetHoursClock` | src/lib/statusCompute.ts:64 | `setHours(h, m, 0, 0)` with an hour in 0..23 and a minute in 0..59 keeps the day and reads back as hour `h` and minute `m` |
| `StatusCompute.SetHours` | src/lib/statusCompute.ts:64 | `setHours(h, m, 0, 0)` gives a valid date iff the date is valid and `h` and `m` are numbers. A valid result is always a whole number of minutes |
| `StatusCompute.HourField` | src/lib/statusCompute.ts:63-64 | the hour is `parseInt` of the piece before the first `:`; a time without `:` is all hour |
| `StatusCompute.MinuteField` | src/lib/statusCompute.ts:63-64 | the minute is `parseInt` of the piece after the first `:`; a time without `:` has no such piece, so the minute is NaN |
| `StatusCompute.ClockFieldsReadBack` | src/lib/statusCompute.ts:63-64 | a time `hh:mm` with non-empty digit-only fields gives the decimal values of `hh` and `mm` as hour and minute |
| `StatusCompute.DigitTimeSetsClock` | src/lib/statusCompute.ts:62-64 | on a valid date, a digit-only `hh:mm` with hour below 24 and minute below 60 gives a valid instant on the same day that reads back as that hour and minute |
| `StatusCompute.NineThirty` | src/lib/statusCompute.ts:62-64 | on a valid date, the time `09:30` gives hour 9 and minute 30 |
| `StatusCompute.TimeWithoutColonIsInvalid` | src/lib/statusCompute.ts:62-64 | a non-empty time without `:` makes the result the invalid date, because its minute is NaN |
| `StatusCompute.TimeOfDay` | src/lib/statusCompute.ts:64 | an hour in 0..23 and a minute in 0..59 on a given day give a time value on that day that reads back as that hour and minute, with 0 seconds and 0 milliseconds |
| `StatusCompute.Reencode` | src/lib/statusCompute.ts:54-55 | the `year-month-day` rebuild of a `/` date never contains `/` |
| `StatusCompute.ReencodeSplitsBack` | src/lib/statusCompute.ts:54-55 | for a date without `-`, splitting the rebuilt string on `-` gives exactly the year, month and day pieces (each `undefined` when missing) |
| `StatusCompute.ReencodeDayMonthYear` | src/lib/statusCompute.ts:52-56 | `d/m/y` (pieces without `/`) is rebuilt as exactly `y-m-d` |
| `StatusCompute.ReencodeMissingYear` | src/lib/statusCompute.ts:54-55 | with too few pieces the missing year becomes the text `undefined`: `15/01` is rebuilt as `undefined-01-15` |
| `StatusCompute.SlashDateMatchesIsoDate` | src/lib/statusCompute.ts:49-56 | a `DD/MM/YYYY` date and the `YYYY-MM-DD` date with the same pieces give the same instant, with any time |
| `StatusCompute.SlashAndIsoFormsAgree` | src/lib/statusCompute.ts:49-56 | `15/01/2026`–`25/01/2026` and `2026-01-15`–`2026-01-25` give the same status at every instant, for every native parser |
| `StatusCompute.SameInstantsSameStatus` | src/lib/statusCompute.ts:24-34 | the status depends on the date strings only through the instants they parse to |
| `StatusCompute.StatusWithinWindow` | src/lib/statusCompute.ts:3-8 | for valid instants with start ≤ end: `Upcoming` iff now < start, `Open` iff start ≤ now ≤ end, `Closed` iff now > end |
| `StatusCompute.BoundariesAreOpen` | src/lib/statusCompute.ts:28-34 | the comparisons are strict: now equal to the start or to the end of a well-ordered window is `Open` |
| `StatusCompute.UpcomingWinsOverClosed` | src/lib/statusCompute.ts:28-31 | the start check comes first: with end < now < start the status is `Upcoming`, not `Closed` |
| `StatusCompute.InvalidBoundariesFallThrough` | src/lib/statusCompute.ts:28-34 | an invalid start never gives `Upcoming` and an invalid end never gives `Closed`; with both invalid the status is `Open` (no failure) |
| `StatusCompute.StatusMonotoneInTime` | src/lib/statusCompute.ts:28-34 | for any boundaries, valid or not, a later `now` never gives an earlier state in the order Upcoming, Open, Closed |
| `StatusCompute.DateOnlyEndClosesAtMidnight` | src/lib/statusCompute.ts:65-70 | an end date without an end time closes at 00:00 of that day. Once the start has passed, any later instant (10:00 on the end day, say) is `Closed` |
| `StatusCompute.ComputeFormsStatus` | src/lib/statusCompute.ts:82-89 | same length and order. Each element keeps every field except `status`, which becomes the status computed from that element's own dates and times |
| `AdminAuth.LowerAll` | src/lib/adminAuth.ts:15 | the normalised list has the same length and order as the array, and entry `i` is entry `i` lower-cased |
| `AdminAuth.FetchAllowedEmails` | src/lib/adminAuth.ts:5-20 | a failed read is an error carrying the read's own error, and only a failed read is. A missing document or a non-array `emails` field gives `[]`. Otherwise the result has the array's entries lower-cased, in the same order, and every entry is lower-case |
| `AdminAuth.VerifyAdminAccess` | src/lib/adminAuth.ts:22-26 | no user, or no (or empty) email, gives `false` whatever the read would give, even a failed one, so nothing is fetched. Otherwise a failed read is rethrown. Otherwise the answer is true iff some listed entry equals the email once both are lower-cased |
| `AdminAuth.FailureIsNeverRefusal` | src/lib/adminAuth.ts:16-24 | the answer is an error exactly when the user has an email and the read failed; a failed read is never turned into `false` |
| `AdminAuth.EmptyListRefusesEveryone` | src/lib/adminAuth.ts:8-13 | with the document missing, or with `emails` not an array, every user gets `false` |
| `AdminAuth.EmailCaseIgnored` | src/lib/adminAuth.ts:25 | two emails with the same lower-case form get the same answer |
| `AdminAuth.ListCaseIgnored` | src/lib/adminAuth.ts:15 | two allow-lists whose entries agree after lower-casing give the same answer to every user |
| `AdminAuth.ListedEmailAdmitted` | src/lib/adminAuth.ts:24-25 | a non-empty email that matches some entry case-insensitively is admitted |
| `AdminAuth.MixedCaseEntryAdmitted` | src/lib/adminAuth.ts:24-25 | a list holding `Admin@Example.com` admits `admin@example.com` |
| `AdminAuth.NormaliseIdempotent` | src/lib/adminAuth.ts:15 | normalising an already normalised list changes nothing |
| `Text.Lower` | src/lib/adminAuth.ts:15 | lower-casing keeps the length, maps each position through the character mapping, and leaves no upper-case letter |
| `Text.LowerIdempotent` | src/lib/adminAuth.ts:15 | lower-casing twice is lower-casing once |
| `Text.LowerFixesLowercase` | src/pages/admin/DocumentsManagement.tsx:122 | a string with no upper-case letter is unchanged by lower-casing |
| `Text.LowerAppend` | src/pages/admin/DocumentsManagement.tsx:122 | lower-casing distributes over concatenation |
| `Text.EndsWith` | src/pages/admin/DocumentsManagement.tsx:123 | a string that ends with the suffix is some prefix followed by that suffix |
| `Text.EndsWithAppend` | src/pages/admin/DocumentsManagement.tsx:123 | conversely, any prefix followed by the suffix ends with it |
| `Text.Includes` | src/pages/admin/DocumentsManagement.tsx:124 | `includes` is true iff the text occurs at some position |
| `Text.IncludesStep` | src/pages/admin/DocumentsManagement.tsx:124 | when the text does not start at the first character, it occurs in the string iff it occurs after the first character |
| `Text.Split` | src/lib/statusCompute.ts:54 | `split` gives at least one piece, no piece contains the separator, and joining the pieces with the separator gives back the string |
| `Text.SplitJoin` | src/lib/statusCompute.ts:54 | splitting undoes joining separator-free pieces |
| `Text.SplitAfterPiece` | src/lib/statusCompute.ts:54 | a separator-free prefix followed by the separator is split off as the first piece |
| `Text.SplitWithoutSeparator` | src/lib/statusCompute.ts:54 | a string without the separator is a single piece |
| `Text.SplitThree` | src/lib/statusCompute.ts:54 | three separator-free pieces joined by the separator split back into exactly those three |
| `Text.JoinOmits` | src/lib/statusCompute.ts:54 | a character absent from the joined string is absent from every piece, so the pieces of a string without `-` contain no `-` |
| `Text.Piece` | src/lib/statusCompute.ts:54 | a destructured position within the pieces is that piece; past the end it is `undefined`, read as the text "undefined" |
| `Text.ParseInt` | src/lib/statusCompute.ts:64 | `parseInt(s, 10)` by first character: empty is NaN; white space is skipped; a digit gives the value of the leading digit run; `+` or `-` then a digit gives that value with the sign; a sign then anything else is NaN; any other character is NaN |
| `Text.LeadingDigitsOfDigits` | src/lib/statusCompute.ts:64 | a digit-only string is its own leading digit run, so `parseInt` reads all of it |
| `Text.ParseIntDigits` | src/lib/statusCompute.ts:64 | a non-empty digit-only string parses to its decimal value |
| `DocumentType.DetectDocType` | src/pages/admin/DocumentsManagement.tsx:121-126 | `PDF` iff the lower-cased URL ends with `.pdf`; `Drive` iff it does not but contains `drive.google.com`; `External` iff neither. Exactly one of the three |
| `DocumentType.DetectIgnoresCase` | src/pages/admin/DocumentsManagement.tsx:122 | a URL and its lower-case form get the same type |
| `DocumentType.PdfSuffixIsPdf` | src/pages/admin/DocumentsManagement.tsx:122-123 | any URL ending in `.pdf` in any letter case (`.PDF`, `.Pdf`, ...) is `PDF`, a Drive link included: the PDF test wins |
| `DocumentType.DriveHostNeverExternal` | src/pages/admin/DocumentsManagement.tsx:124 | a URL containing `drive.google.com`, in any letter case, is never `External` |
| `DocumentType.EmptyUrlIsExternal` | src/pages/admin/DocumentsManagement.tsx:125 | the empty URL is `External` |
| `DocumentType.OpenDialog` | src/pages/admin/DocumentsManagement.tsx:97-114 | editing pre-fills the form with the document's title, description and URL; a new document starts from empty fields |
| `DocumentType.SubmitWrite` | src/pages/admin/DocumentsManagement.tsx:128-149 | an update of the edited document's id iff one is being edited, otherwise a create. The record has the form's title, description and URL, and a type equal to the type detected from that URL |
| `DocumentType.SubmittedTypeIgnoresOldDocument` | src/pages/admin/DocumentsManagement.tsx:131-135 | the stored type never comes from the document being edited: the same form for the same id writes the same record |
| `DocumentType.ResaveUnchanged` | src/pages/admin/DocumentsManagement.tsx:97-135 | opening a document and saving it unchanged writes back its fields with the type detected from its URL. The write equals the stored record iff its stored type already matched |

## Left out

- `Text.Lower`: lower-cases only the ASCII letters `A`–`Z`. JavaScript's `toLowerCase` also maps the other Unicode letters, including the ones whose lower-case form has a different length.
- `Text.ParseInt`: skips only the ASCII white space (tab, line feed, vertical tab, form feed, carriage return, space). `parseInt` also skips the other Unicode white space.
- `StatusCompute.ComputeFormsStatus`: uses one `now` for the whole list. The source reads the clock anew for each element, so two elements may see readings a few milliseconds apart.
- `StatusCompute.ComputeFormsStatus`: the source is generic over any record type that has the four date and time fields, and adds a `status` field to records that lack one. The model fixes the record type to the stored form entry, which already has `status`.
- Time zones: `new Date('YYYY-MM-DD')` is midnight UTC while `setHours` works in local time. The model counts days in a single time zone.
- Native date parsing (`new Date(text)`, statusCompute.ts:51, 55, 58) is a parameter. The model says nothing about which strings it accepts, and it does not model the valid range of time values (±8.64e15 ms).
- `String(e)` on the entries of `emails`: entries are given by their string renderings. How non-string values render is not modelled.
- Logging (`console.log`, `console.warn`, `console.error`) has no effect on results and is left out.
- `signOutUnauthorized` (adminAuth.ts:28-33) is a foreign sign-out call plus a log line. The `onAuthStateChanged` gating in every admin page is event-driven UI code that signs out, navigates and shows toasts. Both are left out.
- The store calls themselves (`createDocument`, `updateDocument`, `getDocuments`, `deleteDocument`) are not part of this model; `SubmitWrite` returns the write they would be given. Toasts, dialog state and reloading the list after a write are UI effects.
- Rendering, routing, the chat page, the devtools-blocking hook, configuration and mock data are presentational or configuration.
- The public pages partition forms by their stored `status`, and admins can set that field by hand. The model computes the derived status only; it does not relate the two.
