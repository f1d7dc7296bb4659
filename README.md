# Residential ISP portal — payment status, polls, store mapping and sign-in, in Dafny

The portal is a small browser application for a residential internet
provider. Residents see their payment status, their WiFi credentials and a
chat with the administration. The administrator sees every resident, edits
payment history and sends notices. All data lives in a hosted Postgres
backend.

This project models the parts of the portal that make decisions. Everything is
stated as values and state changes in Dafny:

- **Due dates and the calendar** (`Calendar`, `DueDates`):
  - the due-date normaliser `convertDateForInput`, which takes an ISO date, a
    Spanish long-form date such as `05 de marzo de 2025`, or nothing;
  - the ECMAScript `Date` arithmetic behind `getNextMonthDate`: `MakeDay`
    with day overflow, years 0–99 mapped to 1900–1999, `toISOString`
    printing the UTC date, and parsing `YYYY-MM-DDT23:59:59` as local time;
  - the end-of-day deadline test.
- **Admin view** (`Admin`):
  - the automatic `pending` → `overdue` rule;
  - the rows of the resident list and the status writes one render issues;
  - the re-derivation of a profile from its newest history row after a save;
  - the chat and overdue-notice messages;
  - the admin page's state (open manager, open chat, the message poll's
    counter and first-load flag) as a class.
- **Resident dashboard** (`Dashboard`): the status badge, the sent/received
  split of the chat, the message form, the WiFi panel, and the resident's
  message poll as a class.
- **Shared by both screens** (`PaymentStatus`, `WifiQr`): the status labels,
  and the WiFi QR payload together with a decoder for it.
- **Data layer** (`Store`):
  - the backend as three tables of rows;
  - `getProfile`'s shaping: defaults, field copies, messages oldest first,
    history newest first;
  - `updateProfile`'s camelCase → snake_case column mapping;
  - message, history and user deletion writes.
- **Sign-in and guards** (`Auth`):
  - the synthetic e-mail for user names;
  - the role/name fallback chains;
  - recognising a "zombie" account and resurrecting it;
  - the `requireAuth` / `requireAdmin` decisions.
- **JavaScript string semantics** (`Js`): truthiness and `||`, `\s`, ASCII
  `toLowerCase` plus the Kelvin sign, `trim`, `split`, `Number` on digit strings, `padStart`.

Outside inputs are parameters:

- "Now" is a `Calendar.Clock`: the local date, the milliseconds since local
  midnight, and `getTimezoneOffset()`.
- Backend calls are rows plus a success flag or reply per call.
- The Intl date formatter is a function parameter.

### Where the code and the system's written description disagree

The model follows the code in each case below:

- **An unknown month word.** The description says the normaliser always
  returns a valid ISO date. The code builds `yyyy-undefined-dd` when the
  regular expression accepts a word that is not in the month table:
  `DueDates.SetiembreIsUndefined` shows this for `05 de setiembre de 2025`.
  Such a date never parses, so the overdue rule never fires on it:
  `DueDates.UnknownMonthNeverDue`.
- **An ISO-shaped string that is not a real date.** Something like
  `2025-13-45` is returned unchanged.
- **"Today".** The fallback date is the UTC date of the current instant, not
  the local date (`DueDates.MissingDueDatePastDue`).

## Model

| member | source | states |
|---|---|---|
| `PaymentStatus.StatusText` | admin.js:109-113 | `paid` → `Pagado`, `pending` → `Pendiente`, and every other status (including `overdue`) → `Vencido`, each as an if-and-only-if; dashboard.js:134-138 is the same mapping |
| `Admin.StatusColor` | admin.js:103-107 | the badge CSS is green exactly for `Pagado`, amber for `Pendiente` and red for `Vencido`, with the exact strings |
| `Admin.OverdueRule` | admin.js:37-45 | the rule changes a status only from `pending` to `overdue`, and does so exactly when now is past 23:59:59 of the normalised due date; `paid`, `overdue` and other values never change |
| `Admin.OverdueIdempotent` | admin.js:37-45 | applying the rule twice gives the result of applying it once |
| `Admin.UnknownMonthNeverOverdue` | admin.js:38-42 | a long-form due date whose month word the table lacks never makes a profile overdue |
| `Admin.IsoDueDateOverdue` | admin.js:38-42 | a pending ISO due date turns overdue on any later local day, and not on an earlier day or on the day itself up to 23:59:59 |
| `Admin.Residents` | admin.js:25 | the filtered list holds only users whose role is `resident`, and every such user is in it |
| `Admin.RowOf` | admin.js:47-81 | a row shows the text and colour of the status after the rule, the due label `nextPaymentDate \|\| 'N/A'`, the unread marker exactly when some message from `resident` is unread, and the notify button exactly when the status is `overdue` |
| `Admin.RenderResidentList` | admin.js:19-101 | when a profile lookup rejects, nothing is rendered and no write is issued; otherwise the rows are those of the residents with a profile, in order, and the writes are the ids of the profiles that turn overdue, in order |
| `Admin.RenderRow` | admin.js:33-81 | one iteration of the render loop: no row and no write for a resident without a profile; otherwise the row of `RowOf` and a write exactly when the profile transitions |
| `Admin.WritesPerTransition` | admin.js:42-44 | one `{paymentStatus: 'overdue'}` write per resident whose profile transitions, in list order, and none for the others |
| `Admin.OpenChatClearsMarker` | admin.js:313-325 | after `openChat` marks a resident's messages read, that resident's row shows no unread marker |
| `Admin.SyncUpdates` | admin.js:268-287 | a missing reloaded profile aborts the handler; an empty history sends no update; otherwise `paymentStatus` is the newest row's status, promoted from `pending` to `overdue` once its date has ended, and `nextPaymentDate` is sent exactly on an insert (empty `histId`) as the formatted date `getNextMonthDate` prints (the UTC date of local midnight one month on); an invalid date aborts the handler before any write |
| `Admin.BuildSyncUpdates` | admin.js:272-287 | the field-by-field construction of `updates` computes exactly `SyncUpdates` |
| `Admin.SyncAgreesWithList` | admin.js:276-279 | for an ISO date, the sync's status rule and the list's overdue rule give the same status |
| `Admin.SyncAfterInsert` | admin.js:265-285 | at or west of UTC, after a newest history row is inserted, the update holds that row's (possibly promoted) status and the local date one month after its date |
| `Admin.AdminChatSend` | admin.js:360-371 | a chat text is sent, trimmed, to the open chat exactly when it is non-blank and a chat is open |
| `Admin.AdminChatSendTrimmed` | admin.js:363-365 | a sent text is non-empty, has no white space at either end, and comes from an input with a non-space character |
| `Admin.NotifyOverdue` | admin.js:396-408 | the notice is addressed to the alias, or to the username when the alias is empty; it fails when the profile is missing, or when the user row is missing and the alias is empty |
| `Admin.AdminView.constructor` | admin.js:16-17 | no manager or chat is open, the stored total is 0 and the first-load flag is set (also admin.js:438-439) |
| `Admin.AdminView.OpenManager` | admin.js:135-136 | `openManager` records the user and changes nothing else |
| `Admin.AdminView.OpenChat` | admin.js:313-314 | `openChat` records the user and changes nothing else |
| `Admin.AdminView.CloseManager` | admin.js:122-132 | once its timer has run, closing the manager modal clears the open manager and changes nothing else |
| `Admin.AdminView.CloseChat` | admin.js:158-161 | closing the chat clears the open chat and changes nothing else |
| `Admin.AdminView.CheckNewMessages` | admin.js:440-456 | a rejected lookup leaves the state unchanged and gives no notice; otherwise the notice fires exactly when this is not the first poll and the summed message count exceeds the stored one, the open chat is redrawn with it, and the count is stored and the first-load flag cleared |
| `Admin.CountMessages` | admin.js:443-447 | the loop's count is the sum of the message counts of the residents with a profile, and a rejected lookup ends the poll |
| `Admin.OwnMessageRaisesTotal` | admin.js:444-449 | a message the admin sends to a resident raises the counted total, so the next poll announces it as a new message |
| `Admin.TotalAfterAdd` | admin.js:444-447 | adding a message raises the total by the number of times its user is counted (when the user has a profile), and otherwise leaves it as it was |
| `Admin.ResidentCountIgnoresAdmin` | admin.js:444-449 | counting only residents' messages: an admin message leaves the count unchanged and a resident message raises it by one |
| `Dashboard.StatusClass` | dashboard.js:140-144 | `status-paid` exactly for `paid`, `status-pending` exactly for `pending`, and `status-error` for every other status |
| `Dashboard.BadgeAgrees` | dashboard.js:32-33 | the badge class and the badge text always agree (paid / pending / everything else) |
| `Dashboard.SenderLabel` | dashboard.js:177-183 | a message is drawn as sent ("Tú") exactly when it is not from `admin` |
| `Dashboard.ResidentSend` | dashboard.js:198-204 | a message is sent exactly when the input has a non-space character, and the sent text is the trimmed input |
| `Dashboard.ResidentMessageShowsAsSent` | dashboard.js:201-209 | the resident's sent message is stored unread and, as the newest message, is drawn last on the resident's side |
| `Dashboard.WifiDisplay` | dashboard.js:47-70 | credentials and QR are shown exactly when both SSID and password are non-empty; otherwise `Pendiente de configurar`, the dotted mask and no QR |
| `Dashboard.WifiHiddenUntilComplete` | dashboard.js:63-68 | with either credential missing or empty, neither the password nor a QR code is shown |
| `Dashboard.AdminOnlyEmpty` | dashboard.js:247-248 | the filtered list of admin messages is empty exactly when no message is from `admin` |
| `Dashboard.AdminOnlyLast` | dashboard.js:250 | the last filtered message is the last message from `admin` |
| `Dashboard.FirstPollSilent` | dashboard.js:245 | the first poll never notifies |
| `Dashboard.NoticeMeaning` | dashboard.js:245-251 | a later poll shows text `t` exactly when the count went up and `t` is the text of the last `admin` message at an index at or past the stored count |
| `Dashboard.ResidentPoller.constructor` | dashboard.js:232-233 | the stored count starts at 0 with the first-load flag set |
| `Dashboard.ResidentPoller.CheckNewMessages` | dashboard.js:240-255 | without a profile nothing changes and no notice is shown; with one, the notice is that of `NoticeMeaning`, the count is stored even when it went down, and the first-load flag is cleared |
| `Dashboard.NextPollAnnounces` | dashboard.js:245-251 | a message from `admin` added after the last poll is announced with its text; one from the resident is not |
| `WifiQr.WifiQrCode` | admin.js:198-211 | a QR payload exists exactly when both SSID and password are non-empty, and it is `WIFI:S:<ssid>;T:WPA;P:<pass>;;` (also dashboard.js:53-58) |
| `WifiQr.UnescapedPayloadCollides` | admin.js:202 | two different SSID/password pairs give the same payload as written |
| `WifiQr.PlainPayloadRoundTrip` | admin.js:202 | for values without reserved characters, the payload as written is the escaped one and decodes back to the pair |
| `WifiQr.EscapedPayloadRoundTrip` | admin.js:202 | the escaped payload decodes back to its SSID and password |
| `WifiQr.EscapedPayloadInjective` | admin.js:202 | distinct pairs get distinct escaped payloads |
| `WifiQr.EscapedPayloadSeparates` | admin.js:202 | the colliding pairs above get different escaped payloads |
| `Calendar.MakeDay` | admin.js:422-423 | `new Date(y, m-1, d)` / `setMonth` always lands on a real calendar day |
| `Calendar.MakeDayOfValid` | admin.js:422 | a real date is built unchanged |
| `Calendar.MakeDayNextMonth` | admin.js:423 | adding a month keeps the day when the next month has it, and otherwise overflows into the month after by the excess |
| `Calendar.ParseIsoDate` | admin.js:39 | a parsed `YYYY-MM-DDT23:59:59` is a real date inside the `Date` range |
| `Calendar.ParseFormatIso` | admin.js:424 | parsing the ISO text of a date gives the date back |
| `Calendar.UtcDateNotBeforeLocal` | admin.js:424 | at or west of UTC the UTC date of a local instant is never earlier than the local date, and equals it before UTC midnight |
| `Calendar.PastEndOfDayStays` | admin.js:42 | once now is past a day's end it stays past as time goes on |
| `DueDates.MonthSlotOfName` | admin.js:414 | the table maps the m-th month name to m written with two digits |
| `DueDates.UnknownWordSlot` | admin.js:416 | any other word (except the inherited `constructor`) gives `undefined` in the month slot |
| `DueDates.SearchFrom` | admin.js:415 | a regular-expression match has a 1–2 digit day, a lower-case word and a four-digit year |
| `DueDates.SearchFromNone` | admin.js:415 | the unanchored `match` finds nothing exactly when no match starts at any position |
| `DueDates.SearchFromLeftmost` | admin.js:415 | a match that is found is the one starting at the leftmost position where a match starts |
| `DueDates.NormalizeNoMatch` | admin.js:411-417 | a non-empty text that is not ISO-shaped and holds no long-form date anywhere gives today's UTC date |
| `DueDates.NormalizeLeftmostMatch` | admin.js:415-416 | otherwise the leftmost long-form date in the lower-cased text is rebuilt as `yyyy-<slot>-<dd>` |
| `DueDates.NormalizeIsoAndMissing` | admin.js:412-413 | an ISO-shaped string comes back unchanged; a missing or empty one gives today's UTC date |
| `DueDates.NormalizeLongForm` | admin.js:415-416 | a string whose lower-case form is any digit-free text followed by `<d> de <word><sep><yyyy>…` gives `yyyy-<slot of word>-<d padded to two digits>` |
| `DueDates.NormalizeSpanishLongForm` | admin.js:414-416 | with a month name, the slot is that month's two-digit number |
| `DueDates.NormalizeSpanishLongDate` | admin.js:414-416 | the Spanish long form of a date normalises to that date's ISO text |
| `DueDates.UnknownMonthNeverDue` | admin.js:415-416 | when the matched word is not a month, the result does not parse, so the due test never fires |
| `DueDates.SetiembreIsUndefined` | admin.js:416 | `05 de setiembre de 2025` becomes `2025-undefined-05`, which does not parse |
| `DueDates.MissingDueDatePastDue` | admin.js:412 | with no due date, the rule fires exactly when the UTC date of now differs from the local date in a way that makes the fallback day over |
| `DueDates.OneMonthOnMakeDay` | admin.js:422-423 | `setMonth(getMonth() + 1)` on a real date agrees with `OneMonthOn`, the reference definition (same day of the next month, December into January, a missing day running over into the month after), and lands on a real date in range |
| `DueDates.NextMonthOfFields` | admin.js:420-423 | any text whose first three `-`-separated fields read as a real date's year, month and day steps to `OneMonthOn` of that date |
| `DueDates.NextMonthOfIso` | admin.js:420-425 | on the ISO text of a date, the next-month step gives the ISO text of `OneMonthOn` of that date |
| `DueDates.NextMonthJanuary31` | admin.js:420-425 | `2025-01-31` → `2025-03-03` |
| `DueDates.NextMonthLeapJanuary30` | admin.js:420-425 | `2024-01-30` → `2024-03-01` in a leap year |
| `DueDates.NextMonthDecember` | admin.js:420-425 | `2025-12-15` → `2026-01-15` |
| `DueDates.NextMonthWestOfUtc` | admin.js:424 | at or west of UTC the code as written agrees with the local-date step |
| `DueDates.NextMonthEastOfUtcSlips` | admin.js:424 | at UTC+1 the code as written turns 2025-01-15 into 2025-02-14, where the local-date step gives 2025-02-15 |
| `Store.GetUsers` | store.js:11-20 | a failed query gives the empty list, a successful one every profile row |
| `Store.SingleProfile` | store.js:57-63 | `.single()` finds a row exactly when one row has the id |
| `Store.GetProfile` | store.js:53-105 | `null` on a failed lookup or without exactly one row; alias defaults to `''` and the other fields are copied; messages sorted oldest first and history newest first, each a permutation of the user's rows |
| `Store.LatestHistoryFirst` | store.js:73-77 | `paymentHistory[0]` is the most recently created history row |
| `Store.SortBy` | store.js:70 | the ordering is sorted and a permutation of its input |
| `Store.BuildSqlUpdates` | store.js:107-115 | each of the six columns is sent exactly when its camelCase field is defined, with the value unchanged, and nothing else is sent |
| `Store.CopyField` | store.js:110-115 | one `if (updates.f !== undefined) sqlUpdates.c = updates.f` line extends a correct mapping of the first n pairs to one of the first n + 1 |
| `Store.CredentialsNotColumns` | store.js:109-115 | `username` and `password` never reach the update |
| `Store.AddMessage` | store.js:135-150 | one new row is appended, with `sender_role` from `from` and `read` false; nothing else changes |
| `Store.AddMessageShowsLast` | store.js:135-150 | a newest message appears last in the profile's messages |
| `Store.MarkMessagesRead` | store.js:152-163 | exactly the user's messages from the given role become read |
| `Store.MarkReadClearsUnread` | store.js:152-163 | afterwards no such message is unread in the profile |
| `Store.AddHistoryItem` | store.js:167-179 | one history row is appended with the given fields |
| `Store.AddHistoryBecomesFirst` | store.js:167-179 | a newest history row becomes `paymentHistory[0]` |
| `Store.UpdateHistoryItem` | store.js:181-187 | every row with the id (of any user) takes the new fields; nothing else changes |
| `Store.DeleteHistoryItem` | store.js:189-195 | exactly the rows with the id disappear |
| `Store.DeleteUser` | store.js:197-210 | true exactly when the RPC or the fallback profile delete succeeds; the RPC removes the user's profile, messages and history and keeps every other user's rows; the fallback removes only the user's profile row, keeping every other profile and all messages and history; a failure changes nothing |
| `Store.DeletedUserHasNoProfile` | store.js:197-210 | after a successful delete the profile lookup finds no profile |
| `Auth.SynthEmail` | auth.js:14-17 | the login identifier always contains `@`, and an identifier that already contains `@` is used unchanged |
| `Auth.SynthEmailOfUsername` | auth.js:15-16 | an identifier without `@` becomes the identifier without white space plus `@portal.local`, with only that one `@` |
| `Auth.SynthEmailIdempotent` | auth.js:53-56 | synthesising twice is synthesising once |
| `Auth.SynthEmailIgnoresSpaces` | auth.js:15-16 | user names that differ only in white space get the same e-mail |
| `Auth.Login` | auth.js:8-50 | a sign-in error fails with its message; a missing profile fails with the deactivation message and signs out; success exactly with a profile, with role `profile.role \|\| metadata role \|\| 'resident'`, name `profile.username \|\| metadata name \|\| input`, and `username` the raw input |
| `Auth.LoginRoleAndName` | auth.js:43-44 | a successful login always has a role, `resident` without any other, and a non-empty name for a non-empty input |
| `Auth.ZombieErrorIgnoresCase` | auth.js:74-75 | the zombie test does not depend on letter case |
| `Auth.ServiceMessageIsZombie` | auth.js:75 | the service's own "User already registered" message is recognised |
| `Auth.HandleZombieUser` | auth.js:83-131 | a sign-in error fails with the mismatch message; a missing profile with a successful insert succeeds with a `paid`, 20 Mb row; a failed insert fails with its message; an existing profile fails with "ya está registrado" |
| `Auth.Register` | auth.js:52-81 | success returns the new user; a zombie error goes to `HandleZombieUser`; any other error fails with its message |
| `Auth.ZombieResurrection` | auth.js:104-127 | a resurrected row belongs to the signed-in zombie account, which had no profile, and is `paid` with speed 20 and the requested role and user name |
| `Auth.GetUser` | auth.js:138-150 | a page user exists exactly with a session, with the display name falling back to the e-mail |
| `Auth.RequireAuth` | auth.js:153-174 | no session → login page; a session without a profile → logout; granted exactly with both, as the session's page user |
| `Auth.RequireAdmin` | auth.js:176-183 | whatever `requireAuth` denies stays denied; granted exactly for a session with a profile and metadata role `admin`; sent to the dashboard exactly when such a session has any other role |

## Left out

- Rendering (HTML strings, modals, toasts, scrolling, the emoji pickers) and the browser APIs (sound, notifications, the QR image URL with `encodeURIComponent`) are not modelled. Only the values the screens show are.
- The 5-second `setInterval` polls and the `isRendering` re-entrancy flag are not modelled: each render or poll is one call. Fire-and-forget writes are returned as a list rather than awaited.
- The backend client is not modelled: each call is a success flag or a reply passed in. `findUserById` and the profile-existence checks are a function from id to row.
- `created_at` is an integer in milliseconds, and a message's `timestamp` equals it. Sort order among rows with equal `created_at` is left open by the backend; the model picks a stable order.
- `paymentStatus` is a string (not nullable). `internetSpeed` and the WiFi fields are optional values.
- The account password and the hashing and matching of credentials are not modelled.
- After a resurrection, `handleZombieUser` updates the auth metadata. That update's result is ignored by the code and is not modelled.
- `deleteUser`'s fallback: whether the backend cascades the profile delete to messages and history is unknown. The model keeps them.
- `Store.UpdateHistoryItem`: matches rows on `id` alone, as the code does (the user id it is given is not used).
- `saveProfileChanges` and `saveServiceChanges` (alias, speed and WiFi edits from the manager) are not modelled, nor are `openManager`'s form defaults (speed `|| 50`). They pass form values straight to `updateProfile`, whose mapping `Store.BuildSqlUpdates` models. `generateRandomPass` uses `Math.random` and is not modelled.
- The dashboard's `loadData` labels (`name || username`, `+ Agregar Alias`, `nextPaymentDate || 'Pendiente'`) and the history modal's table are presentation only and are not modelled.
- `simulateSpeedTest` is floating-point animation on a timer and is not modelled.
- `formatDateToSpanish` and `toLocaleString` depend on Intl locale data. The formatter is a function parameter. `DueDates.SpanishLongDate` is a reference long-form formatter, used only to state the normaliser's round trip.
- Time zones: one fixed offset from UTC. `Admin.SyncUpdates` sends the date the code prints at any offset; the lemmas that state it as the local date one month on (`Admin.SyncAfterInsert`) hold at or west of UTC. Daylight-saving changes are not modelled. The clock's year is between 1 and 9998.
- Date parsing: only the ISO form `YYYY-MM-DD` (and six-digit signed years) is modelled, with an overflowing day rolled into the next month as V8 does. Engines that reject such days, and the legacy non-ISO parser fallbacks, are not modelled.
- `Calendar.MakeDay`: the intermediate range check of `MakeDay` is folded into one final `Date` range test.
- `Js.ToLower`: maps the ASCII capitals and the Kelvin sign U+212A (whose lower case is ASCII `k`); every other character is kept. The one other character whose lower case holds an ASCII letter, U+0130, lowers to `i` plus U+0307. No match can hold that pair, so the model keeps U+0130 as it is; the match found is the same.
- `Js.Number`: reads decimal digit strings only. Signs, white space, exponents and fractions are not modelled; they make `getNextMonthDate` fail as an invalid date.
- `Dashboard.ResidentPoller.CheckNewMessages`: a rejected profile lookup is treated like a missing profile (no state change), which is what the unhandled rejection amounts to.

## Findings

| source | as written | input that shows it | evidently intended | confidence | as-written member | corrected member |
|---|---|---|---|---|---|---|
| admin.js:420-425 | the next due date is the UTC date of local midnight (`toISOString`) | time zone UTC+1, latest history date `2025-01-15` | the local date one month on, `2025-02-15` | high, not executed | `DueDates.NextMonthEastOfUtcSlips` (on `DueDates.NextMonthDateAsWritten`) | `DueDates.NextMonthOfIso` (on `DueDates.NextMonthDate`, which `Admin.SyncAfterInsert` states the sync with, at or west of UTC) |
| admin.js:202 | the WiFi QR payload pastes SSID and password in without escaping `\ ; , " :` | SSID `a;T:WPA;P:b` with password `c`, versus SSID `a` with password `b;T:WPA;P:c` | one payload per credential pair, with reserved characters escaped | high, not executed | `WifiQr.UnescapedPayloadCollides` (on `WifiQr.QrPayload`) | `WifiQr.EscapedPayloadRoundTrip` (on `WifiQr.EscapedQrPayload`) |
| admin.js:440-453 | the admin's message poll counts every message, its own included | the admin sends a chat message or an overdue notice to a resident; the next poll shows "Nuevo mensaje recibido." | announce only messages from residents, as the resident's poll filters by sender | medium, not executed | `Admin.OwnMessageRaisesTotal` (on `Admin.AdminView.CheckNewMessages`) | `Admin.ResidentCountIgnoresAdmin` (on `Admin.ResidentMessageCount`) |
