# Calendar booking core, modelled in Dafny

This project models the core of the calendar-booking backend.

- `EventsService` offers three things. `getFreeSlots` lists the free slots of a working day. `bookEventSlot` decides whether a meeting may be booked. `getBookedEvents` lists the bookings in a date range.
- The yup schemas in `events.validator.ts` decide which requests reach the service.
- The store query of `EventRepository` is modelled as the collaborator the service relies on.

Instants are integers, in milliseconds since the epoch. A booking is a `BookedSlot` with its start, its duration in minutes and its end. The store is a sequence of bookings. A query filters the sequence and orders it by start.

Modules:

- `EventTypes`: instants, bookings, conflict kinds.
- `EventRepository`: the range query.
- `SlotConflicts`: `checkSlotAvailablity`, as a loop proved against a recursive first-match function.
- `FreeSlots`: `getFreeSlots`, as a while loop proved against a recursive walk over the slot grid.
- `Booking`: `bookEventSlot` as a decision plus the record it returns, and `getBookedEvents`.
- `EventsValidator`: the three request schemas, as predicates.
- `Findings`: three defects of the code as written, each with its corrected definition.

In three places the code does not do what it evidently means to. The model follows the code, and each place is a row under "## Findings" with a corrected definition beside it:

- The conflict query of `bookEventSlot` fetches the bookings with `startTime >= start - 1h` and `endTime < start + 1h`, so an overlapping meeting that ends at or after `start + 1h`, or that starts before `start - 1h`, is never scanned.
- `getFreeSlots` fetches bookings with `endTime < windowEnd`, not `startTime < windowEnd`, so a meeting that ends at the end of the day is not fetched.
- A rejection's error code is always "UNKNOWN_ERROR", never the name of the rule that fired.

Separately, the insert inside the booking transaction is commented out (`EventsService.ts` lines 218-222), so an accepted booking writes nothing. `Booking.BookEventSlot` follows the code here too. `Findings.EventStore.BookEventSlot` models the transaction with the insert in place, on the corrected conflict query.

## Model

| member | source | states |
|---|---|---|
| EventTypes.AddMinutes | calendar-backend/events/services/EventsService.ts:20-25 | the result lies a whole number of minutes after `t`, exactly `minutes` of them, and a positive count moves strictly later |
| EventTypes.KindName | calendar-backend/events/constants/errorResponse.ts:1-12 | every key of `SlotConflictErrors` begins with "SLOT_" |
| EventTypes.Description | calendar-backend/events/constants/errorResponse.ts:1-12 | the text the table stores for each kind; it has no contract |
| EventTypes.KindNameInjective | calendar-backend/events/constants/errorResponse.ts:1-12 | the four keys of `SlotConflictErrors` are distinct, so a key names one conflict kind |
| EventRepository.Select | calendar-backend/events/repository/EventRepository.ts:24-26 | the filtered store holds each booking the filter keeps exactly as often as the store does, and nothing else |
| EventRepository.Insert | calendar-backend/events/repository/EventRepository.ts:27 | inserting into a start-ordered sequence keeps it start-ordered and one longer, with the new booking or the old head first |
| EventRepository.InsertAddsOne | calendar-backend/events/repository/EventRepository.ts:27 | inserting adds exactly the one booking to the sequence's contents |
| EventRepository.SortByStart | calendar-backend/events/repository/EventRepository.ts:27 | `orderBy("startTime", "asc")` yields a start-ordered permutation of its input |
| EventRepository.SlotsInInterval | calendar-backend/events/repository/EventRepository.ts:22-38 | the query result is start-ordered and holds exactly the stored bookings with `lo <= startTime` and `endTime < hi`, with their multiplicities |
| SlotConflicts.SlotRule | calendar-backend/events/services/EventsService.ts:125-149 | the three rules for one booking, in source order. A rule that fires names the kind fixed by how the two starts compare. For a non-empty request and a well-formed booking, a rule fires exactly when the two half-open intervals overlap. |
| SlotConflicts.SlotStatusOf | calendar-backend/events/services/EventsService.ts:109-155 | the scan never reports the working-hours conflict, and an empty candidate list is available |
| SlotConflicts.CheckSlotAvailability | calendar-backend/events/services/EventsService.ts:104-156 | the loop with its early exits returns the first-match status of the candidates |
| SlotConflicts.FirstMatchDecides | calendar-backend/events/services/EventsService.ts:117-155 | the scan reports kind k if and only if some candidate matches k and no earlier candidate matches any rule; it reports available if and only if no candidate matches |
| SlotConflicts.ConflictIffOverlap | calendar-backend/events/services/EventsService.ts:117-155 | for a non-empty request and well-formed bookings, the scan reports a conflict if and only if some candidate overlaps the request |
| SlotConflicts.SortedScanClassifies | calendar-backend/events/services/EventsService.ts:117-155 | on start-ordered candidates, the first match is determined by what matches, not by position. Any in-progress overlap wins, then a same-start booking, then a booking starting inside the request. |
| SlotConflicts.SortedScanIgnoresTieOrder | calendar-backend/events/repository/EventRepository.ts:27 | two start-ordered arrangements of the same bookings give the same status, so the store's order among equal starts cannot change a decision |
| FreeSlots.GridShape | calendar-backend/events/services/EventsService.ts:78-98 | the cursor visits `windowStart + k*step` for each k while it is below `windowEnd`, and no later point |
| FreeSlots.GridCount | calendar-backend/events/services/EventsService.ts:78-98 | a window of n whole steps has exactly n cursor positions |
| FreeSlots.GridWithin | calendar-backend/events/services/EventsService.ts:78 | every cursor position lies in `[windowStart, windowEnd)` |
| FreeSlots.Walk | calendar-backend/events/services/EventsService.ts:78-99 | every emitted slot lies in the window, and the slots are strictly ascending |
| FreeSlots.WalkOnGrid | calendar-backend/events/services/EventsService.ts:78-99 | every emitted slot is a cursor position of the grid |
| FreeSlots.WalkSlots | calendar-backend/events/services/EventsService.ts:74-101 | the while loop returns the recursive walk of the grid against the fetched bookings: emit when the cursor is before the next start, or when none is left; skip and advance on an exact hit; otherwise stall. The slots come out strictly ascending. |
| FreeSlots.GetFreeSlots | calendar-backend/events/services/EventsService.ts:58-102 | the result is the walk over the bookings with `startTime >= windowStart` and `endTime < windowEnd`, in start order, and no such booking's start is offered |
| FreeSlots.NeverEmitsBookedStart | calendar-backend/events/services/EventsService.ts:84-92 | over start-ordered bookings, the start of a booking is never emitted |
| FreeSlots.PassedBookingStalls | calendar-backend/events/services/EventsService.ts:84-92 | once the cursor passes the next booking's start without an exact hit, nothing more is emitted for the rest of the day |
| FreeSlots.ExhaustedWalkIsGrid | calendar-backend/events/services/EventsService.ts:93-95 | once all bookings are consumed, every remaining grid point is emitted |
| FreeSlots.NoBookingsGivesGrid | calendar-backend/events/services/EventsService.ts:78-99 | with no bookings, every grid point is free |
| FreeSlots.EightHourDayHasSixteenHalfHours | calendar-backend/events/services/EventsService.ts:78-99 | an empty eight-hour day on a 30-minute grid has exactly sixteen free slots, at `windowStart + k*30min` |
| FreeSlots.AlignedBookingSuppressesOneCell | calendar-backend/events/services/EventsService.ts:88-92 | a single booking on grid point m removes exactly that slot, and every other grid point stays free |
| FreeSlots.MisalignedBookingStalls | calendar-backend/events/services/EventsService.ts:88-92 | when the first fetched booking starts strictly between grid points m and m+1, only the first m+1 grid points are left free |
| Booking.Candidates | calendar-backend/events/services/EventsService.ts:184-197 | the candidates are start-ordered and are exactly the stored bookings with `startTime >= start - 1h` and `endTime < start + 1h` |
| Booking.Decide | calendar-backend/events/services/EventsService.ts:158-226 | an unreadable time fails; the working-hours rejection happens exactly when the start is outside `[windowStart, windowEnd)`, before the store is read; a failing read inside working hours is a store error |
| Booking.ThrownMessage | calendar-backend/events/services/EventsService.ts:128-180 | the thrown message is empty exactly for a conflict, whose `.name` lookup is undefined, or for a store error with an empty message; "Invalid time value" is never empty |
| Booking.Respond | calendar-backend/events/services/EventsService.ts:228-241 | success happens exactly for an accepted decision, with an empty code and "Slot Booked Successfully". Every rejection carries "UNKNOWN_ERROR", with the thrown message, which is empty for a conflict. |
| Booking.BookEventSlot | calendar-backend/events/services/EventsService.ts:158-242 | the step-by-step booking returns the response of the decision. A success has an empty code and the success message; a failure has "UNKNOWN_ERROR". |
| Booking.QueryKeepsOverlaps | calendar-backend/events/repository/EventRepository.ts:22-28 | the query result holds a booking overlapping the request exactly when the store holds one inside the query range |
| Booking.AcceptedIffNoCandidateOverlaps | calendar-backend/events/services/EventsService.ts:176-226 | for well-formed stored bookings and a positive duration, a booking is accepted if and only if it starts in working hours and no stored booking in `[start-1h, start+1h)` overlaps it |
| Booking.SameStartCandidateRejected | calendar-backend/events/services/EventsService.ts:126-129 | a stored booking with the same start that ends within the hour forces a rejection, reported as "UNKNOWN_ERROR" |
| Booking.GetBookedEvents | calendar-backend/events/services/EventsService.ts:244-265 | `[]` exactly when no stored booking lies in the range; otherwise the start-ordered bookings of the range, with their multiplicities, and `count` equal to their number |
| Booking.EmptyRangeHasNoEvents | calendar-backend/events/services/EventsService.ts:250-257 | for well-formed stored bookings, a range that does not go forward yields `[]` |
| EventsValidator.FullMatchPositionwise | calendar-backend/events/validation/events.validator.ts:9 | an anchored pattern of single-character atoms matches exactly the strings of its length that match atom by atom |
| EventsValidator.DateRegexIffShape | calendar-backend/events/validation/events.validator.ts:9 | `^\d{4}-\d{2}-\d{2}$` matches exactly the ten-character strings of four digits, a dash, two digits, a dash, two digits |
| EventsValidator.ResolveTimezone | calendar-backend/events/validation/events.validator.ts:31-46 | an absent timezone becomes "Asia/Kolkata"; a given one is accepted if and only if it is one of the seven names, and is then kept |
| EventsValidator.FreeSlotsQueryValid | calendar-backend/events/validation/events.validator.ts:4-48 | a passing free-slots query has a ten-character `slotTime` that parses, and an absent or allowed timezone |
| EventsValidator.FreeSlotsQueryValidIff | calendar-backend/events/validation/events.validator.ts:4-48 | the free-slots query passes exactly when `slotTime` is present, date-shaped and parses, and the timezone is absent or allowed |
| EventsValidator.DigitsValue | calendar-backend/events/validation/events.validator.ts:71-79 | the decimal value of n digits is below 10^n |
| EventsValidator.DigitsLexIsNumeric | calendar-backend/events/validation/events.validator.ts:71-79 | equal-length digit strings compare in string order exactly as their values compare, and are equal exactly when their values are |
| EventsValidator.LexLeqConcat | calendar-backend/events/validation/events.validator.ts:71-79 | string order on concatenations of equal-length prefixes is decided by the prefixes, then by the rests |
| EventsValidator.DateLexByParts | calendar-backend/events/validation/events.validator.ts:71-79 | string order on date-shaped strings compares the year part, then the month part, then the day part |
| EventsValidator.KeyByParts | calendar-backend/events/validation/events.validator.ts:71-79 | the number `Y*10000 + M*100 + D` with two-digit month and day orders days by year, then month, then day |
| EventsValidator.DateLexIsCalendar | calendar-backend/events/validation/events.validator.ts:71-79 | two date-shaped strings compare in string order exactly as their (year, month, day) keys compare |
| EventsValidator.IsAfterStart | calendar-backend/events/validation/events.validator.ts:71-79 | the test passes when either date is missing; an equal start and end pass exactly when the date parses; a pass with both present means both parse and the end is not before the start |
| EventsValidator.BookedSlotsQueryValid | calendar-backend/events/validation/events.validator.ts:51-81 | a passing list query has two ten-character dates that parse, the end not before the start |
| EventsValidator.BookedSlotsQueryValidIff | calendar-backend/events/validation/events.validator.ts:51-81 | the list query passes only for two present, date-shaped dates that parse. When both name calendar days and the parser orders calendar days as the calendar does, it passes exactly when both parse and the end date is not lexicographically before the start date. |
| EventsValidator.SameReadingOutOfOrder | calendar-backend/events/validation/events.validator.ts:71-79 | two date-shaped strings that parse to the same instant pass the list query in either order, even when the end date is lexicographically before the start |
| EventsValidator.RolloverExampleDates | calendar-backend/events/validation/events.validator.ts:56-70 | "2024-02-30" is date-shaped and passes the regex, names no calendar day, and keys before "2024-03-01" |
| EventsValidator.SlotTimeValid | calendar-backend/events/validation/events.validator.ts:86-97 | a passing booking time is present, parses, and is not a bare `YYYY-MM-DD` date |
| EventsValidator.DurationValid | calendar-backend/events/validation/events.validator.ts:104-118 | a passing duration is an integer from 15 to 480 and a multiple of 15 |
| EventsValidator.AdmittedDurations | calendar-backend/events/validation/events.validator.ts:104-118 | the admitted durations run from 15 to 480 minutes, thirty-two of them |
| EventsValidator.DurationValidIff | calendar-backend/events/validation/events.validator.ts:104-118 | a duration passes exactly when it is one of 15, 30, …, 480 |
| EventsValidator.CreateBookingValid | calendar-backend/events/validation/events.validator.ts:84-120 | a passing booking request has a time that parses and is not a bare date, and a duration from 15 to 480 |
| EventsValidator.AdmittedBookingIsBounded | calendar-backend/events/validation/events.validator.ts:84-120 | an admitted booking has an integer duration between 15 and 480 that is a multiple of 15, and a slot time containing 'T' |
| Findings.AsWrittenMissesSameStartMeeting | calendar-backend/events/services/EventsService.ts:184-197 | as written, inside working hours, a 30-minute request at the start of a stored 60-minute meeting is accepted although the two overlap |
| Findings.AsWrittenMissesLongMeetingStartedEarlier | calendar-backend/events/services/EventsService.ts:184-197 | as written, inside working hours, a request in the middle of a stored six-hour meeting is accepted although the two overlap |
| Findings.SlotsStartingIn | calendar-backend/events/repository/EventRepository.ts:22-28 | the corrected query is start-ordered and holds exactly the stored bookings whose start lies in the range |
| Findings.DecideCorrected | calendar-backend/events/services/EventsService.ts:158-226 | with the corrected query, the working-hours rejection still happens exactly when the start is outside the window |
| Findings.CorrectedQueryKeepsOverlaps | calendar-backend/events/repository/EventRepository.ts:22-28 | the corrected query holds an overlapping booking exactly when the store holds one starting in the range |
| Findings.WideWindowCatchesEveryOverlap | calendar-backend/events/services/EventsService.ts:184-197 | with every meeting at most 480 minutes long, every stored booking that overlaps a request starts within 480 minutes of it |
| Findings.CorrectedAcceptsIffNoOverlap | calendar-backend/events/services/EventsService.ts:176-226 | with every stored booking bounded (ending after its start, at most 480 minutes later) and a duration of 1 to 480 minutes, the corrected decision accepts a booking if and only if it starts in working hours and overlaps no stored booking |
| Findings.AcceptedOverlapsNothing | calendar-backend/events/services/EventsService.ts:176-226 | with every stored booking bounded (ending after its start, at most 480 minutes later) and a duration of 1 to 480 minutes, a booking the corrected decision accepts overlaps no stored booking |
| Findings.AdmittedMeetingIsBounded | calendar-backend/events/services/EventsService.ts:161 | a meeting of 1 to 480 minutes, stored with `end = start + duration`, ends after it starts and lasts at most 480 minutes |
| Findings.InsertKeepsDisjoint | calendar-backend/events/services/EventsService.ts:213-222 | adding a booking that overlaps nothing keeps the store free of overlaps |
| Findings.InsertKeepsBoundedDisjoint | calendar-backend/events/services/EventsService.ts:213-222 | adding a bounded booking that overlaps nothing keeps every stored meeting bounded and the store free of overlaps |
| Findings.EventStore.BookEventSlot | calendar-backend/events/services/EventsService.ts:191-241 | the transaction with the insert restored. It responds to the corrected decision and stores the new booking exactly when it reports success, and it keeps the store bounded and free of overlaps. |
| Findings.AsWrittenLastCellShownFree | calendar-backend/events/repository/EventRepository.ts:26 | as written, a booking of the last 30-minute cell of an eight-hour day is not fetched, and its start is offered as free |
| Findings.GetFreeSlotsCorrected | calendar-backend/events/services/EventsService.ts:58-102 | with the query on start alone, no stored booking that starts in the window has its start offered, and every offered slot is a grid point |
| Findings.BookedStartNotOffered | calendar-backend/events/services/EventsService.ts:58-102 | round trip: once a booking starting in the window is stored, its start is no longer offered |
| Findings.AsWrittenConflictsIndistinguishable | calendar-backend/events/services/EventsService.ts:233-241 | as written, every conflict kind produces the same response: failure, "UNKNOWN_ERROR", an empty message |
| Findings.RespondCorrected | calendar-backend/events/services/EventsService.ts:233-241 | a conflict carries its `SlotConflictErrors` key as the code and its text as the message; success and other failures are unchanged |
| Findings.CorrectedCodeIdentifiesKind | calendar-backend/events/services/EventsService.ts:233-241 | with the corrected response, the error code determines the conflict kind |

## Left out

- Working hours: `getSlotAvailableHours` is not modelled. It builds the window with dayjs in a timezone, from `START_HOUR` and `END_HOUR`. Its two instants are parameters here, because the timezone database is outside the model.
- Configuration: the values of `process.env` (`START_HOUR`, `END_HOUR`, `DURATION`, `TIMEZONE`) are parameters.
- `addMinutes`: modelled as adding `minutes * 60000` ms. The source uses `setMinutes` on a local `Date`. Daylight-saving jumps are not modelled.
- Date parsing: `new Date(...)` is a parameter (`parse`, or an optional instant). The bound of about 8.64e15 ms on a valid `Date` is not modelled.
- `formatTimeSlot` and the display strings of free slots are left out. They are locale formatting only. The model returns the slot instants.
- Firestore is not modelled: its transactions, retries, concurrent writers and document ids. The order of bookings with equal starts is not modelled either. `SortedScanIgnoresTieOrder` shows that this order cannot change a booking decision.
- I/O is left out: the Express routing, the controllers' HTTP status codes, logging and the frontend.
- yup's coercion of non-string and non-number inputs is not modelled. The duration is a `real` value, and the date fields are optional strings.
- Validated values are not applied: the middleware discards the values yup casts (`validation.middleware.ts` lines 37-40 are commented out). So the default timezone never reaches the service, and `ResolveTimezone` states what the schema computes, not what the service receives.
- Prototype keys: the catch block's lookup of a thrown message such as "constructor" in `SlotConflictErrors` is not modelled. The conflicts the model can throw all give the empty message.
- GetBookedEvents: its `startingDate` is set to local midnight by `setHours(0, 0, 0)` on a server-local `Date`, which is not modelled; the range's two ends are parameters.
- FreeSlots.GetFreeSlots and FreeSlots.WalkSlots: they require a positive duration. With `DURATION` zero or negative, the source's loop never ends.
- Findings.EventStore.BookEventSlot: it requires a duration of 1 to 480 minutes. That is a superset of what the booking schema admits, the multiples of 15 from 15 to 480. The as-written `Booking.BookEventSlot` has no such requirement.
- EventsValidator.BookedSlotsQueryValidIff: the lexicographic reading of the date order is proved only for calendar days. `new Date` in V8 rolls a day past the month's end over, reading "2024-02-30" as March 1st, so for such dates the order is whatever the parser gives. `SameReadingOutOfOrder` and `RolloverExampleDates` show the query from "2024-03-01" to "2024-02-30" passing under that reading.
- EventTypes.Description: the texts are the table's values, carried as data; the model states no property of them.

## Findings

| source | as written | input that shows it | evidently intended | confidence | as-written member | corrected member |
|---|---|---|---|---|---|---|
| calendar-backend/events/services/EventsService.ts:184-197 with calendar-backend/events/repository/EventRepository.ts:25-26 | the conflict candidates are the bookings with `startTime >= start - 1h` and `endTime < start + 1h` | stored [T, T+60min), request at T for 30 min, T in working hours: the stored booking ends at exactly `start + 1h`, so it is not fetched and the request is accepted | every stored booking that overlaps the request is scanned, so a booking is accepted only when it overlaps nothing | high, not executed | Findings.AsWrittenMissesSameStartMeeting | Findings.CorrectedAcceptsIffNoOverlap |
| calendar-backend/events/services/EventsService.ts:69-72 with calendar-backend/events/repository/EventRepository.ts:26 | free-slot bookings are fetched with `endTime < windowEnd` | eight-hour day, 30-minute grid, stored [windowEnd-30min, windowEnd): the booking is not fetched, and windowEnd-30min is offered as free | bookings starting in `[windowStart, windowEnd)` are fetched, and a booked start is never offered | high, not executed | Findings.AsWrittenLastCellShownFree | Findings.GetFreeSlotsCorrected |
| calendar-backend/events/services/EventsService.ts:128-180 with calendar-backend/events/services/EventsService.ts:235-239 | a conflict is thrown as `new Error(SlotConflictErrors.X.name)`, and the catch reads `errorInfo?.name` | any conflict, e.g. a request outside working hours: the table's values are strings, so `.name` is undefined, and the response is "UNKNOWN_ERROR" with an empty message | the response names the conflict rule that fired and gives its text | high, not executed | Findings.AsWrittenConflictsIndistinguishable | Findings.RespondCorrected |
