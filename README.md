# Appointment scheduling core — a Dafny model

This project models the scheduling engine of a doctor–patient consultation
platform: how bookable 30-minute slots are derived from a doctor's daily
availability window and the doctor's SCHEDULED appointments, how a booking
request is checked (patient, doctor, credits, overlap, video session,
credit ledger) before an appointment is inserted, how a doctor's
availability is replaced, and which lifecycle actions the appointment card
offers.

Timestamps are integers (milliseconds since the epoch). A day is
86 400 000 ms and a slot 1 800 000 ms. Re-anchoring an availability time
onto a calendar day is `dayStart + (t % MsPerDay)` in one implicit time
zone. Storage is the class `Storage.Store`, holding the `users`,
`appointments` and `availabilities` tables as sequences in insertion order.
It is passed explicitly to each action, where the code uses a global
database handle. The credit ledger and the video provider are oracles: the
booking methods receive the verdict each service would give and report
whether they called it.

Modules:

- `Wrappers`: Option and Result.
- `Entities`: records, unique-key lookups and the messages several actions share.
- `Overlap`: the three-clause test and the no-double-booking invariant.
- `Storage`: the store and its `create`/`deleteMany` operations.
- `Slots`: `getAvailableTimeSlots`.
- `BookingRules`: the ordered check chain shared by both booking paths.
- `Appointments`: `getDoctorById` and `bookAppointment`.
- `BookingRoute`: the HTTP `POST`.
- `DoctorAvailability`: `setAvailabilitySlots` and `getDoctorAvailability`.
- `CardGuards`: the appointment card's guards.

Main results:

- `Overlaps(cS, cE, eS, eE)` equals half-open overlap `cS < eE && eS < cE`
  whenever both intervals are non-empty. Back-to-back intervals never
  conflict.
- A shared instant is always flagged, even for degenerate intervals. Both
  booking paths therefore preserve "no two SCHEDULED appointments of one
  doctor share an instant". Neither path checks `startTime < endTime`.
- Each day's listing contains exactly the on-grid, not-past, non-conflicting
  30-minute steps of that day's window, in strictly ascending order. The
  listing has exactly four days, starting with today.
- In both booking paths the first failing check decides the error. The
  ledger and the video provider run only when every earlier check passed.
  No failing path inserts an appointment.
- Replacing availability keeps an old row of the doctor exactly when some
  appointment of the doctor (of any status) starts at the row's start. All
  other doctors' rows are kept. One new AVAILABLE row is appended.

Where the design intent and the code differ, the model follows the code:

- `setAvailabilitySlots` looks the doctor up by identity and role only.
  It does not require VERIFIED status.
- The keep/delete decision compares start times against all of the
  doctor's appointments, whatever their status, not only SCHEDULED ones.
- Neither booking path checks that `startTime < endTime`.
- The HTTP route makes video-session creation mandatory: a failed session
  fails the booking, before the ledger is called. The server action never
  creates a session.
- The ledger debit and the insert are two separate steps with no
  compensation.

## Model

| member | source | states |
|---|---|---|
| `Entities.FindPatient` | actions/appointments.ts:194-202 | The patient lookup yields a user with that id and role PATIENT; with unique ids it succeeds iff such a user exists. |
| `Entities.FindVerifiedDoctor` | actions/appointments.ts:215-225 | The doctor lookup yields a VERIFIED DOCTOR with that id; with unique ids it succeeds iff one exists. |
| `Entities.FindDoctorByClerkId` | actions/doctor.ts:19-28 | The caller lookup yields the DOCTOR signed in under that identity; with unique identities it succeeds iff one exists (verification not required). |
| `Overlap.Overlaps` | actions/appointments.ts:121-130 | On non-empty intervals the three-clause test is exactly half-open overlap `cS < eE && eS < cE`. |
| `Overlap.SharedInstantIsOverlap` | actions/appointments.ts:125-129 | Any two intervals that share an instant are flagged by the test, degenerate ones included. |
| `Overlap.OverlapIsSharedInstant` | app/api/book-appointment/route.ts:69-73 | On non-empty intervals the booking query's three OR-clauses flag exactly the pairs that share an instant. |
| `Overlap.AdjacentIntervalsDoNotOverlap` | actions/appointments.ts:125-129 | A slot ending where an appointment starts, or starting where it ends, is not flagged. |
| `Overlap.EmptyCandidateStillFlagged` | actions/appointments.ts:126 | A zero-length candidate at an appointment's start is flagged though it shares no instant, so the non-emptiness hypothesis is needed. |
| `Overlap.ScheduledOf` | actions/appointments.ts:233-236 | The overlap query ranges over exactly the doctor's SCHEDULED appointments. |
| `Overlap.ClearedBookingKeepsNoDoubleBooking` | actions/appointments.ts:232-293 | Appending a SCHEDULED appointment the test cleared against its doctor's SCHEDULED appointments keeps every pair of them instant-disjoint. |
| `Storage.RemoveIds` | actions/doctor.ts:76-82 | `deleteMany` by id keeps exactly the rows whose id is not listed. |
| `Storage.Store.CreateAppointment` | actions/appointments.ts:284-293 | Insert appends one SCHEDULED appointment with a fresh id and leaves the other tables alone. |
| `Storage.Store.DeleteAvailabilities` | actions/doctor.ts:76-82 | The availability table becomes the id-filtered table; ids stay keys. |
| `Storage.Store.CreateAvailability` | actions/doctor.ts:86-93 | Insert appends one AVAILABLE row with a fresh id. |
| `Slots.HorizonDay` | actions/appointments.ts:72 | The d-th horizon day key is a midnight exactly d days after the midnight of `now`'s day. |
| `Slots.DaySlots` | actions/appointments.ts:106-145 | The walk lists every on-grid step of the window whose 30-minute slot fits, does not start before `now` and clears every fetched appointment — and nothing else — in strictly ascending order, each slot 30 minutes long and labelled with its day. |
| `Slots.FirstAvailable` | actions/appointments.ts:59-68 | The availability lookup yields an AVAILABLE row of the doctor, and fails iff there is none. |
| `Slots.KeptRowShadowsNewRow` | actions/doctor.ts:76-93 | Once an AVAILABLE row of the doctor survives the replacement, the rows appended after it (the new window) are never chosen by the availability lookup: slot generation keeps reading the old row. |
| `Slots.HorizonAppointments` | actions/appointments.ts:75-84 | The fetched appointments are exactly the doctor's SCHEDULED ones starting no later than the end of the fourth day. |
| `Slots.AvailableTimeSlots` | actions/appointments.ts:44-168 | Missing doctor and missing availability fail with their prefixed messages in that order; otherwise the result is four day entries, keyed by the horizon days, whose display date is the key and whose slots are that day's listing. |
| `Slots.ListedSlotInWindow` | actions/appointments.ts:106-119 | Every listed slot is 30 minutes long, lies inside its day's re-anchored window, does not start before `now`, carries its day's label and lies within the four-day horizon. |
| `Slots.ListedSlotAvoidsBookedTime` | actions/appointments.ts:121-132 | No listed slot is flagged against, or shares an instant with, any fetched SCHEDULED appointment. |
| `Slots.ListingDaysAscend` | actions/appointments.ts:72-90 | The listing has four entries, the first for `now`'s day, each next one a day later. |
| `Slots.CrossMidnightWindowListsNothing` | actions/appointments.ts:92-112 | An availability whose end time of day is not after its start time of day yields empty lists on all four days. |
| `Slots.MorningWithOneBooking` | actions/appointments.ts:106-145 | A 09:00–12:00 window with a SCHEDULED 10:00–10:30 appointment offers exactly 09:00, 09:30, 10:30, 11:00 and 11:30. |
| `BookingRules.LedgerMessage` | actions/appointments.ts:279-281 | A ledger refusal surfaces its own message when that message is present and non-empty; an absent or empty message becomes exactly "Failed to deduct credits". |
| `BookingRules.FirstFailureFrom` | actions/appointments.ts:194-281 | The chain yields the index of the first failing check, or none exactly when all checks pass. |
| `BookingRules.FirstFailure` | app/api/book-appointment/route.ts:46-83 | The chain's verdict is "all pass" or the earliest failing check, all before it having passed. |
| `BookingRules.FirstFailureAt` | actions/appointments.ts:194-281 | If check k fails after all earlier checks pass, the first failure is k. |
| `BookingRules.ReachesIffNoEarlierFailure` | actions/appointments.ts:273-281 | A step (the ledger call in particular) runs iff no earlier check failed. |
| `BookingRules.Booked` | actions/appointments.ts:204-293 | The created appointment is SCHEDULED, without notes, with the given id and video session id, the request's patient, doctor, start and end, the request's description when one is given and `""` when it is absent. |
| `BookingRules.CreditGate` | actions/appointments.ts:227-230 | A patient with fewer than 2 credits fails no later than the credit check on both paths, and neither the ledger nor the video provider is called. |
| `BookingRules.ConflictBlocksBooking` | actions/appointments.ts:232-271 | A request flagged against a SCHEDULED appointment of the doctor fails no later than the overlap check, before the ledger and the video session. |
| `BookingRules.PathsAgreeWhenSessionCreated` | app/api/book-appointment/route.ts:46-83 | Given a non-empty doctor id and a created session, the action and the route accept exactly the same requests. |
| `BookingRules.EmptyDoctorIdDiverges` | actions/appointments.ts:209-212 | With an empty doctor id (and no user whose id is empty) the action fails at its required-field check, the route at the doctor lookup. |
| `BookingRules.AdjacentRequestIsFree` | actions/appointments.ts:237-265 | Against one SCHEDULED appointment, a back-to-back request passes the overlap check and any request sharing an instant with it fails it. |
| `BookingRules.PassedChainKeepsNoDoubleBooking` | actions/appointments.ts:232-293 | A request that passes a chain containing the overlap check can be inserted without breaking no-double-booking. |
| `Appointments.GetDoctorById` | actions/appointments.ts:20-39 | Returns a VERIFIED DOCTOR with that id, and every failure is "Failed to fetch doctor details". |
| `Appointments.CheckRecords` | actions/appointments.ts:194-271 | The validations run patient, required fields, doctor, credits, overlap in order; the result is the first failing one's message, and None exactly when the run reaches the ledger step. |
| `Appointments.CheckBooking` | actions/appointments.ts:194-281 | The message returned is the first failing check's, None iff every check and the ledger succeed; the ledger is called iff every validation passed. |
| `Appointments.BookAppointment` | actions/appointments.ts:186-305 | No identity gives bare "Unauthorized" before any lookup. Otherwise the first failing check, in order patient, fields, doctor, credits, overlap, ledger, gives its prefixed message. The ledger is called iff all checks before it pass. Failure inserts nothing. Success appends exactly one SCHEDULED appointment with the request's fields and preserves no-double-booking. |
| `BookingRoute.CheckRecords` | app/api/book-appointment/route.ts:46-76 | Patient, doctor, credits and overlap run in order; the result is the first failing one's message, and None exactly when the run reaches the video step. |
| `BookingRoute.CheckRequest` | app/api/book-appointment/route.ts:46-83 | The message returned is the first failing step's, None iff all six succeed (and then a session exists); the session is requested iff the validations passed, the ledger called iff the session was created. |
| `BookingRoute.Post` | app/api/book-appointment/route.ts:39-106 | No identity gives 401 "Unauthorized" and touches nothing. Otherwise the first failing check, in order patient, doctor, credits, overlap, video, ledger, gives 400 with its message. The session is requested iff the overlap check passed, and the ledger is called iff the session was created. Success appends one SCHEDULED appointment carrying the session id and preserves no-double-booking. |
| `BookingRoute.SessionFailureStopsBeforeLedger` | app/api/book-appointment/route.ts:78-83 | A failed session creation means the ledger is never called. |
| `DoctorAvailability.ValidateWindow` | actions/doctor.ts:30-48 | Non-string fields give "Invalid input types…", strings that do not parse give "…valid date strings", and two parsed instants with `start >= end` give exactly "Start time must be before end time"; success iff both are strings that parse and start < end, returning the two instants. |
| `DoctorAvailability.StaleIds` | actions/doctor.ts:50-72 | The ids to delete are those of the doctor's rows at whose start no appointment of the doctor (any status) begins. |
| `DoctorAvailability.RemovingStaleIdsKeepsSurvivors` | actions/doctor.ts:65-83 | With keyed rows, an old row survives the delete iff it belongs to another doctor or some appointment of the doctor starts at its start. |
| `DoctorAvailability.SetAvailabilitySlots` | actions/doctor.ts:10-105 | No identity gives "Unauthorized". Then a non-doctor caller, then invalid fields, fail with prefixed messages and change nothing. Success replaces the table by the surviving rows in order plus one new AVAILABLE row with the given start and end, which is returned. |
| `DoctorAvailability.RowsOf` | actions/doctor.ts:125-128 | The listing query selects exactly the doctor's rows. |
| `DoctorAvailability.SortByStart` | actions/doctor.ts:129-131 | Ordering by start time yields a permutation of the rows in ascending start order. |
| `DoctorAvailability.GetDoctorAvailability` | actions/doctor.ts:110-142 | No identity gives "Unauthorized", a non-doctor the prefixed "Doctor not found". It succeeds iff the caller is a DOCTOR, and then returns a permutation of all of the doctor's rows, ascending by start time. |
| `CardGuards.CanMarkCompleted` | components/appointment-card.tsx:98-105 | False unless the viewer is a DOCTOR and the status SCHEDULED; then true iff `now >= endTime`. |
| `CardGuards.MarkCompletedClick` | components/appointment-card.tsx:123-146 | Ignored while loading; alerts and sends nothing when `now < endTime`; sends iff not loading, past the end time and confirmed. |
| `CardGuards.CancelClick` | components/appointment-card.tsx:108-120 | Sends iff not loading and confirmed. |
| `CardGuards.SaveNotesClick` | components/appointment-card.tsx:149-156 | Sends iff not loading and the viewer is a DOCTOR; otherwise a no-op. |
| `CardGuards.CompletionRequestGate` | components/appointment-card.tsx:98-146 | A completion request leaves the card iff DOCTOR, SCHEDULED, end time passed at render and at click, not loading, confirmed. |
| `CardGuards.TerminalStatusesOfferNoTransition` | components/appointment-card.tsx:499 | COMPLETED and CANCELLED appointments offer neither completion nor cancellation. |
| `CardGuards.NotesAreDoctorOnly` | components/appointment-card.tsx:405-407 | The notes button needs a DOCTOR on a non-CANCELLED appointment; a non-doctor's save is a no-op. |
| `CardGuards.LoadingHandlersAreNoOps` | components/appointment-card.tsx:109-150 | Each of the three handlers does nothing while its own request is loading. |

## Left out

- `FirstAvailable`: `findFirst` without `orderBy` (actions/appointments.ts:59-64) leaves the row order unspecified. The model fixes it to insertion order. Under that choice a kept old row shadows the newly created one (`KeptRowShadowsNewRow`); under another database order a different row could be chosen.
- Concurrency: both booking paths check for overlap and then insert with no transaction or lock. The model is sequential, and no race-freedom property is claimed.
- Credit movement: `deductCreditsForAppointment` (actions/credit) is not part of this model. It is an oracle whose verdict is a parameter. Balances are not tracked, and nothing reverses a debit when the insert would fail.
- The video provider (Vonage `createSession`) and Clerk `auth()` are parameters: the verdict, and the caller's identity or None.
- Date parsing: `new Date(string)` is represented by its outcome. Booking requests carry parsed instants. An availability form field is a parsed instant or "Invalid Date". JSON body parsing errors of the route are not modelled.
- Labels: the date-fns labels (`h:mm a`, `EEEE, MMMM d`, `yyyy-MM-dd`) are modelled as the midnight of the day they name. Slots carry no formatted time-range string.
- Time zones, daylight-saving changes and `setFullYear` calendar arithmetic: one implicit zone with fixed 24-hour days. The empty-day display label is parsed from `yyyy-MM-dd` as UTC midnight, and that UTC offset is not modelled.
- `Object.entries` over the per-day dictionary: the four keys are distinct non-numeric strings, which keep insertion order. The dictionary is therefore modelled directly as the ordered sequence of entries.
- Error wrapping of non-Error throwables ("Unknown error", `String(error)`): every failure in the model is an Error with a message.
- `revalidatePath` and `console.error`: cache and logging side effects.
- The cancel, complete and notes server actions: they are not part of this model. Only the card's guards are modelled. So "completing twice fails" is modelled only as the card no longer offering completion once the status is COMPLETED.
- The card's JSX rendering, the Zustand stores, `use-fetch`, user find-or-create and the doctor list: UI or plain I/O with no scheduling logic.
