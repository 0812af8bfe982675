/**
 * The precondition chain of the two booking write paths
 * (`bookAppointment` in actions/appointments.ts and `POST` in
 * app/api/book-appointment/route.ts): a fixed list of checks run in order,
 * where the first failing check decides the error and nothing after it runs.
 */
module BookingRules {
  import opened Wrappers
  import opened Entities
  import opened Overlap

  /** Fixed fee of one appointment, in credits. */
  const AppointmentCost: int := 2

  const PatientNotFound := "Patient not found"
  const FieldsRequired := "Doctor, start time, and end time are required"
  const InsufficientCredits := "Insufficient credits to book an appointment"
  const SlotTaken := "This time slot is already booked"
  const LedgerDefault := "Failed to deduct credits"
  const SessionFailure := "Failed to create video session"

  /**
   * The request body. `new Date(...)` has already been applied to the two
   * timestamps; parsing of the strings is not modelled.
   */
  datatype BookingForm = BookingForm(
    patientId: string,
    doctorId: string,
    startTime: int,
    endTime: int,
    description: Option<string>)

  /** What `deductCreditsForAppointment` reports: `{ success, error? }`. */
  datatype LedgerVerdict = Debited | Refused(error: Option<string>)

  /** What `createVideoSession` does: returns a session id, or throws (with the cause's message when it is an Error). */
  datatype VideoVerdict = SessionCreated(sessionId: string) | SessionFailed(cause: Option<string>)

  datatype Check =
    | PatientExists     // a user with the patient id and role PATIENT
    | FieldsPresent     // the action's "required" test
    | DoctorVerified    // a VERIFIED DOCTOR with the doctor id
    | EnoughCredits     // the patient holds at least the fee
    | SlotFree          // no SCHEDULED appointment of the doctor is flagged by Overlaps
    | VideoSession      // the video provider created a session
    | LedgerDebited     // the ledger moved the fee

  /**
   * Everything a check may look at: the tables as read, the request, and the
   * verdicts the two oracles would give (`video` is None on the path that
   * never calls the video provider).
   */
  datatype BookingState = BookingState(
    users: seq<User>,
    appointments: seq<Appointment>,
    form: BookingForm,
    video: Option<VideoVerdict>,
    ledger: LedgerVerdict)

  predicate Passes(c: Check, s: BookingState) {
    match c
    case PatientExists => FindPatient(s.users, s.form.patientId).Some?
    // `!doctorId || !startTime || !endTime`: a Date object is always truthy,
    // so only an empty doctor id can fail this test.
    case FieldsPresent => s.form.doctorId != ""
    case DoctorVerified => FindVerifiedDoctor(s.users, s.form.doctorId).Some?
    case EnoughCredits =>
      var p := FindPatient(s.users, s.form.patientId);
      p.Some? && p.value.credits >= AppointmentCost
    case SlotFree =>
      !ConflictsWithAny(s.form.startTime, s.form.endTime, ScheduledOf(s.appointments, s.form.doctorId))
    case VideoSession => s.video.Some? && s.video.value.SessionCreated?
    case LedgerDebited => s.ledger.Debited?
  }

  /** `error || "Failed to deduct credits"`: an absent or empty message falls back to the default. */
  function LedgerMessage(v: LedgerVerdict): (m: string)
    requires v.Refused?
    ensures v.error.Some? && v.error.value != "" ==> m == v.error.value
    ensures !(v.error.Some? && v.error.value != "") ==> m == LedgerDefault
  {
    if v.error.Some? && v.error.value != "" then v.error.value else LedgerDefault
  }

  /** The message `createVideoSession` re-throws. */
  function SessionMessage(v: VideoVerdict): string
    requires v.SessionFailed?
  {
    if v.cause.Some? then SessionFailure + ": " + v.cause.value else SessionFailure
  }

  /** The message of the error thrown when check `c` fails. */
  function FailureMessage(c: Check, s: BookingState): string {
    match c
    case PatientExists => PatientNotFound
    case FieldsPresent => FieldsRequired
    case DoctorVerified => DoctorNotFoundOrUnverified
    case EnoughCredits => InsufficientCredits
    case SlotFree => SlotTaken
    case VideoSession =>
      if s.video.Some? && s.video.value.SessionFailed? then SessionMessage(s.video.value) else SessionFailure
    case LedgerDebited => if s.ledger.Refused? then LedgerMessage(s.ledger) else LedgerDefault
  }

  /** The order of `bookAppointment`; the ledger is its last check. */
  const ActionChecks: seq<Check> :=
    [PatientExists, FieldsPresent, DoctorVerified, EnoughCredits, SlotFree, LedgerDebited]
  const ActionLedgerStep: nat := 5

  /** The order of `POST`: no required-field check, and the video session comes before the ledger. */
  const RouteChecks: seq<Check> :=
    [PatientExists, DoctorVerified, EnoughCredits, SlotFree, VideoSession, LedgerDebited]
  const RouteVideoStep: nat := 4
  const RouteLedgerStep: nat := 5

  /** Step `k` of the chain runs: every check before it passed. */
  predicate Reaches(checks: seq<Check>, s: BookingState, k: nat)
    requires k <= |checks|
  {
    forall i :: 0 <= i < k ==> Passes(checks[i], s)
  }

  /** Index of the first failing check at or after `k`, or None when all of them pass. */
  function FirstFailureFrom(checks: seq<Check>, s: BookingState, k: nat): (r: Option<nat>)
    requires k <= |checks|
    ensures r.None? <==> forall i :: k <= i < |checks| ==> Passes(checks[i], s)
    ensures r.Some? ==>
      && k <= r.value < |checks| && !Passes(checks[r.value], s)
      && forall i :: k <= i < r.value ==> Passes(checks[i], s)
    decreases |checks| - k
  {
    if k == |checks| then None
    else if !Passes(checks[k], s) then Some(k)
    else FirstFailureFrom(checks, s, k + 1)
  }

  function FirstFailure(checks: seq<Check>, s: BookingState): (r: Option<nat>)
    ensures r.None? <==> Reaches(checks, s, |checks|)
    ensures r.Some? ==> r.value < |checks| && Reaches(checks, s, r.value) && !Passes(checks[r.value], s)
  {
    FirstFailureFrom(checks, s, 0)
  }

  /** One more passing check extends the run. */
  lemma ReachesNext(checks: seq<Check>, s: BookingState, k: nat)
    requires k < |checks| && Reaches(checks, s, k) && Passes(checks[k], s)
    ensures Reaches(checks, s, k + 1)
  {
  }

  /** The first failure is determined by the first check that fails: step `k` fails after all before it pass. */
  lemma FirstFailureAt(checks: seq<Check>, s: BookingState, k: nat)
    requires k < |checks| && Reaches(checks, s, k) && !Passes(checks[k], s)
    ensures FirstFailure(checks, s) == Some(k)
  {
    var r := FirstFailure(checks, s);
    assert !Reaches(checks, s, |checks|);
  }

  /**
   * A step runs exactly when no earlier check failed. In particular the
   * ledger (and, on the route, the video provider) is called only when
   * every check before it passed.
   */
  lemma ReachesIffNoEarlierFailure(checks: seq<Check>, s: BookingState, k: nat)
    requires k <= |checks|
    ensures Reaches(checks, s, k) <==> (FirstFailure(checks, s).None? || FirstFailure(checks, s).value >= k)
  {
    var r := FirstFailure(checks, s);
    if r.Some? && r.value < k {
      assert !Passes(checks[r.value], s);
    }
  }

  /** The new appointment a successful chain creates. */
  function Booked(id: nat, form: BookingForm, videoSessionId: Option<string>): (a: Appointment)
    ensures a.status == Scheduled && a.notes.None?
    ensures a.patientId == form.patientId && a.doctorId == form.doctorId
    ensures a.startTime == form.startTime && a.endTime == form.endTime
    ensures form.description.Some? ==> a.patientDescription == form.description.value
    ensures form.description.None? ==> a.patientDescription == ""
    ensures a.id == id && a.videoSessionId == videoSessionId
  {
    Appointment(id, form.patientId, form.doctorId, form.startTime, form.endTime, Scheduled,
                if form.description.Some? then form.description.value else "", None, videoSessionId)
  }

  /** A patient with fewer than two credits is refused before the ledger (or the video provider) is called. */
  lemma CreditGate(s: BookingState)
    requires FindPatient(s.users, s.form.patientId).Some?
    requires FindPatient(s.users, s.form.patientId).value.credits < AppointmentCost
    ensures FirstFailure(ActionChecks, s).Some? && FirstFailure(ActionChecks, s).value <= 3
    ensures !Reaches(ActionChecks, s, ActionLedgerStep)
    ensures FirstFailure(RouteChecks, s).Some? && FirstFailure(RouteChecks, s).value <= 2
    ensures !Reaches(RouteChecks, s, RouteVideoStep) && !Reaches(RouteChecks, s, RouteLedgerStep)
  {
    assert !Passes(ActionChecks[3], s);
    assert !Passes(RouteChecks[2], s);
    ReachesIffNoEarlierFailure(ActionChecks, s, 4);
    ReachesIffNoEarlierFailure(RouteChecks, s, 3);
  }

  /** A request that the three-clause test flags against a SCHEDULED appointment of the doctor never reaches the ledger. */
  lemma ConflictBlocksBooking(s: BookingState, a: Appointment)
    requires a in s.appointments && a.doctorId == s.form.doctorId && a.status == Scheduled
    requires Overlaps(s.form.startTime, s.form.endTime, a.startTime, a.endTime)
    ensures FirstFailure(ActionChecks, s).Some? && FirstFailure(ActionChecks, s).value <= 4
    ensures !Reaches(ActionChecks, s, ActionLedgerStep)
    ensures FirstFailure(RouteChecks, s).Some? && FirstFailure(RouteChecks, s).value <= 3
    ensures !Reaches(RouteChecks, s, RouteVideoStep) && !Reaches(RouteChecks, s, RouteLedgerStep)
  {
    assert a in ScheduledOf(s.appointments, s.form.doctorId);
    assert !Passes(ActionChecks[4], s);
    assert !Passes(RouteChecks[3], s);
    ReachesIffNoEarlierFailure(ActionChecks, s, 5);
    ReachesIffNoEarlierFailure(RouteChecks, s, 4);
  }

  /** Once a video session was created, the two paths accept exactly the same requests, given a non-empty doctor id. */
  lemma PathsAgreeWhenSessionCreated(s: BookingState)
    requires s.form.doctorId != ""
    requires s.video.Some? && s.video.value.SessionCreated?
    ensures FirstFailure(ActionChecks, s).None? <==> FirstFailure(RouteChecks, s).None?
  {
    if FirstFailure(RouteChecks, s).None? {
      forall i | 0 <= i < |ActionChecks|
        ensures Passes(ActionChecks[i], s)
      {
        assert ActionChecks[i] == PatientExists ==> Passes(RouteChecks[0], s);
        assert ActionChecks[i] == DoctorVerified ==> Passes(RouteChecks[1], s);
        assert ActionChecks[i] == EnoughCredits ==> Passes(RouteChecks[2], s);
        assert ActionChecks[i] == SlotFree ==> Passes(RouteChecks[3], s);
        assert ActionChecks[i] == LedgerDebited ==> Passes(RouteChecks[5], s);
      }
    } else if FirstFailure(ActionChecks, s).None? {
      forall i | 0 <= i < |RouteChecks|
        ensures Passes(RouteChecks[i], s)
      {
        assert RouteChecks[i] == PatientExists ==> Passes(ActionChecks[0], s);
        assert RouteChecks[i] == DoctorVerified ==> Passes(ActionChecks[2], s);
        assert RouteChecks[i] == EnoughCredits ==> Passes(ActionChecks[3], s);
        assert RouteChecks[i] == SlotFree ==> Passes(ActionChecks[4], s);
        assert RouteChecks[i] == LedgerDebited ==> Passes(ActionChecks[5], s);
      }
    }
  }

  /**
   * An empty doctor id is where the paths part: the action stops at its
   * required-field check, the route goes on to the doctor lookup and stops
   * there (no user has the empty id).
   */
  lemma EmptyDoctorIdDiverges(s: BookingState)
    requires s.form.doctorId == ""
    requires forall u :: u in s.users ==> u.id != ""
    requires FindPatient(s.users, s.form.patientId).Some?
    ensures FirstFailure(ActionChecks, s) == Some(1)
    ensures FirstFailure(RouteChecks, s) == Some(1)
    ensures FailureMessage(ActionChecks[1], s) == FieldsRequired
    ensures FailureMessage(RouteChecks[1], s) == DoctorNotFoundOrUnverified
  {
    FirstFailureAt(ActionChecks, s, 1);
    FirstFailureAt(RouteChecks, s, 1);
  }

  /**
   * Back-to-back bookings: with one SCHEDULED appointment `[m, e)` of the
   * doctor, a request for `[s, m)` or for `[e, f)` passes the slot check,
   * and any request that shares an instant with it does not.
   */
  lemma AdjacentRequestIsFree(st: BookingState, a: Appointment)
    requires st.appointments == [a] && a.status == Scheduled && a.doctorId == st.form.doctorId
    requires a.startTime < a.endTime && st.form.startTime < st.form.endTime
    ensures (st.form.endTime == a.startTime || st.form.startTime == a.endTime) ==> Passes(SlotFree, st)
    ensures SharesInstant(st.form.startTime, st.form.endTime, a.startTime, a.endTime) ==> !Passes(SlotFree, st)
  {
    assert ScheduledOf(st.appointments, st.form.doctorId) == [a];
    if SharesInstant(st.form.startTime, st.form.endTime, a.startTime, a.endTime) {
      SharedInstantIsOverlap(st.form.startTime, st.form.endTime, a.startTime, a.endTime);
    }
  }

  /** What passing the whole chain guarantees about the appointment it creates: it clashes with nothing. */
  lemma {:induction false} PassedChainKeepsNoDoubleBooking(checks: seq<Check>, s: BookingState, a: Appointment)
    requires SlotFree in checks && FirstFailure(checks, s).None?
    requires NoDoubleBooking(s.appointments)
    requires a.status == Scheduled && a.doctorId == s.form.doctorId
    requires a.startTime == s.form.startTime && a.endTime == s.form.endTime
    ensures NoDoubleBooking(s.appointments + [a])
  {
    var i :| 0 <= i < |checks| && checks[i] == SlotFree;
    assert Passes(checks[i], s);
    ClearedBookingKeepsNoDoubleBooking(s.appointments, a);
  }
}
