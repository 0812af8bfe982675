/**
 * The server actions of actions/appointments.ts that read users and write
 * appointments: `getDoctorById` and `bookAppointment`. (Slot generation,
 * the third action of that file, is module Slots.)
 */
module Appointments {
  import opened Wrappers
  import opened Entities
  import opened Overlap
  import opened BookingRules
  import Storage

  const BookPrefix := "Failed to book appointment: "
  const DoctorDetailsFailure := "Failed to fetch doctor details"

  /** `getDoctorById`: every failure, a missing doctor included, is reported as one fixed message. */
  function GetDoctorById(users: seq<User>, doctorId: string): (r: Result<User, string>)
    ensures r.Success? ==> r.value in users && r.value.id == doctorId && IsVerifiedDoctor(r.value)
    ensures r.Failure? ==> r.error == DoctorDetailsFailure
    ensures UserIdsUnique(users) ==>
      (r.Success? <==> exists u :: u in users && u.id == doctorId && IsVerifiedDoctor(u))
  {
    var doctor := FindVerifiedDoctor(users, doctorId);
    if doctor.None? then Failure(DoctorDetailsFailure) else Success(doctor.value)
  }

  /** The state the action's checks look at; this path never calls the video provider. */
  function ActionState(users: seq<User>, appts: seq<Appointment>, form: BookingForm, ledger: LedgerVerdict): BookingState {
    BookingState(users, appts, form, None, ledger)
  }

  /** Check `k` of the action fails after all before it pass: it decides the error and whether the ledger was called. */
  lemma StopsAt(s: BookingState, k: nat)
    requires k < |ActionChecks| && Reaches(ActionChecks, s, k) && !Passes(ActionChecks[k], s)
    ensures FirstFailure(ActionChecks, s) == Some(k)
    ensures Reaches(ActionChecks, s, ActionLedgerStep) <==> ActionLedgerStep <= k
  {
    FirstFailureAt(ActionChecks, s, k);
    ReachesIffNoEarlierFailure(ActionChecks, s, ActionLedgerStep);
  }

  /**
   * The validations at the head of `bookAppointment`'s `try`: patient,
   * required fields, doctor, credits and overlap, in that order. Returns the
   * message of the first one that fails, None when all pass. Reads the store
   * and changes nothing; `s` is the state the whole chain is judged in.
   */
  method CheckRecords(store: Storage.Store, form: BookingForm, ghost s: BookingState)
    returns (failure: Option<string>)
    requires s.users == store.users && s.appointments == store.appointments && s.form == form
    ensures failure.None? <==> Reaches(ActionChecks, s, ActionLedgerStep)
    ensures failure.Some? ==>
      && FirstFailure(ActionChecks, s).Some? && FirstFailure(ActionChecks, s).value < ActionLedgerStep
      && failure.value == FailureMessage(ActionChecks[FirstFailure(ActionChecks, s).value], s)
  {
    var patient := FindPatient(store.users, form.patientId);
    if patient.None? {
      StopsAt(s, 0);
      return Some(PatientNotFound);
    }
    ReachesNext(ActionChecks, s, 0);

    if form.doctorId == "" {
      StopsAt(s, 1);
      return Some(FieldsRequired);
    }
    ReachesNext(ActionChecks, s, 1);

    var doctor := FindVerifiedDoctor(store.users, form.doctorId);
    if doctor.None? {
      StopsAt(s, 2);
      return Some(DoctorNotFoundOrUnverified);
    }
    ReachesNext(ActionChecks, s, 2);

    if patient.value.credits < AppointmentCost {
      StopsAt(s, 3);
      return Some(InsufficientCredits);
    }
    ReachesNext(ActionChecks, s, 3);

    var overlapping := ConflictsWithAny(form.startTime, form.endTime, ScheduledOf(store.appointments, form.doctorId));
    if overlapping {
      StopsAt(s, 4);
      return Some(SlotTaken);
    }
    ReachesNext(ActionChecks, s, 4);
    return None;
  }

  /**
   * The body of `bookAppointment`'s `try` up to the insert: the validations,
   * then the ledger call, stopping at the first failure. Returns the message
   * thrown there (None when every step succeeded) and whether the ledger was
   * called. Changes nothing.
   */
  method CheckBooking(store: Storage.Store, form: BookingForm, ledger: LedgerVerdict)
    returns (failure: Option<string>, ledgerCalled: bool)
    ensures var s := ActionState(store.users, store.appointments, form, ledger);
      var f := FirstFailure(ActionChecks, s);
      && (failure.None? <==> f.None?)
      && (f.Some? ==> failure == Some(FailureMessage(ActionChecks[f.value], s)))
      && (ledgerCalled <==> Reaches(ActionChecks, s, ActionLedgerStep))
  {
    ghost var s := ActionState(store.users, store.appointments, form, ledger);

    failure := CheckRecords(store, form, s);
    if failure.Some? {
      return failure, false;
    }

    if ledger.Refused? {
      StopsAt(s, 5);
      return Some(LedgerMessage(ledger)), true;
    }
    ReachesNext(ActionChecks, s, 5);

    ReachesIffNoEarlierFailure(ActionChecks, s, ActionLedgerStep);
    return None, true;
  }

  /**
   * `bookAppointment(formData)` for caller `userId`, with the ledger's
   * verdict as `ledger`. Returns the created appointment or the thrown
   * message, and whether the ledger was called.
   */
  method BookAppointment(store: Storage.Store, userId: Option<string>, form: BookingForm, ledger: LedgerVerdict)
    returns (r: Result<Appointment, string>, ledgerCalled: bool)
    requires store.Valid()
    modifies store
    ensures store.Valid()
    // A missing identity is refused with the bare message, before any lookup.
    ensures userId.None? ==> r == Failure(Unauthorized) && !ledgerCalled
    // Otherwise the first failing check decides the (prefixed) message.
    ensures userId.Some? ==>
      var s := ActionState(old(store.users), old(store.appointments), form, ledger);
      var f := FirstFailure(ActionChecks, s);
      && (r.Success? <==> f.None?)
      && (f.Some? ==> r == Failure(BookPrefix + FailureMessage(ActionChecks[f.value], s)))
      && (ledgerCalled <==> Reaches(ActionChecks, s, ActionLedgerStep))
    // No failing path inserts anything.
    ensures r.Failure? ==> store.appointments == old(store.appointments)
    // Success inserts exactly one SCHEDULED appointment, with a fresh id and the request's fields.
    ensures r.Success? ==>
      && store.appointments == old(store.appointments) + [r.value]
      && r.value == Booked(r.value.id, form, None)
      && forall b :: b in old(store.appointments) ==> b.id != r.value.id
    ensures NoDoubleBooking(old(store.appointments)) ==> NoDoubleBooking(store.appointments)
    ensures store.users == old(store.users) && store.availabilities == old(store.availabilities)
  {
    if userId.None? {
      return Failure(Unauthorized), false;
    }
    var failure;
    failure, ledgerCalled := CheckBooking(store, form, ledger);
    if failure.Some? {
      r := Failure(BookPrefix + failure.value);
      return;
    }

    ghost var s := ActionState(store.users, store.appointments, form, ledger);
    // The patient and the doctor were found by these ids.
    var patientDescription := if form.description.Some? then form.description.value else "";
    var appointment := store.CreateAppointment(form.patientId, form.doctorId, form.startTime, form.endTime,
                                               patientDescription, None);
    if NoDoubleBooking(s.appointments) {
      PassedChainKeepsNoDoubleBooking(ActionChecks, s, appointment);
    }
    r := Success(appointment);
  }
}
