/**
 * `POST` of app/api/book-appointment/route.ts: the HTTP booking path. It runs
 * the same checks as the server action minus the required-field test,
 * creates a video session between the overlap check and the ledger call, and
 * maps every thrown error to a 400 response.
 */
module BookingRoute {
  import opened Wrappers
  import opened Entities
  import opened Overlap
  import opened BookingRules
  import Storage


  datatype ResponseBody = ErrorBody(error: string) | BookedBody(appointment: Appointment)

  datatype Response = Response(status: int, body: ResponseBody)

  function RouteState(users: seq<User>, appts: seq<Appointment>, form: BookingForm,
                      video: VideoVerdict, ledger: LedgerVerdict): BookingState {
    BookingState(users, appts, form, Some(video), ledger)
  }

  /**
   * The database validations at the head of `POST`'s `try`: patient,
   * doctor, credits and overlap, in that order. Returns the message of the
   * first one that fails, None when all pass. Reads the store and changes
   * nothing; `s` is the state the whole chain is judged in.
   */
  method CheckRecords(store: Storage.Store, form: BookingForm, ghost s: BookingState)
    returns (failure: Option<string>)
    requires s.users == store.users && s.appointments == store.appointments && s.form == form
    ensures failure.None? <==> Reaches(RouteChecks, s, RouteVideoStep)
    ensures failure.Some? ==>
      && FirstFailure(RouteChecks, s).Some? && FirstFailure(RouteChecks, s).value < RouteVideoStep
      && failure.value == FailureMessage(RouteChecks[FirstFailure(RouteChecks, s).value], s)
  {
    var patient := FindPatient(store.users, form.patientId);
    if patient.None? {
      StopsAt(s, 0);
      return Some(PatientNotFound);
    }
    ReachesNext(RouteChecks, s, 0);

    var doctor := FindVerifiedDoctor(store.users, form.doctorId);
    if doctor.None? {
      StopsAt(s, 1);
      return Some(DoctorNotFoundOrUnverified);
    }
    ReachesNext(RouteChecks, s, 1);

    if patient.value.credits < AppointmentCost {
      StopsAt(s, 2);
      return Some(InsufficientCredits);
    }
    ReachesNext(RouteChecks, s, 2);

    var overlapping := ConflictsWithAny(form.startTime, form.endTime, ScheduledOf(store.appointments, doctor.value.id));
    if overlapping {
      StopsAt(s, 3);
      return Some(SlotTaken);
    }
    ReachesNext(RouteChecks, s, 3);
    return None;
  }

  /**
   * The body of `POST`'s `try` up to the insert: the database validations,
   * then the video session, then the ledger call, stopping at the first
   * failure. Returns the message thrown there (None when every step
   * succeeded) and whether each service was called. Changes nothing.
   */
  method CheckRequest(store: Storage.Store, form: BookingForm, video: VideoVerdict, ledger: LedgerVerdict)
    returns (failure: Option<string>, sessionRequested: bool, ledgerCalled: bool)
    ensures var s := RouteState(store.users, store.appointments, form, video, ledger);
      var f := FirstFailure(RouteChecks, s);
      && (failure.None? <==> f.None?)
      && (f.Some? ==> failure == Some(FailureMessage(RouteChecks[f.value], s)))
      && (sessionRequested <==> Reaches(RouteChecks, s, RouteVideoStep))
      && (ledgerCalled <==> Reaches(RouteChecks, s, RouteLedgerStep))
    ensures failure.None? ==> video.SessionCreated?
  {
    ghost var s := RouteState(store.users, store.appointments, form, video, ledger);

    failure := CheckRecords(store, form, s);
    if failure.Some? {
      ReachesIffNoEarlierFailure(RouteChecks, s, RouteLedgerStep);
      return failure, false, false;
    }

    if video.SessionFailed? {
      StopsAt(s, 4);
      return Some(SessionMessage(video)), true, false;
    }
    ReachesNext(RouteChecks, s, 4);

    if ledger.Refused? {
      StopsAt(s, 5);
      return Some(LedgerMessage(ledger)), true, true;
    }
    ReachesNext(RouteChecks, s, 5);

    ReachesIffNoEarlierFailure(RouteChecks, s, RouteVideoStep);
    ReachesIffNoEarlierFailure(RouteChecks, s, RouteLedgerStep);
    return None, true, true;
  }

  /**
   * `POST(req)` for caller `userId` with the parsed body `form`; `video` and
   * `ledger` are what the two external services would answer. Returns the
   * response and whether each service was called. Every error thrown in the
   * `try` becomes a 400 response carrying its message.
   */
  method Post(store: Storage.Store, userId: Option<string>, form: BookingForm,
              video: VideoVerdict, ledger: LedgerVerdict)
    returns (resp: Response, sessionRequested: bool, ledgerCalled: bool)
    requires store.Valid()
    modifies store
    ensures store.Valid()
    // No identity: 401 and nothing else happens.
    ensures userId.None? ==>
      resp == Response(401, ErrorBody(Unauthorized)) && !sessionRequested && !ledgerCalled
    ensures userId.Some? ==>
      var s := RouteState(old(store.users), old(store.appointments), form, video, ledger);
      var f := FirstFailure(RouteChecks, s);
      && (resp.status == 200 <==> f.None?)
      && (f.Some? ==> resp == Response(400, ErrorBody(FailureMessage(RouteChecks[f.value], s))))
      && (sessionRequested <==> Reaches(RouteChecks, s, RouteVideoStep))
      && (ledgerCalled <==> Reaches(RouteChecks, s, RouteLedgerStep))
    ensures resp.status != 200 ==> store.appointments == old(store.appointments)
    // Success inserts exactly one SCHEDULED appointment carrying the new session id.
    ensures resp.status == 200 ==>
      && video.SessionCreated? && resp.body.BookedBody?
      && store.appointments == old(store.appointments) + [resp.body.appointment]
      && resp.body.appointment == Booked(resp.body.appointment.id, form, Some(video.sessionId))
      && forall b :: b in old(store.appointments) ==> b.id != resp.body.appointment.id
    ensures NoDoubleBooking(old(store.appointments)) ==> NoDoubleBooking(store.appointments)
    ensures store.users == old(store.users) && store.availabilities == old(store.availabilities)
  {
    if userId.None? {
      return Response(401, ErrorBody(Unauthorized)), false, false;
    }
    var failure;
    failure, sessionRequested, ledgerCalled := CheckRequest(store, form, video, ledger);
    if failure.Some? {
      resp := Response(400, ErrorBody(failure.value));
      return;
    }

    ghost var s := RouteState(store.users, store.appointments, form, video, ledger);
    // The patient and the doctor were found by these ids.
    var description := if form.description.Some? then form.description.value else "";
    var appointment := store.CreateAppointment(form.patientId, form.doctorId, form.startTime, form.endTime,
                                               description, Some(video.sessionId));
    if NoDoubleBooking(s.appointments) {
      PassedChainKeepsNoDoubleBooking(RouteChecks, s, appointment);
    }
    resp := Response(200, BookedBody(appointment));
  }

  /** Check `k` of the route fails after all before it pass: it decides the response and which services were called. */
  lemma StopsAt(s: BookingState, k: nat)
    requires k < |RouteChecks| && Reaches(RouteChecks, s, k) && !Passes(RouteChecks[k], s)
    ensures FirstFailure(RouteChecks, s) == Some(k)
    ensures Reaches(RouteChecks, s, RouteVideoStep) <==> RouteVideoStep <= k
    ensures Reaches(RouteChecks, s, RouteLedgerStep) <==> RouteLedgerStep <= k
  {
    FirstFailureAt(RouteChecks, s, k);
    ReachesIffNoEarlierFailure(RouteChecks, s, RouteVideoStep);
    ReachesIffNoEarlierFailure(RouteChecks, s, RouteLedgerStep);
  }

  /**
   * A failed video session stops the request before the ledger and before
   * any insert, once every earlier check passed.
   */
  lemma SessionFailureStopsBeforeLedger(s: BookingState)
    requires s.video.Some? && s.video.value.SessionFailed?
    ensures FirstFailure(RouteChecks, s).Some? && FirstFailure(RouteChecks, s).value <= RouteVideoStep
    ensures !Reaches(RouteChecks, s, RouteLedgerStep)
  {
    assert !Passes(RouteChecks[RouteVideoStep], s);
    ReachesIffNoEarlierFailure(RouteChecks, s, RouteLedgerStep);
  }
}
