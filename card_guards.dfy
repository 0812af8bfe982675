/**
 * The lifecycle guards of components/appointment-card.tsx: which actions
 * the card offers for a given role, status and clock reading, and when each
 * click handler actually sends its request. The server actions behind them
 * (cancel, complete, notes) are not part of this model.
 */
module CardGuards {
  import opened Entities

  const TooEarlyAlert := "Cannot mark appointment as completed before the scheduled end time."

  /** The card's open editor (`action` state); only "notes" is consulted by the guards. */
  datatype CardAction = NoAction | CancelAction | NotesAction | VideoAction | CompleteAction

  /** What a click does: nothing, an alert, or sending the request. */
  datatype ClickEffect = Ignored | Alerted(message: string) | Submitted

  /** `canMarkCompleted()`: only a doctor, only while SCHEDULED, only once the end time is reached. */
  function CanMarkCompleted(role: Role, status: AppointmentStatus, now: int, endTime: int): (r: bool)
    ensures role != Doctor || status != Scheduled ==> !r
    ensures role == Doctor && status == Scheduled ==> (r <==> now >= endTime)
  {
    if role != Doctor || status != Scheduled then false
    else now >= endTime
  }

  /** `handleMarkCompleted` at clock reading `now`; `confirmed` is the answer to `window.confirm`. */
  function MarkCompletedClick(loading: bool, now: int, endTime: int, confirmed: bool): (e: ClickEffect)
    ensures loading ==> e == Ignored
    ensures !loading && now < endTime ==> e == Alerted(TooEarlyAlert)
    ensures e == Submitted <==> !loading && now >= endTime && confirmed
  {
    if loading then Ignored
    else if now < endTime then Alerted(TooEarlyAlert)
    else if confirmed then Submitted
    else Ignored
  }

  /** `handleCancelAppointment`. */
  function CancelClick(loading: bool, confirmed: bool): (e: ClickEffect)
    ensures e != Alerted(TooEarlyAlert)
    ensures e == Submitted <==> !loading && confirmed
  {
    if loading then Ignored
    else if confirmed then Submitted
    else Ignored
  }

  /** `handleSaveNotes`: a no-op while saving or for anyone but a doctor. */
  function SaveNotesClick(loading: bool, role: Role): (e: ClickEffect)
    ensures e == Submitted <==> !loading && role == Doctor
    ensures e != Submitted ==> e == Ignored
  {
    if loading || role != Doctor then Ignored else Submitted
  }

  /** The "Edit"/"Add" notes button is rendered. */
  predicate ShowsNotesButton(role: Role, action: CardAction, status: AppointmentStatus) {
    role == Doctor && action != NotesAction && status != Cancelled
  }

  /** The "Cancel Appointment" button is rendered. */
  predicate ShowsCancelButton(status: AppointmentStatus) {
    status == Scheduled
  }

  /**
   * A completion request leaves the card only for a doctor's SCHEDULED
   * appointment whose end time has passed both when the button was rendered
   * and when it was clicked, with no completion already in flight; and in
   * that case a confirmed click does send it.
   */
  lemma CompletionRequestGate(role: Role, status: AppointmentStatus, renderNow: int, clickNow: int,
                              endTime: int, loading: bool, confirmed: bool)
    ensures (CanMarkCompleted(role, status, renderNow, endTime)
             && MarkCompletedClick(loading, clickNow, endTime, confirmed) == Submitted)
      <==> (role == Doctor && status == Scheduled && renderNow >= endTime && clickNow >= endTime
            && !loading && confirmed)
  {
  }

  /** COMPLETED and CANCELLED are terminal on the card: neither completion nor cancellation is offered. */
  lemma TerminalStatusesOfferNoTransition(role: Role, status: AppointmentStatus, now: int, endTime: int)
    requires status == Completed || status == Cancelled
    ensures !CanMarkCompleted(role, status, now, endTime) && !ShowsCancelButton(status)
  {
  }

  /** Notes can be opened and saved only by a doctor, and never on a CANCELLED appointment. */
  lemma NotesAreDoctorOnly(role: Role, action: CardAction, status: AppointmentStatus, loading: bool)
    ensures ShowsNotesButton(role, action, status) ==> role == Doctor && status != Cancelled
    ensures role != Doctor ==> !ShowsNotesButton(role, action, status) && SaveNotesClick(loading, role) == Ignored
  {
  }

  /** Each handler does nothing while its own request is loading. */
  lemma LoadingHandlersAreNoOps(now: int, endTime: int, confirmed: bool, role: Role)
    ensures MarkCompletedClick(true, now, endTime, confirmed) == Ignored
    ensures CancelClick(true, confirmed) == Ignored
    ensures SaveNotesClick(true, role) == Ignored
  {
  }
}
