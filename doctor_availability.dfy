/**
 * The availability actions of actions/doctor.ts: `setAvailabilitySlots`
 * replaces the signed-in doctor's availability, keeping only the old rows
 * whose start time coincides with one of the doctor's appointments, and
 * `getDoctorAvailability` lists the doctor's rows by start time.
 */
module DoctorAvailability {
  import opened Wrappers
  import opened Entities
  import Storage

  const SetPrefix := "Failed to set availability: "
  const ListPrefix := "Failed to fetch availability slots: "
  const DoctorNotFound := "Doctor not found"
  const InvalidInputTypes := "Invalid input types for start or end time"
  const InvalidDates := "Start time and end time must be valid date strings"
  const StartNotBeforeEnd := "Start time must be before end time"

  /**
   * What `formData.get(name)` returns: nothing, a file, or a string,
   * represented by what `new Date(string)` makes of it (None when the
   * result is an Invalid Date).
   */
  datatype FormEntry = Absent | FileEntry | Text(date: Option<int>)

  /** The field checks of `setAvailabilitySlots`, in order; on success the two instants. */
  function ValidateWindow(startRaw: FormEntry, endRaw: FormEntry): (r: Result<(int, int), string>)
    ensures r.Success? <==>
      && startRaw.Text? && endRaw.Text? && startRaw.date.Some? && endRaw.date.Some?
      && startRaw.date.value < endRaw.date.value
    ensures r.Success? ==> r.value == (startRaw.date.value, endRaw.date.value) && r.value.0 < r.value.1
    ensures !startRaw.Text? || !endRaw.Text? ==> r == Failure(InvalidInputTypes)
    ensures startRaw.Text? && endRaw.Text? && (startRaw.date.None? || endRaw.date.None?) ==>
      r == Failure(InvalidDates)
    ensures (startRaw.Text? && endRaw.Text? && startRaw.date.Some? && endRaw.date.Some? &&
             startRaw.date.value >= endRaw.date.value) ==>
      r == Failure(StartNotBeforeEnd)
  {
    if !startRaw.Text? || !endRaw.Text? then Failure(InvalidInputTypes)
    else if startRaw.date.None? || endRaw.date.None? then Failure(InvalidDates)
    else if startRaw.date.value >= endRaw.date.value then Failure(StartNotBeforeEnd)
    else Success((startRaw.date.value, endRaw.date.value))
  }

  /** Some appointment of the doctor, whatever its status, starts exactly at `t`. */
  predicate HasAppointmentAt(appts: seq<Appointment>, doctorId: string, t: int) {
    exists a :: a in appts && a.doctorId == doctorId && a.startTime == t
  }

  /** The ids of the doctor's rows that no appointment of the doctor starts at (the rows to delete). */
  function StaleIds(rows: seq<Availability>, doctorId: string, appts: seq<Appointment>): (ids: set<nat>)
    ensures forall id :: id in ids <==>
      exists row :: row in rows && row.id == id && row.doctorId == doctorId && !HasAppointmentAt(appts, doctorId, row.startTime)
  {
    set row | row in rows && row.doctorId == doctorId && !HasAppointmentAt(appts, doctorId, row.startTime) :: row.id
  }

  /** A row survives the replacement: it is another doctor's, or one of this doctor's appointments starts at its start. */
  predicate Survives(row: Availability, doctorId: string, appts: seq<Appointment>) {
    row.doctorId != doctorId || HasAppointmentAt(appts, doctorId, row.startTime)
  }

  /** With keyed rows, deleting the stale ids removes exactly the rows that do not survive. */
  lemma RemovingStaleIdsKeepsSurvivors(rows: seq<Availability>, doctorId: string, appts: seq<Appointment>)
    requires Storage.AvailabilityKeyed(rows)
    ensures forall row :: row in rows ==>
      (row in Storage.RemoveIds(rows, StaleIds(rows, doctorId, appts)) <==> Survives(row, doctorId, appts))
  {
    var ids := StaleIds(rows, doctorId, appts);
    forall row | row in rows
      ensures row in Storage.RemoveIds(rows, ids) <==> Survives(row, doctorId, appts)
    {
      if row.id in ids {
        var other :| other in rows && other.id == row.id && other.doctorId == doctorId
                     && !HasAppointmentAt(appts, doctorId, other.startTime);
        assert other == row;
      }
    }
  }

  /**
   * `setAvailabilitySlots(formData)` for caller `userId`. On success the
   * doctor's stale rows are gone, every other row is kept in order, and one
   * new AVAILABLE row is appended and returned.
   */
  method SetAvailabilitySlots(store: Storage.Store, userId: Option<string>, startRaw: FormEntry, endRaw: FormEntry)
    returns (r: Result<Availability, string>)
    requires store.Valid()
    modifies store
    ensures store.Valid()
    ensures userId.None? ==> r == Failure(Unauthorized)
    ensures userId.Some? && FindDoctorByClerkId(old(store.users), userId.value).None? ==>
      r == Failure(SetPrefix + DoctorNotFound)
    ensures (userId.Some? && FindDoctorByClerkId(old(store.users), userId.value).Some?
             && ValidateWindow(startRaw, endRaw).Failure?) ==>
      r == Failure(SetPrefix + ValidateWindow(startRaw, endRaw).error)
    ensures r.Success? <==>
      userId.Some? && FindDoctorByClerkId(old(store.users), userId.value).Some?
      && ValidateWindow(startRaw, endRaw).Success?
    ensures r.Failure? ==> store.availabilities == old(store.availabilities)
    ensures r.Success? ==>
      var doctor := FindDoctorByClerkId(old(store.users), userId.value).value;
      && r.value == Availability(r.value.id, doctor.id, startRaw.date.value, endRaw.date.value, Available)
      && (forall row :: row in old(store.availabilities) ==> row.id != r.value.id)
      && store.availabilities ==
           Storage.RemoveIds(old(store.availabilities), StaleIds(old(store.availabilities), doctor.id, old(store.appointments)))
           + [r.value]
      && (forall row :: row in old(store.availabilities) ==>
            (row in store.availabilities <==> Survives(row, doctor.id, old(store.appointments))))
    ensures store.users == old(store.users) && store.appointments == old(store.appointments)
  {
    if userId.None? {
      r := Failure(Unauthorized);
      return;
    }
    var doctor := FindDoctorByClerkId(store.users, userId.value);
    if doctor.None? {
      r := Failure(SetPrefix + DoctorNotFound);
      return;
    }
    var window := ValidateWindow(startRaw, endRaw);
    if window.Failure? {
      r := Failure(SetPrefix + window.error);
      return;
    }
    var (startTime, endTime) := window.value;

    ghost var oldRows := store.availabilities;
    var stale := StaleIds(store.availabilities, doctor.value.id, store.appointments);
    RemovingStaleIdsKeepsSurvivors(oldRows, doctor.value.id, store.appointments);
    if stale != {} {
      store.DeleteAvailabilities(stale);
    } else {
      assert Storage.RemoveIds(oldRows, stale) == oldRows by {
        RemoveNothing(oldRows);
      }
    }
    var newSlot := store.CreateAvailability(doctor.value.id, startTime, endTime);
    forall row | row in oldRows
      ensures row in store.availabilities <==> Survives(row, doctor.value.id, store.appointments)
    {
      assert row != newSlot;
    }
    r := Success(newSlot);
  }

  /** Deleting no ids leaves the table as it is. */
  lemma {:induction false} RemoveNothing(rows: seq<Availability>)
    ensures Storage.RemoveIds(rows, {}) == rows
  {
    if |rows| > 0 {
      RemoveNothing(rows[1..]);
      assert [rows[0]] + rows[1..] == rows;
    }
  }

  /** `findMany({ where: { doctorId } })`: the doctor's rows in table order. */
  function RowsOf(rows: seq<Availability>, doctorId: string): (r: seq<Availability>)
    ensures forall row :: row in r <==> row in rows && row.doctorId == doctorId
  {
    if |rows| == 0 then []
    else
      var rest := RowsOf(rows[1..], doctorId);
      if rows[0].doctorId == doctorId then [rows[0]] + rest else rest
  }

  predicate SortedByStart(rows: seq<Availability>) {
    forall i, j :: 0 <= i < j < |rows| ==> rows[i].startTime <= rows[j].startTime
  }

  /** The head of a sorted list starts no later than the row inserted after it, nor than any row behind it. */
  lemma HeadStartsFirst(sorted: seq<Availability>, row: Availability, rest: seq<Availability>)
    requires |sorted| > 0 && SortedByStart(sorted) && sorted[0].startTime <= row.startTime
    requires multiset(rest) == multiset(sorted[1..]) + multiset{row}
    ensures forall x :: x in rest ==> sorted[0].startTime <= x.startTime
  {
    forall x | x in rest
      ensures sorted[0].startTime <= x.startTime
    {
      assert x in multiset(rest);
      if x != row {
        assert x in multiset(sorted[1..]);
        var j :| 0 <= j < |sorted[1..]| && sorted[1..][j] == x;
        assert sorted[j + 1] == x;
      }
    }
  }

  /** Inserts `row` into a list sorted by start time, after the rows starting no later. */
  function InsertByStart(row: Availability, sorted: seq<Availability>): (r: seq<Availability>)
    requires SortedByStart(sorted)
    ensures SortedByStart(r)
    ensures multiset(r) == multiset(sorted) + multiset{row}
  {
    if |sorted| == 0 then [row]
    else if row.startTime < sorted[0].startTime then [row] + sorted
    else
      var rest := InsertByStart(row, sorted[1..]);
      HeadStartsFirst(sorted, row, rest);
      assert sorted == [sorted[0]] + sorted[1..];
      var r := [sorted[0]] + rest;
      assert forall j :: 0 < j < |r| ==> r[j] in rest;
      r
  }

  /** `orderBy: { startTime: "asc" }`: the same rows, ascending by start time. */
  function SortByStart(rows: seq<Availability>): (r: seq<Availability>)
    ensures SortedByStart(r)
    ensures multiset(r) == multiset(rows)
  {
    if |rows| == 0 then []
    else
      assert rows == [rows[0]] + rows[1..];
      InsertByStart(rows[0], SortByStart(rows[1..]))
  }

  /** `getDoctorAvailability()` for caller `userId`: all of the doctor's rows, ascending by start time. */
  method GetDoctorAvailability(store: Storage.Store, userId: Option<string>)
    returns (r: Result<seq<Availability>, string>)
    ensures userId.None? ==> r == Failure(Unauthorized)
    ensures userId.Some? && FindDoctorByClerkId(store.users, userId.value).None? ==>
      r == Failure(ListPrefix + DoctorNotFound)
    ensures r.Success? <==> userId.Some? && FindDoctorByClerkId(store.users, userId.value).Some?
    ensures r.Success? ==>
      && SortedByStart(r.value)
      && multiset(r.value) == multiset(RowsOf(store.availabilities, FindDoctorByClerkId(store.users, userId.value).value.id))
  {
    if userId.None? {
      r := Failure(Unauthorized);
      return;
    }
    var doctor := FindDoctorByClerkId(store.users, userId.value);
    if doctor.None? {
      r := Failure(ListPrefix + DoctorNotFound);
      return;
    }
    r := Success(SortByStart(RowsOf(store.availabilities, doctor.value.id)));
  }
}
