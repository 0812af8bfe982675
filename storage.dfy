/**
 * The relational store behind Prisma's `db` handle, as an in-memory class
 * whose tables are sequences in insertion order. The action methods receive
 * it explicitly; its three mutating methods mirror the `create` and
 * `deleteMany` calls they make.
 */
module Storage {
  import opened Wrappers
  import opened Entities

  /** Availability ids are primary keys: a row is identified by its id. */
  ghost predicate AvailabilityKeyed(rows: seq<Availability>) {
    forall a, b :: a in rows && b in rows && a.id == b.id ==> a == b
  }

  /** `deleteMany({ where: { id: { in: ids } } })` on a table, keeping the order of what stays. */
  function RemoveIds(rows: seq<Availability>, ids: set<nat>): (r: seq<Availability>)
    ensures forall a :: a in r <==> a in rows && a.id !in ids
    ensures |r| <= |rows|
  {
    if |rows| == 0 then []
    else
      var rest := RemoveIds(rows[1..], ids);
      if rows[0].id in ids then rest else [rows[0]] + rest
  }

  class Store {
    var users: seq<User>
    var appointments: seq<Appointment>
    var availabilities: seq<Availability>
    /** Id generators standing in for the database's key defaults. */
    var nextAppointmentId: nat
    var nextAvailabilityId: nat

    ghost predicate Valid()
      reads this
    {
      && UserIdsUnique(users)
      && ClerkIdsUnique(users)
      && (forall a :: a in appointments ==> a.id < nextAppointmentId)
      && (forall row :: row in availabilities ==> row.id < nextAvailabilityId)
      && AvailabilityKeyed(availabilities)
    }

    constructor (users: seq<User>)
      requires UserIdsUnique(users) && ClerkIdsUnique(users)
      ensures Valid()
      ensures this.users == users && appointments == [] && availabilities == []
    {
      this.users := users;
      appointments := [];
      availabilities := [];
      nextAppointmentId := 0;
      nextAvailabilityId := 0;
    }

    /** `db.appointment.create`: a SCHEDULED appointment with a fresh id and no notes. */
    method CreateAppointment(patientId: string, doctorId: string, startTime: int, endTime: int,
                             description: string, videoSessionId: Option<string>)
      returns (a: Appointment)
      requires Valid()
      modifies this
      ensures Valid()
      ensures a == Appointment(old(nextAppointmentId), patientId, doctorId, startTime, endTime,
                               Scheduled, description, None, videoSessionId)
      ensures forall b :: b in old(appointments) ==> b.id != a.id
      ensures appointments == old(appointments) + [a]
      ensures users == old(users) && availabilities == old(availabilities)
      ensures nextAvailabilityId == old(nextAvailabilityId)
    {
      a := Appointment(nextAppointmentId, patientId, doctorId, startTime, endTime,
                       Scheduled, description, None, videoSessionId);
      appointments := appointments + [a];
      nextAppointmentId := nextAppointmentId + 1;
    }

    /** `db.availability.deleteMany({ where: { id: { in: ids } } })`. */
    method DeleteAvailabilities(ids: set<nat>)
      requires Valid()
      modifies this
      ensures Valid()
      ensures availabilities == RemoveIds(old(availabilities), ids)
      ensures users == old(users) && appointments == old(appointments)
      ensures nextAvailabilityId == old(nextAvailabilityId) && nextAppointmentId == old(nextAppointmentId)
    {
      availabilities := RemoveIds(availabilities, ids);
    }

    /** `db.availability.create` with status AVAILABLE and a fresh id. */
    method CreateAvailability(doctorId: string, startTime: int, endTime: int) returns (row: Availability)
      requires Valid()
      modifies this
      ensures Valid()
      ensures row == Availability(old(nextAvailabilityId), doctorId, startTime, endTime, Available)
      ensures forall b :: b in old(availabilities) ==> b.id != row.id
      ensures availabilities == old(availabilities) + [row]
      ensures users == old(users) && appointments == old(appointments)
      ensures nextAppointmentId == old(nextAppointmentId)
    {
      row := Availability(nextAvailabilityId, doctorId, startTime, endTime, Available);
      availabilities := availabilities + [row];
      nextAvailabilityId := nextAvailabilityId + 1;
    }
  }
}
