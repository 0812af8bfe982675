/**
 * The records the scheduling core reads and writes (Prisma models `User`,
 * `Appointment` and `Availability`), and the unique-key lookups it performs
 * on them.
 */
module Entities {
  import opened Wrappers

  /** Messages shared by several actions. */
  const Unauthorized := "Unauthorized"
  const DoctorNotFoundOrUnverified := "Doctor not found or not verified"

  datatype Role = Unassigned | Patient | Doctor | Admin

  datatype VerificationStatus = Pending | Verified | Rejected

  /** Only the fields the scheduling core reads. */
  datatype User = User(
    id: string,
    clerkUserId: string,
    role: Role,
    verificationStatus: Option<VerificationStatus>,
    credits: int)

  datatype AppointmentStatus = Scheduled | Completed | Cancelled

  /** Timestamps are milliseconds since the epoch. */
  datatype Appointment = Appointment(
    id: nat,
    patientId: string,
    doctorId: string,
    startTime: int,
    endTime: int,
    status: AppointmentStatus,
    patientDescription: string,
    notes: Option<string>,
    videoSessionId: Option<string>)

  /** `AVAILABLE` is the only state the core writes or filters on. */
  datatype SlotStatus = Available | Unavailable

  datatype Availability = Availability(
    id: nat,
    doctorId: string,
    startTime: int,
    endTime: int,
    status: SlotStatus)

  /** `id` is a primary key: two users with the same id are the same user. */
  ghost predicate UserIdsUnique(users: seq<User>) {
    forall u, v :: u in users && v in users && u.id == v.id ==> u == v
  }

  /** `clerkUserId` is a unique column too. */
  ghost predicate ClerkIdsUnique(users: seq<User>) {
    forall u, v :: u in users && v in users && u.clerkUserId == v.clerkUserId ==> u == v
  }

  predicate IsVerifiedDoctor(u: User) {
    u.role == Doctor && u.verificationStatus == Some(Verified)
  }

  /** The two unique user columns the core looks users up by. */
  datatype UserKey = ById | ByClerkId

  function KeyOf(u: User, key: UserKey): string {
    match key
    case ById => u.id
    case ByClerkId => u.clerkUserId
  }

  /** `findUnique({ where: { id } })` or `findUnique({ where: { clerkUserId } })`: the user under that key, if any. */
  function FindUser(users: seq<User>, key: UserKey, value: string): (r: Option<User>)
    ensures r.Some? ==> r.value in users && KeyOf(r.value, key) == value
    ensures r.None? <==> forall u :: u in users ==> KeyOf(u, key) != value
  {
    if |users| == 0 then None
    else if KeyOf(users[0], key) == value then Some(users[0])
    else FindUser(users[1..], key, value)
  }

  /** `findUnique({ where: { id, role: "PATIENT" } })`. */
  function FindPatient(users: seq<User>, id: string): (r: Option<User>)
    ensures r.Some? ==> r.value in users && r.value.id == id && r.value.role == Patient
    ensures UserIdsUnique(users) ==>
      (r.Some? <==> exists u :: u in users && u.id == id && u.role == Patient)
  {
    var u := FindUser(users, ById, id);
    if u.Some? && u.value.role == Patient then u else None
  }

  /** `findUnique({ where: { id, role: "DOCTOR", verificationStatus: "VERIFIED" } })`. */
  function FindVerifiedDoctor(users: seq<User>, id: string): (r: Option<User>)
    ensures r.Some? ==> r.value in users && r.value.id == id && IsVerifiedDoctor(r.value)
    ensures UserIdsUnique(users) ==>
      (r.Some? <==> exists u :: u in users && u.id == id && IsVerifiedDoctor(u))
  {
    var u := FindUser(users, ById, id);
    if u.Some? && IsVerifiedDoctor(u.value) then u else None
  }

  /** `findUnique({ where: { clerkUserId, role: "DOCTOR" } })`; verification is not required. */
  function FindDoctorByClerkId(users: seq<User>, clerkUserId: string): (r: Option<User>)
    ensures r.Some? ==> r.value in users && r.value.clerkUserId == clerkUserId && r.value.role == Doctor
    ensures ClerkIdsUnique(users) ==>
      (r.Some? <==> exists u :: u in users && u.clerkUserId == clerkUserId && u.role == Doctor)
  {
    var u := FindUser(users, ByClerkId, clerkUserId);
    if u.Some? && u.value.role == Doctor then u else None
  }
}
