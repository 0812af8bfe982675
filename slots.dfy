/**
 * Slot generation of actions/appointments.ts (`getAvailableTimeSlots`):
 * the doctor's availability window is re-anchored onto the four days
 * starting today, each window is walked in 30-minute steps, steps that start
 * in the past or hit a SCHEDULED appointment are dropped, and the survivors
 * are grouped per day.
 */
module Slots {
  import opened Wrappers
  import opened Entities
  import opened Overlap
  import Storage

  const MsPerMinute: int := 60_000
  const SlotMs: int := 30 * MsPerMinute
  const MsPerDay: int := 24 * 60 * MsPerMinute
  const HorizonDays: nat := 4

  const SlotsPrefix := "Failed to fetch available time slots: "
  const NoAvailability := "No availability set by doctor"

  /** Midnight of the day containing `t`, in the single implicit time zone. */
  function StartOfDay(t: int): (r: int)
    ensures r <= t < r + MsPerDay && r % MsPerDay == 0
  {
    t - t % MsPerDay
  }

  /** The time-of-day part of `t` (what `setFullYear` keeps). */
  function TimeOfDay(t: int): (r: int)
    ensures 0 <= r < MsPerDay && StartOfDay(t) + r == t
  {
    t % MsPerDay
  }

  /** Any instant of the day starting at `dayStart` has that day's midnight as its day. */
  lemma SameDay(t: int, dayStart: int)
    requires dayStart % MsPerDay == 0 && dayStart <= t < dayStart + MsPerDay
    ensures StartOfDay(t) == dayStart
  {
    var k := dayStart / MsPerDay;
    assert dayStart == k * MsPerDay;
    assert t == k * MsPerDay + (t - dayStart);
  }

  /** Midnight of the `d`-th horizon day, `addDays(now, d)` keyed by its date. */
  function HorizonDay(now: int, d: nat): (r: int)
    ensures r % MsPerDay == 0
    ensures r - d * MsPerDay <= now < r - d * MsPerDay + MsPerDay
  {
    StartOfDay(now) + d * MsPerDay
  }

  /** `setFullYear(day...)` on an availability timestamp: its time of day on that date. */
  function Reanchor(t: int, dayStart: int): int {
    dayStart + TimeOfDay(t)
  }

  /** `endOfDay(days[3])`, the last millisecond of the horizon. */
  function HorizonEnd(now: int): int {
    HorizonDay(now, HorizonDays - 1) + MsPerDay - 1
  }

  /** Labels are modelled as the midnight of the day they name. */
  datatype Slot = Slot(startTime: int, endTime: int, day: int)

  datatype DaySchedule = DaySchedule(date: int, displayDate: int, slots: seq<Slot>)

  /** `t` is a step of the walk over `[ws, we)` whose 30-minute slot fits the window. */
  predicate OnGrid(t: int, ws: int, we: int) {
    ws <= t && t + SlotMs <= we && (t - ws) % SlotMs == 0
  }

  /** A step survives: it fits, does not start before `now`, and clears every fetched appointment. */
  predicate Bookable(t: int, ws: int, we: int, now: int, existing: seq<Appointment>) {
    OnGrid(t, ws, we) && now <= t && !ConflictsWithAny(t, t + SlotMs, existing)
  }

  /**
   * `slots` is the day's listing for window `[ws, we)`: 30-minute slots
   * labelled with their own day, each bookable, strictly ascending, and
   * every bookable step present.
   */
  ghost predicate IsDaySchedule(slots: seq<Slot>, ws: int, we: int, now: int, existing: seq<Appointment>) {
    && (forall i :: 0 <= i < |slots| ==>
          && slots[i].endTime == slots[i].startTime + SlotMs
          && slots[i].day == StartOfDay(slots[i].startTime)
          && Bookable(slots[i].startTime, ws, we, now, existing))
    && (forall i, j :: 0 <= i < j < |slots| ==> slots[i].startTime < slots[j].startTime)
    && (forall t :: Bookable(t, ws, we, now, existing) ==>
          exists i :: 0 <= i < |slots| && slots[i].startTime == t)
  }

  /** Two steps of the same walk less than one slot apart are the same step. */
  lemma GridStep(t: int, current: int, ws: int)
    requires (t - ws) % SlotMs == 0 && (current - ws) % SlotMs == 0
    requires current <= t < current + SlotMs
    ensures t == current
  {
    var a, b := (t - ws) / SlotMs, (current - ws) / SlotMs;
    assert t - ws == a * SlotMs;
    assert current - ws == b * SlotMs;
    assert (a - b) * SlotMs == t - current;
  }

  lemma NextStepOnGrid(x: int)
    requires x % SlotMs == 0
    ensures (x + SlotMs) % SlotMs == 0
  {
  }

  /** One step of the walk keeps "every bookable step before `current` is listed". */
  lemma StepCoverage(before: seq<Slot>, after: seq<Slot>, current: int,
                     ws: int, we: int, now: int, existing: seq<Appointment>)
    requires (current - ws) % SlotMs == 0
    requires forall t :: Bookable(t, ws, we, now, existing) && t < current ==>
      exists i :: 0 <= i < |before| && before[i].startTime == t
    requires |before| <= |after| && forall i :: 0 <= i < |before| ==> after[i] == before[i]
    requires Bookable(current, ws, we, now, existing) ==>
      exists i :: 0 <= i < |after| && after[i].startTime == current
    ensures forall t :: Bookable(t, ws, we, now, existing) && t < current + SlotMs ==>
      exists i :: 0 <= i < |after| && after[i].startTime == t
  {
    forall t | Bookable(t, ws, we, now, existing) && t < current + SlotMs
      ensures exists i :: 0 <= i < |after| && after[i].startTime == t
    {
      if t >= current {
        GridStep(t, current, ws);
      } else {
        var i :| 0 <= i < |before| && before[i].startTime == t;
        assert after[i] == before[i];
      }
    }
  }

  /**
   * The walk has reached step `current`: every slot listed so far is a
   * bookable 30-minute slot before `current`, the list ascends, and every
   * bookable step before `current` is listed.
   */
  ghost predicate WalkedTo(slots: seq<Slot>, current: int, ws: int, we: int, now: int, existing: seq<Appointment>) {
    && ws <= current && (current - ws) % SlotMs == 0
    && (forall i :: 0 <= i < |slots| ==>
          && slots[i].endTime == slots[i].startTime + SlotMs
          && slots[i].day == StartOfDay(slots[i].startTime)
          && Bookable(slots[i].startTime, ws, we, now, existing)
          && slots[i].startTime < current)
    && (forall i, j :: 0 <= i < j < |slots| ==> slots[i].startTime < slots[j].startTime)
    && (forall t :: Bookable(t, ws, we, now, existing) && t < current ==>
          exists i :: 0 <= i < |slots| && slots[i].startTime == t)
  }

  /** A step that is past, or conflicts, is passed over. */
  lemma PassStep(slots: seq<Slot>, current: int, ws: int, we: int, now: int, existing: seq<Appointment>)
    requires WalkedTo(slots, current, ws, we, now, existing)
    requires !Bookable(current, ws, we, now, existing)
    ensures WalkedTo(slots, current + SlotMs, ws, we, now, existing)
  {
    NextStepOnGrid(current - ws);
    StepCoverage(slots, slots, current, ws, we, now, existing);
  }

  /** A bookable step is appended as a slot labelled with its day. */
  lemma TakeStep(slots: seq<Slot>, current: int, ws: int, we: int, now: int, existing: seq<Appointment>)
    requires WalkedTo(slots, current, ws, we, now, existing)
    requires Bookable(current, ws, we, now, existing)
    ensures WalkedTo(slots + [Slot(current, current + SlotMs, StartOfDay(current))], current + SlotMs,
                     ws, we, now, existing)
  {
    var after := slots + [Slot(current, current + SlotMs, StartOfDay(current))];
    NextStepOnGrid(current - ws);
    assert after[|after| - 1].startTime == current;
    StepCoverage(slots, after, current, ws, we, now, existing);
  }

  /** Once the next slot no longer fits, the walk has listed the whole day. */
  lemma WalkDone(slots: seq<Slot>, current: int, ws: int, we: int, now: int, existing: seq<Appointment>)
    requires WalkedTo(slots, current, ws, we, now, existing)
    requires we < current + SlotMs
    ensures IsDaySchedule(slots, ws, we, now, existing)
  {
    forall t | Bookable(t, ws, we, now, existing)
      ensures exists i :: 0 <= i < |slots| && slots[i].startTime == t
    {
      assert t < current;
    }
  }

  /** One step of the walk: the step's slot is appended exactly when it is not past and clears every appointment. */
  lemma Advance(before: seq<Slot>, after: seq<Slot>, current: int, ws: int, we: int, now: int, existing: seq<Appointment>)
    requires WalkedTo(before, current, ws, we, now, existing)
    requires current + SlotMs <= we
    requires after == if now <= current && !ConflictsWithAny(current, current + SlotMs, existing)
      then before + [Slot(current, current + SlotMs, StartOfDay(current))] else before
    ensures WalkedTo(after, current + SlotMs, ws, we, now, existing)
  {
    assert OnGrid(current, ws, we);
    if Bookable(current, ws, we, now, existing) {
      TakeStep(before, current, ws, we, now, existing);
    } else {
      PassStep(before, current, ws, we, now, existing);
    }
  }

  /** The `while` walk of one day's window. */
  method DaySlots(ws: int, we: int, now: int, existing: seq<Appointment>) returns (slots: seq<Slot>)
    ensures IsDaySchedule(slots, ws, we, now, existing)
  {
    slots := [];
    var current := ws;
    while current + SlotMs < we || current + SlotMs == we
      invariant WalkedTo(slots, current, ws, we, now, existing)
      decreases we - current
    {
      var next := current + SlotMs;
      ghost var before := slots;
      if current < now {
        Advance(before, slots, current, ws, we, now, existing);
        current := next;
        continue;
      }
      var overlaps := ConflictsWithAny(current, next, existing);
      if !overlaps {
        slots := slots + [Slot(current, next, StartOfDay(current))];
      }
      Advance(before, slots, current, ws, we, now, existing);
      current := next;
    }
    WalkDone(slots, current, ws, we, now, existing);
  }

  /** The listing for availability row `av`: exactly the four horizon days, in order. */
  ghost predicate IsSlotListing(days: seq<DaySchedule>, av: Availability, now: int, existing: seq<Appointment>) {
    && |days| == HorizonDays
    && forall d :: 0 <= d < |days| ==>
         && days[d].date == HorizonDay(now, d)
         && days[d].displayDate == days[d].date
         && IsDaySchedule(days[d].slots, Reanchor(av.startTime, HorizonDay(now, d)),
                          Reanchor(av.endTime, HorizonDay(now, d)), now, existing)
  }

  /** `findFirst({ where: { doctorId, status: "AVAILABLE" } })`: the first such row in table order. */
  function FirstAvailable(rows: seq<Availability>, doctorId: string): (r: Option<Availability>)
    ensures r.Some? ==> r.value in rows && r.value.doctorId == doctorId && r.value.status == Available
    ensures r.None? <==> forall a :: a in rows ==> !(a.doctorId == doctorId && a.status == Available)
  {
    if |rows| == 0 then None
    else if rows[0].doctorId == doctorId && rows[0].status == Available then Some(rows[0])
    else FirstAvailable(rows[1..], doctorId)
  }

  /**
   * Rows appended after an AVAILABLE row of the doctor are never returned:
   * when `setAvailabilitySlots` keeps an old row and appends the new window,
   * slot generation goes on reading the old one.
   */
  lemma {:induction false} KeptRowShadowsNewRow(kept: seq<Availability>, newRows: seq<Availability>, doctorId: string)
    requires exists a :: a in kept && a.doctorId == doctorId && a.status == Available
    ensures FirstAvailable(kept + newRows, doctorId) == FirstAvailable(kept, doctorId)
    ensures FirstAvailable(kept + newRows, doctorId).value in kept
  {
    assert kept != [];
    if !(kept[0].doctorId == doctorId && kept[0].status == Available) {
      var a :| a in kept && a.doctorId == doctorId && a.status == Available;
      assert a in kept[1..];
      assert (kept + newRows)[1..] == kept[1..] + newRows;
      KeptRowShadowsNewRow(kept[1..], newRows, doctorId);
    }
  }

  /** `findMany({ where: { doctorId, status: "SCHEDULED", startTime: { lte: lastDay } } })`. */
  function HorizonAppointments(appts: seq<Appointment>, doctorId: string, lastDay: int): (r: seq<Appointment>)
    ensures forall a :: a in r <==>
      a in appts && a.doctorId == doctorId && a.status == Scheduled && a.startTime <= lastDay
  {
    if |appts| == 0 then []
    else
      var rest := HorizonAppointments(appts[1..], doctorId, lastDay);
      var a := appts[0];
      if a.doctorId == doctorId && a.status == Scheduled && a.startTime <= lastDay then [a] + rest else rest
  }

  /** `getAvailableTimeSlots(doctorId)` with the clock reading `now`. */
  method AvailableTimeSlots(store: Storage.Store, doctorId: string, now: int)
    returns (r: Result<seq<DaySchedule>, string>)
    ensures FindVerifiedDoctor(store.users, doctorId).None? ==>
      r == Failure(SlotsPrefix + DoctorNotFoundOrUnverified)
    ensures FindVerifiedDoctor(store.users, doctorId).Some? && FirstAvailable(store.availabilities, doctorId).None? ==>
      r == Failure(SlotsPrefix + NoAvailability)
    ensures r.Success? <==>
      FindVerifiedDoctor(store.users, doctorId).Some? && FirstAvailable(store.availabilities, doctorId).Some?
    ensures r.Success? ==>
      IsSlotListing(r.value, FirstAvailable(store.availabilities, doctorId).value, now,
                    HorizonAppointments(store.appointments, doctorId, HorizonEnd(now)))
  {
    var doctor := FindVerifiedDoctor(store.users, doctorId);
    if doctor.None? {
      r := Failure(SlotsPrefix + DoctorNotFoundOrUnverified);
      return;
    }
    var availability := FirstAvailable(store.availabilities, doctor.value.id);
    if availability.None? {
      r := Failure(SlotsPrefix + NoAvailability);
      return;
    }
    var av := availability.value;
    var existing := HorizonAppointments(store.appointments, doctor.value.id, HorizonEnd(now));
    var days: seq<DaySchedule> := [];
    for d := 0 to HorizonDays
      invariant |days| == d
      invariant forall k :: 0 <= k < d ==>
        && days[k].date == HorizonDay(now, k)
        && days[k].displayDate == days[k].date
        && IsDaySchedule(days[k].slots, Reanchor(av.startTime, HorizonDay(now, k)),
                         Reanchor(av.endTime, HorizonDay(now, k)), now, existing)
    {
      var date := HorizonDay(now, d);
      var windowStart := Reanchor(av.startTime, date);
      var windowEnd := Reanchor(av.endTime, date);
      var slots := DaySlots(windowStart, windowEnd, now, existing);
      var displayDate := if |slots| > 0 then slots[0].day else date;
      if |slots| > 0 {
        SameDay(slots[0].startTime, date);
      }
      days := days + [DaySchedule(date, displayDate, slots)];
    }
    r := Success(days);
  }

  /**
   * Every listed slot is a 30-minute slot inside its day's re-anchored
   * window, labelled with that day, not in the past, and within the
   * four-day horizon starting at today's midnight.
   */
  lemma ListedSlotInWindow(days: seq<DaySchedule>, av: Availability, now: int, existing: seq<Appointment>,
                           d: nat, i: nat)
    requires IsSlotListing(days, av, now, existing)
    requires d < |days| && i < |days[d].slots|
    ensures var s := days[d].slots[i];
      && s.endTime == s.startTime + SlotMs
      && Reanchor(av.startTime, days[d].date) <= s.startTime
      && s.endTime <= Reanchor(av.endTime, days[d].date)
      && now <= s.startTime
      && s.day == days[d].date
      && HorizonDay(now, 0) <= s.startTime && s.endTime <= HorizonDay(now, HorizonDays)
  {
    var s := days[d].slots[i];
    var date := HorizonDay(now, d);
    assert Bookable(s.startTime, Reanchor(av.startTime, date), Reanchor(av.endTime, date), now, existing);
    SameDay(s.startTime, date);
  }

  /** No listed slot shares an instant with, or is flagged against, a fetched SCHEDULED appointment. */
  lemma ListedSlotAvoidsBookedTime(days: seq<DaySchedule>, av: Availability, now: int, existing: seq<Appointment>,
                                   d: nat, i: nat, a: Appointment)
    requires IsSlotListing(days, av, now, existing)
    requires d < |days| && i < |days[d].slots| && a in existing
    ensures var s := days[d].slots[i];
      && !Overlaps(s.startTime, s.endTime, a.startTime, a.endTime)
      && !SharesInstant(s.startTime, s.endTime, a.startTime, a.endTime)
  {
    var s := days[d].slots[i];
    var date := HorizonDay(now, d);
    assert Bookable(s.startTime, Reanchor(av.startTime, date), Reanchor(av.endTime, date), now, existing);
    if SharesInstant(s.startTime, s.endTime, a.startTime, a.endTime) {
      SharedInstantIsOverlap(s.startTime, s.endTime, a.startTime, a.endTime);
    }
  }

  /**
   * The listing has one entry per horizon day: the first is the day of
   * `now`, each next one is a day later, so the keys strictly ascend.
   */
  lemma ListingDaysAscend(days: seq<DaySchedule>, av: Availability, now: int, existing: seq<Appointment>)
    requires IsSlotListing(days, av, now, existing)
    ensures |days| == 4
    ensures days[0].date <= now < days[0].date + MsPerDay
    ensures forall d :: 0 < d < |days| ==> days[d].date == days[d - 1].date + MsPerDay
    ensures forall d, e :: 0 <= d < e < |days| ==> days[d].date < days[e].date
  {
    forall d, e | 0 <= d < e < |days|
      ensures days[d].date < days[e].date
    {
      assert days[e].date - days[d].date == (e - d) * MsPerDay;
    }
  }

  /**
   * An availability whose end time of day is not after its start time of
   * day (a window across midnight) lists no slot on any day.
   */
  lemma CrossMidnightWindowListsNothing(days: seq<DaySchedule>, av: Availability, now: int,
                                        existing: seq<Appointment>)
    requires IsSlotListing(days, av, now, existing)
    requires TimeOfDay(av.endTime) <= TimeOfDay(av.startTime)
    ensures forall d :: 0 <= d < |days| ==> days[d].slots == []
  {
    forall d | 0 <= d < |days|
      ensures days[d].slots == []
    {
      if days[d].slots != [] {
        ListedSlotInWindow(days, av, now, existing, d, 0);
      }
    }
  }

  function Clock(hours: int, minutes: int): int {
    (hours * 60 + minutes) * MsPerMinute
  }

  /** The steps of a three-hour walk are its six half-hour marks. */
  lemma ThreeHourGrid(t: int, ws: int)
    requires OnGrid(t, ws, ws + 6 * SlotMs)
    ensures t == ws || t == ws + SlotMs || t == ws + 2 * SlotMs
         || t == ws + 3 * SlotMs || t == ws + 4 * SlotMs || t == ws + 5 * SlotMs
  {
    var k := (t - ws) / SlotMs;
    assert t - ws == SlotMs * k + (t - ws) % SlotMs;
    assert 0 <= k < 6;
  }

  /** With one appointment at 10:00-10:30, the step at `t` of a walk from 09:00 survives unless it is 10:00. */
  lemma MorningStep(t: int, day: int, now: int, a: Appointment)
    requires now <= day + Clock(9, 0)
    requires a.startTime == day + Clock(10, 0) && a.endTime == day + Clock(10, 30)
    requires OnGrid(t, day + Clock(9, 0), day + Clock(12, 0))
    ensures Bookable(t, day + Clock(9, 0), day + Clock(12, 0), now, [a]) <==> t != day + Clock(10, 0)
  {
    ThreeHourGrid(t, day + Clock(9, 0));
    if t == day + Clock(10, 0) {
      assert Overlaps(t, t + SlotMs, a.startTime, a.endTime);
    } else {
      forall b | b in [a]
        ensures !Overlaps(t, t + SlotMs, b.startTime, b.endTime)
      {
      }
    }
  }

  /** Each of the five free half-hours of the morning is listed. */
  lemma MorningStartListed(slots: seq<Slot>, day: int, now: int, a: Appointment, t: int)
    requires now <= day + Clock(9, 0)
    requires a.startTime == day + Clock(10, 0) && a.endTime == day + Clock(10, 30)
    requires IsDaySchedule(slots, day + Clock(9, 0), day + Clock(12, 0), now, [a])
    requires t in {day + Clock(9, 0), day + Clock(9, 30), day + Clock(10, 30), day + Clock(11, 0), day + Clock(11, 30)}
    ensures exists i :: 0 <= i < |slots| && slots[i].startTime == t
  {
    assert OnGrid(t, day + Clock(9, 0), day + Clock(12, 0));
    MorningStep(t, day, now, a);
  }

  /** Every listed start of the morning is one of its five free half-hours. */
  lemma MorningListedStart(slots: seq<Slot>, day: int, now: int, a: Appointment, i: int)
    requires now <= day + Clock(9, 0)
    requires a.startTime == day + Clock(10, 0) && a.endTime == day + Clock(10, 30)
    requires IsDaySchedule(slots, day + Clock(9, 0), day + Clock(12, 0), now, [a])
    requires 0 <= i < |slots|
    ensures slots[i].startTime in
      {day + Clock(9, 0), day + Clock(9, 30), day + Clock(10, 30), day + Clock(11, 0), day + Clock(11, 30)}
  {
    var t := slots[i].startTime;
    assert Bookable(t, day + Clock(9, 0), day + Clock(12, 0), now, [a]);
    ThreeHourGrid(t, day + Clock(9, 0));
    MorningStep(t, day, now, a);
  }

  /**
   * A 09:00-12:00 window with one SCHEDULED appointment at 10:00-10:30,
   * listed before 09:00 that day: exactly 09:00, 09:30, 10:30, 11:00 and
   * 11:30 are offered.
   */
  lemma MorningWithOneBooking(slots: seq<Slot>, day: int, now: int, a: Appointment)
    requires now <= day + Clock(9, 0)
    requires a.startTime == day + Clock(10, 0) && a.endTime == day + Clock(10, 30)
    requires IsDaySchedule(slots, day + Clock(9, 0), day + Clock(12, 0), now, [a])
    ensures (set i | 0 <= i < |slots| :: slots[i].startTime) ==
      {day + Clock(9, 0), day + Clock(9, 30), day + Clock(10, 30), day + Clock(11, 0), day + Clock(11, 30)}
  {
    var offered := {day + Clock(9, 0), day + Clock(9, 30), day + Clock(10, 30), day + Clock(11, 0), day + Clock(11, 30)};
    var listed := set i | 0 <= i < |slots| :: slots[i].startTime;
    forall t | t in offered
      ensures t in listed
    {
      MorningStartListed(slots, day, now, a, t);
    }
    forall t | t in listed
      ensures t in offered
    {
      var i :| 0 <= i < |slots| && slots[i].startTime == t;
      MorningListedStart(slots, day, now, a, i);
    }
  }

}
