/**
 * The three-clause overlap test shared by the slot generator
 * (actions/appointments.ts) and both booking paths, and the
 * no-double-booking invariant it protects.
 */
module Overlap {
  import opened Entities

  /** `t` lies in the half-open interval `[s, e)`. */
  predicate Within(t: int, s: int, e: int) {
    s <= t < e
  }

  /** Reference meaning of a conflict: some instant lies in both half-open intervals. */
  ghost predicate SharesInstant(aS: int, aE: int, bS: int, bE: int) {
    exists t :: Within(t, aS, aE) && Within(t, bS, bE)
  }

  /**
   * The source's test of a candidate `[cS, cE)` against an existing
   * `[eS, eE)`: the candidate starts inside it, ends inside it, or covers it.
   * On non-empty intervals it is plain half-open overlap, so back-to-back
   * intervals do not conflict.
   */
  function Overlaps(cS: int, cE: int, eS: int, eE: int): (r: bool)
    ensures cS < cE && eS < eE ==> (r <==> cS < eE && eS < cE)
  {
    (eS <= cS && cS < eE) || (eS < cE && cE <= eE) || (cS <= eS && cE >= eE)
  }

  /** Whatever the intervals, a shared instant is always caught by the test. */
  lemma SharedInstantIsOverlap(cS: int, cE: int, eS: int, eE: int)
    requires SharesInstant(cS, cE, eS, eE)
    ensures Overlaps(cS, cE, eS, eE)
  {
    var t :| Within(t, cS, cE) && Within(t, eS, eE);
    assert cS < cE && eS < eE;
  }

  /** On non-empty intervals the test flags exactly the pairs that share an instant. */
  lemma OverlapIsSharedInstant(cS: int, cE: int, eS: int, eE: int)
    requires cS < cE && eS < eE
    ensures Overlaps(cS, cE, eS, eE) <==> SharesInstant(cS, cE, eS, eE)
  {
    if Overlaps(cS, cE, eS, eE) {
      var t := if cS < eS then eS else cS;
      assert Within(t, cS, cE) && Within(t, eS, eE);
    } else if SharesInstant(cS, cE, eS, eE) {
      SharedInstantIsOverlap(cS, cE, eS, eE);
    }
  }

  /** Adjacency is allowed: `[s, m)` and `[m, e)` do not conflict, in either role. */
  lemma AdjacentIntervalsDoNotOverlap(s: int, m: int, e: int)
    requires s < m < e
    ensures !Overlaps(s, m, m, e) && !Overlaps(m, e, s, m)
  {
  }

  /**
   * The non-emptiness hypothesis above is needed: a zero-length candidate
   * at an appointment's start is flagged although it shares no instant.
   */
  lemma EmptyCandidateStillFlagged(eS: int, eE: int)
    requires eS < eE
    ensures Overlaps(eS, eS, eS, eE) && !SharesInstant(eS, eS, eS, eE)
  {
  }

  /** `existing.some(a => overlaps(...))`. */
  predicate ConflictsWithAny(cS: int, cE: int, existing: seq<Appointment>) {
    exists a :: a in existing && Overlaps(cS, cE, a.startTime, a.endTime)
  }

  /** A doctor's SCHEDULED appointments (`where: { doctorId, status: "SCHEDULED" }`), in table order. */
  function ScheduledOf(appts: seq<Appointment>, doctorId: string): (r: seq<Appointment>)
    ensures forall a :: a in r <==> a in appts && a.doctorId == doctorId && a.status == Scheduled
    ensures |r| <= |appts|
  {
    if |appts| == 0 then []
    else
      var rest := ScheduledOf(appts[1..], doctorId);
      if appts[0].doctorId == doctorId && appts[0].status == Scheduled then [appts[0]] + rest else rest
  }

  /** No two SCHEDULED appointments of one doctor share an instant. */
  ghost predicate NoDoubleBooking(appts: seq<Appointment>) {
    forall i, j :: 0 <= i < |appts| && 0 <= j < |appts| && i != j
      && appts[i].status == Scheduled && appts[j].status == Scheduled
      && appts[i].doctorId == appts[j].doctorId
      ==> !SharesInstant(appts[i].startTime, appts[i].endTime, appts[j].startTime, appts[j].endTime)
  }

  /**
   * Appending a SCHEDULED appointment that the three-clause test clears
   * against its doctor's SCHEDULED appointments keeps the invariant.
   */
  lemma {:induction false} ClearedBookingKeepsNoDoubleBooking(appts: seq<Appointment>, a: Appointment)
    requires NoDoubleBooking(appts)
    requires a.status == Scheduled
    requires !ConflictsWithAny(a.startTime, a.endTime, ScheduledOf(appts, a.doctorId))
    ensures NoDoubleBooking(appts + [a])
  {
    var all := appts + [a];
    forall i, j | 0 <= i < |all| && 0 <= j < |all| && i != j
      && all[i].status == Scheduled && all[j].status == Scheduled
      && all[i].doctorId == all[j].doctorId
      ensures !SharesInstant(all[i].startTime, all[i].endTime, all[j].startTime, all[j].endTime)
    {
      if i < |appts| && j < |appts| {
        assert all[i] == appts[i] && all[j] == appts[j];
      } else if j == |appts| {
        var b := appts[i];
        assert b in ScheduledOf(appts, a.doctorId);
        if SharesInstant(b.startTime, b.endTime, a.startTime, a.endTime) {
          var t :| Within(t, b.startTime, b.endTime) && Within(t, a.startTime, a.endTime);
          SharedInstantIsOverlap(a.startTime, a.endTime, b.startTime, b.endTime);
        }
      } else {
        var b := appts[j];
        assert b in ScheduledOf(appts, a.doctorId);
        if SharesInstant(a.startTime, a.endTime, b.startTime, b.endTime) {
          SharedInstantIsOverlap(a.startTime, a.endTime, b.startTime, b.endTime);
        }
      }
    }
  }
}
