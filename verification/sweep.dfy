/** The nightly reconciliation sweep: every active or expired member with a
    service plan gets its countdown recomputed, and its status decays by the
    sweep's own thresholds. */
module Sweep {
  import opened Engine
  import opened Members

  /** The sweep selects members whose status is active or expired. */
  predicate Selected(m: Member) {
    m.status == Active || m.status == Expired
  }

  /** The sweep's thresholds: strictly below -3 deactivates, strictly below 0
      expires, anything else keeps the prior status. */
  function SweepStatus(countdown: int, prior: Status): (s: Status)
    ensures s == Inactive || s == Expired || s == prior
  {
    if countdown < -3 then Inactive
    else if countdown < 0 then Expired
    else prior
  }

  /** The sweep's update of one member record; a member without a plan is
      skipped. */
  function ReconcileMember(m: Member, log: seq<Attendance>, id: MemberId, now: int): (m': Member)
    ensures m.service.None? ==> m' == m
    ensures m'.startDate == m.startDate && m'.service == m.service
    ensures m'.preFreezeAttendance == m.preFreezeAttendance
    ensures m'.totalAttendance == m.totalAttendance
  {
    match m.service
    case None => m
    case Some(s) =>
      var countdown := MemberCountdown(m, s, log, id, now);
      m.(daysLeft := countdown, status := SweepStatus(countdown, m.status))
  }

  /** The sweep's effect on one entry of the store. */
  function SweepEntry(m: Member, log: seq<Attendance>, id: MemberId, now: int): (m': Member)
    ensures !Selected(m) || m.service.None? ==> m' == m
    ensures Selected(m) && m.service.Some? ==> m'.daysLeft == MemberCountdown(m, m.service.value, log, id, now)
  {
    if Selected(m) then ReconcileMember(m, log, id, now) else m
  }

  /** One whole sweep at instant `now`: the same per-member update applied
      to every entry, the attendance table untouched. */
  function SweepAll(g: Gym, now: int): (g': Gym)
    ensures g'.members.Keys == g.members.Keys
    ensures g'.attendance == g.attendance
    ensures forall id :: id in g.members && !Selected(g.members[id]) ==> g'.members[id] == g.members[id]
    ensures forall id :: id in g.members && g.members[id].service.None? ==> g'.members[id] == g.members[id]
  {
    Gym(map id | id in g.members :: SweepEntry(g.members[id], g.attendance, id, now), g.attendance)
  }

  /** The sweep as a loop over the member ids, one update at a time, in any
      order; it ends in the same store as SweepAll. */
  method RunSweep(g: Gym, now: int) returns (g': Gym)
    ensures g' == SweepAll(g, now)
  {
    var pending := g.members.Keys;
    var members := g.members;
    while pending != {}
      invariant pending <= g.members.Keys
      invariant members.Keys == g.members.Keys
      invariant forall id :: id in pending ==> members[id] == g.members[id]
      invariant forall id :: id in g.members && id !in pending ==>
                  members[id] == SweepEntry(g.members[id], g.attendance, id, now)
      decreases pending
    {
      var id :| id in pending;
      members := members[id := SweepEntry(members[id], g.attendance, id, now)];
      pending := pending - {id};
    }
    g' := Gym(members, g.attendance);
  }

  /** Which status a swept member ends in, for a member the sweep selects:
      inactive exactly below -3, expired exactly when between -3 and 0 or
      already expired, active only when it was active and the countdown is
      not negative. Pending, frozen and dormant are never produced. */
  lemma SweepStatusTransitions(countdown: int, prior: Status)
    requires prior == Active || prior == Expired
    ensures var s := SweepStatus(countdown, prior);
            && (s == Inactive <==> countdown < -3)
            && (s == Expired <==> ((-3 <= countdown < 0) || (countdown >= 0 && prior == Expired)))
            && (s == Active <==> countdown >= 0 && prior == Active)
            && s != Pending && s != Frozen && s != Dormant
  {
  }

  /** For every member the sweep processes, daysLeft becomes the countdown
      even when the status does not change, and the status follows the
      sweep's thresholds. */
  lemma SweptMember(g: Gym, now: int, id: MemberId)
    requires id in g.members && Selected(g.members[id]) && g.members[id].service.Some?
    ensures var m := g.members[id];
            var m' := SweepAll(g, now).members[id];
            var c := MemberCountdown(m, m.service.value, g.attendance, id, now);
            && m'.daysLeft == c
            && (m'.status == Inactive <==> c < -3)
            && (m'.status == Expired <==> ((-3 <= c < 0) || (c >= 0 && m.status == Expired)))
            && (m'.status == Active <==> c >= 0 && m.status == Active)
  {
    var m := g.members[id];
    SweepStatusTransitions(MemberCountdown(m, m.service.value, g.attendance, id, now), m.status);
  }

  /** The sweep never brings a member back to active: anyone active after
      the sweep was active before it. */
  lemma SweepNeverActivates(g: Gym, now: int, id: MemberId)
    requires id in g.members
    ensures SweepAll(g, now).members[id].status == Active ==> g.members[id].status == Active
  {
  }

  /** Running the sweep twice at the same instant with the same attendance
      leaves the store exactly as one run does. */
  lemma SweepIdempotent(g: Gym, now: int)
    ensures SweepAll(SweepAll(g, now), now) == SweepAll(g, now)
  {
    var g1 := SweepAll(g, now);
    var g2 := SweepAll(g1, now);
    forall id | id in g.members
      ensures g2.members[id] == g1.members[id]
    {
      EntryIdempotent(g.members[id], g.attendance, id, now);
    }
  }

  /** The per-entry form of idempotence: the countdown does not read the
      previous daysLeft or status, so a second update repeats the first. */
  lemma EntryIdempotent(m: Member, log: seq<Attendance>, id: MemberId, now: int)
    ensures SweepEntry(SweepEntry(m, log, id, now), log, id, now) == SweepEntry(m, log, id, now)
  {
    if Selected(m) && m.service.Some? {
      var m1 := SweepEntry(m, log, id, now);
      assert MemberCountdown(m1, m1.service.value, log, id, now)
          == MemberCountdown(m, m.service.value, log, id, now);
    }
  }

  /** A member's new entry depends only on its own record and its own
      attendance records: two stores that agree on these give that member
      the same entry, whatever the other members and their records are. */
  lemma SweepIsLocal(g1: Gym, g2: Gym, now: int, id: MemberId)
    requires id in g1.members && id in g2.members
    requires g1.members[id] == g2.members[id]
    requires OwnRecords(g1.attendance, id) == OwnRecords(g2.attendance, id)
    ensures SweepAll(g1, now).members[id] == SweepAll(g2, now).members[id]
  {
    var m := g1.members[id];
    CountSinceOwnRecords(g1.attendance, id, m.startDate);
    CountSinceOwnRecords(g2.attendance, id, m.startDate);
  }
}
