/** How the check-in and the sweep relate: where their thresholds differ,
    that a check-in does not disturb any other member's reconciliation, and
    examples of both paths with concrete numbers. */
module Agreement {
  import opened Engine
  import opened Members
  import opened CheckIn
  import opened Sweep

  /** The two call sites use different comparisons. At a countdown of -3 the
      check-in deactivates while the sweep only marks expired; at 0 the
      check-in marks expired while the sweep leaves an active member
      active. At every other countdown they agree. */
  lemma ThresholdsDisagree()
    ensures CheckInVerdict(-3) == Deactivate && SweepStatus(-3, Active) == Expired
    ensures CheckInStatus(-3, Active) == Inactive && CheckInStatus(-3, Expired) == Inactive
    ensures SweepStatus(-3, Expired) == Expired
    ensures CheckInVerdict(0) == MarkExpired && SweepStatus(0, Active) == Active
    ensures CheckInStatus(0, Active) == Expired
  {
  }

  /** For a member that either path can process (active or expired), the
      status the check-in leaves and the status the sweep writes coincide at
      every countdown other than -3 and 0. */
  lemma ThresholdsAgreeElsewhere(c: int, prior: Status)
    requires prior == Active || prior == Expired
    requires c != -3 && c != 0
    ensures CheckInStatus(c, prior) == SweepStatus(c, prior)
  {
  }

  /** A check-in by one member changes nothing the sweep computes for any
      other member, at any instant. */
  lemma CheckInDoesNotDisturbOthers(g: Gym, id: MemberId, now: int, later: int, k: MemberId)
    requires k in g.members && k != id
    ensures var g1 := RecordAttendance(g, id, now).gym;
            k in g1.members && SweepAll(g1, later).members[k] == SweepAll(g, later).members[k]
  {
    var g1 := RecordAttendance(g, id, now).gym;
    if g1.attendance != g.attendance {
      OwnRecordsAppendOther(g.attendance, Attendance(id, StartOfDay(now)), k);
    }
    SweepIsLocal(g1, g, later, k);
  }

  /** A plan of 90 days and 50 attendance days, checked into 100 days after
      the start with 10 days used: the calendar countdown is -10, so the
      check-in deactivates the member and records nothing. */
  lemma ScenarioLapsedMember(g: Gym, id: MemberId, start: int)
    requires id != "" && id in g.members
    requires g.members[id] == Member(start, Some(Service(90, 50)), Active, 0, 10, 0)
    requires CountSince(g.attendance, id, start) == 10
    requires !HasRecordOn(g.attendance, id, StartOfDay(start + 100 * DAY))
    ensures var r := RecordAttendance(g, id, start + 100 * DAY);
            && CountdownBefore(g, id, start + 100 * DAY) == -10
            && r.reply == Rejected(NowInactive)
            && r.gym.members[id].status == Inactive
            && r.gym.attendance == g.attendance
  {
    DaysBetweenWholeDays(start, 90, 100);
  }

  /** Same plan, 30 days in, 49 of 50 days used: the countdown before is 1,
      so the check-in succeeds and stores 0. The status is set only from
      the countdown before the check-in, so it stays active and the plain
      success notice is sent. */
  lemma ScenarioLastAllowedDay(g: Gym, id: MemberId, start: int)
    requires id != "" && id in g.members
    requires g.members[id] == Member(start, Some(Service(90, 50)), Active, 0, 49, 2)
    requires CountSince(g.attendance, id, start) == 49
    requires !HasRecordOn(g.attendance, id, StartOfDay(start + 30 * DAY))
    ensures var r := RecordAttendance(g, id, start + 30 * DAY);
            && CountdownBefore(g, id, start + 30 * DAY) == 1
            && r.reply == Recorded(RecordedOk, 50, 0)
            && r.gym.members[id].status == Active
            && r.gym.members[id].daysLeft == 0
  {
    DaysBetweenWholeDays(start, 90, 30);
  }

  /** A frozen member is turned away and nothing is written. */
  lemma ScenarioFrozenMember(g: Gym, id: MemberId, now: int)
    requires id != "" && id in g.members && g.members[id].status == Frozen
    requires !HasRecordOn(g.attendance, id, StartOfDay(now))
    ensures RecordAttendance(g, id, now) == Outcome(g, Rejected(OnFreeze))
  {
  }

  /** A dormant member is not touched by the sweep. */
  lemma ScenarioDormantMemberSwept(g: Gym, id: MemberId, now: int)
    requires id in g.members && g.members[id].status == Dormant
    ensures SweepAll(g, now).members[id] == g.members[id]
  {
  }
}
