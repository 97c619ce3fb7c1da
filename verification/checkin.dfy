/** The check-in path of the attendance controller: guards, the countdown
    before the check-in, the status transition, the appended record and the
    updated counters. */
module CheckIn {
  import opened Engine
  import opened Members

  /** Reasons a check-in is turned away with a failure reply. */
  datatype Rejection =
    | AlreadyRecorded  // a record for today already exists
    | UnknownMember    // no member with this id
    | OnFreeze         // status frozen
    | NotActive        // status inactive
    | NotApproved      // status pending
    | IsDormant        // status dormant
    | NowInactive      // the countdown before the check-in is at or below -3

  /** Errors the controller raises instead of replying: an empty id, and a
      member without a service plan (the plan's period is dereferenced). */
  datatype Fault = MissingMemberId | NoServicePlan

  /** The two success texts: plain, or with the renewal reminder. */
  datatype Notice = RecordedOk | RecordedButExpired

  datatype Reply =
    | Rejected(reason: Rejection)
    | Faulted(fault: Fault)
    | Recorded(notice: Notice, totalAttendance: int, daysLeft: int)

  /** The store after the call together with the reply. */
  datatype Outcome = Outcome(gym: Gym, reply: Reply)

  /** The status checks, in the controller's order: frozen, inactive,
      pending, dormant. */
  function StatusGuard(s: Status): (r: Option<Rejection>)
    ensures r.None? <==> s == Active || s == Expired
    ensures s == Frozen <==> r == Some(OnFreeze)
    ensures s == Inactive <==> r == Some(NotActive)
    ensures s == Pending <==> r == Some(NotApproved)
    ensures s == Dormant <==> r == Some(IsDormant)
  {
    if s == Frozen then Some(OnFreeze)
    else if s == Inactive then Some(NotActive)
    else if s == Pending then Some(NotApproved)
    else if s == Dormant then Some(IsDormant)
    else assert s.Active? || s.Expired?; None
  }

  /** What the controller does with the countdown computed before the
      check-in. */
  datatype Verdict = Deactivate | MarkExpired | Proceed

  /** The controller's thresholds: at or below -3 deactivates, at or below 0
      marks expired, above 0 leaves the status alone. */
  function CheckInVerdict(before: int): (v: Verdict)
    ensures v == Deactivate <==> before <= -3
    ensures v == MarkExpired <==> -3 < before <= 0
    ensures v == Proceed <==> 0 < before
  {
    if before <= -3 then Deactivate
    else if before <= 0 then MarkExpired
    else Proceed
  }

  /** The status the controller leaves after its thresholds: inactive on
      deactivation, expired when marked expired, otherwise the prior one. */
  function CheckInStatus(before: int, prior: Status): (s: Status)
    ensures s == Inactive <==> before <= -3 || (before > 0 && prior == Inactive)
    ensures s == Expired <==> (-3 < before <= 0) || (before > 0 && prior == Expired)
    ensures before > 0 ==> s == prior
  {
    match CheckInVerdict(before)
    case Deactivate => Inactive
    case MarkExpired => Expired
    case Proceed => prior
  }

  /** A check-in for `id` at instant `now` gets past every guard and reaches
      the countdown. */
  predicate ReachesCountdown(g: Gym, id: MemberId, now: int) {
    && !HasRecordOn(g.attendance, id, StartOfDay(now))
    && id != ""
    && id in g.members
    && StatusGuard(g.members[id].status).None?
    && g.members[id].service.Some?
  }

  /** The countdown before the check-in: the smaller of the usage limit and
      the whole days, rounded up, until the plan expires. */
  function CountdownBefore(g: Gym, id: MemberId, now: int): (c: int)
    requires ReachesCountdown(g, id, now)
    ensures var m := g.members[id];
            var s := m.service.value;
            IsCountdown(c, s.maxDays - CountSince(g.attendance, id, m.startDate) - m.preFreezeAttendance,
                        m.startDate + s.period * DAY - now)
  {
    var m := g.members[id];
    MemberCountdown(m, m.service.value, g.attendance, id, now)
  }

  /** The countdown stored after the check-in: the same formula with the
      attendance count raised by one, whether or not today's record falls on
      or after the start date. */
  function CountdownAfter(g: Gym, id: MemberId, now: int): (c: int)
    requires ReachesCountdown(g, id, now)
    ensures var m := g.members[id];
            var s := m.service.value;
            IsCountdown(c, s.maxDays - (CountSince(g.attendance, id, m.startDate) + 1) - m.preFreezeAttendance,
                        m.startDate + s.period * DAY - now)
    ensures CountdownBefore(g, id, now) - 1 <= c <= CountdownBefore(g, id, now)
  {
    var m := g.members[id];
    var s := m.service.value;
    var usage := s.maxDays - CountSince(g.attendance, id, m.startDate) - m.preFreezeAttendance;
    CountdownAfterOneMoreDay(ExpirationDate(m.startDate, s.period), usage, now);
    Countdown(ExpirationDate(m.startDate, s.period),
              s.maxDays - (CountSince(g.attendance, id, m.startDate) + 1) - m.preFreezeAttendance,
              now)
  }

  /** One check-in request for member `id` at instant `now`. */
  function RecordAttendance(g: Gym, id: MemberId, now: int): (r: Outcome)
    ensures r.gym.members.Keys == g.members.Keys
    ensures forall k :: k in g.members && k != id ==> r.gym.members[k] == g.members[k]
    ensures r.reply.Recorded? ==> r.gym.attendance == g.attendance + [Attendance(id, StartOfDay(now))]
    ensures !r.reply.Recorded? ==> r.gym.attendance == g.attendance
    ensures !r.reply.Recorded? && r.reply != Rejected(NowInactive) ==> r.gym == g
    ensures HasRecordOn(g.attendance, id, StartOfDay(now)) ==> r == Outcome(g, Rejected(AlreadyRecorded))
    ensures Midnights(g.attendance) ==> Midnights(r.gym.attendance)
    ensures Midnights(g.attendance) && OnePerDay(g.attendance) ==> OnePerDay(r.gym.attendance)
  {
    var today := StartOfDay(now);
    if HasRecordOn(g.attendance, id, today) then Outcome(g, Rejected(AlreadyRecorded))
    else
      match FetchMember(g, id)
      case MissingId => Outcome(g, Faulted(MissingMemberId))
      case NotFound => Outcome(g, Rejected(UnknownMember))
      case Found(m) =>
        match StatusGuard(m.status)
        case Some(reason) => Outcome(g, Rejected(reason))
        case None =>
          match m.service
          case None => Outcome(g, Faulted(NoServicePlan))
          case Some(s) =>
            var before := CountdownBefore(g, id, now);
            var status := CheckInStatus(before, m.status);
            if CheckInVerdict(before) == Deactivate then
              Outcome(g.(members := g.members[id := m.(status := status)]), Rejected(NowInactive))
            else
              var after := CountdownAfter(g, id, now);
              var m' := m.(status := status, totalAttendance := m.totalAttendance + 1, daysLeft := after);
              var log' := g.attendance + [Attendance(id, today)];
              OnePerDayAppend(g.attendance, Attendance(id, today));
              Outcome(Gym(g.members[id := m'], log'),
                      Recorded(if m'.status == Expired then RecordedButExpired else RecordedOk,
                               m'.totalAttendance, m'.daysLeft))
  }

  /** Once past the duplicate check and the id checks, the status guards
      decide: frozen, inactive, pending and dormant members are rejected
      with their own reason and nothing changes; only active and expired
      members go on to the countdown. */
  lemma GuardsDecide(g: Gym, id: MemberId, now: int)
    requires !HasRecordOn(g.attendance, id, StartOfDay(now)) && id != "" && id in g.members
    ensures var r := RecordAttendance(g, id, now);
            var st := g.members[id].status;
            && (st == Frozen ==> r == Outcome(g, Rejected(OnFreeze)))
            && (st == Inactive ==> r == Outcome(g, Rejected(NotActive)))
            && (st == Pending ==> r == Outcome(g, Rejected(NotApproved)))
            && (st == Dormant ==> r == Outcome(g, Rejected(IsDormant)))
            && (r.reply in {Rejected(OnFreeze), Rejected(NotActive), Rejected(NotApproved), Rejected(IsDormant)}
                <==> st != Active && st != Expired)
  {
  }

  /** A countdown at or below -3 before the check-in deactivates the member
      and fails the check-in; nothing else is written. Conversely the
      deactivating reply is given only in that case. */
  lemma DeactivationPath(g: Gym, id: MemberId, now: int)
    ensures var r := RecordAttendance(g, id, now);
            r.reply == Rejected(NowInactive)
            <==> ReachesCountdown(g, id, now) && CountdownBefore(g, id, now) <= -3
    ensures var r := RecordAttendance(g, id, now);
            r.reply == Rejected(NowInactive) ==>
              && r.gym.attendance == g.attendance
              && r.gym.members[id] == g.members[id].(status := Inactive)
  {
  }

  /** A check-in that reaches the countdown above -3 succeeds: exactly one
      record for today is added, the total rises by one, the stored
      countdown is the recount with one more day and lies within one day of
      the countdown before, and the status becomes expired when the
      countdown before was at or below zero and is otherwise kept. */
  lemma SuccessPath(g: Gym, id: MemberId, now: int)
    requires ReachesCountdown(g, id, now)
    requires CountdownBefore(g, id, now) > -3
    ensures var r := RecordAttendance(g, id, now);
            var m := g.members[id];
            var m' := r.gym.members[id];
            var before := CountdownBefore(g, id, now);
            && r.reply.Recorded?
            && r.gym.attendance == g.attendance + [Attendance(id, StartOfDay(now))]
            && m'.totalAttendance == m.totalAttendance + 1
            && m'.daysLeft == CountdownAfter(g, id, now)
            && before - 1 <= m'.daysLeft <= before
            && (before <= 0 ==> m'.status == Expired)
            && (before > 0 ==> m'.status == m.status)
            && m'.startDate == m.startDate && m'.service == m.service
            && m'.preFreezeAttendance == m.preFreezeAttendance
            && r.reply.totalAttendance == m'.totalAttendance
            && r.reply.daysLeft == m'.daysLeft
  {
  }

  /** The reply carries the renewal reminder exactly when the member's
      resulting status is expired. */
  lemma NoticeMatchesStatus(g: Gym, id: MemberId, now: int)
    ensures var r := RecordAttendance(g, id, now);
            r.reply.Recorded? ==>
              id in r.gym.members
              && (r.reply.notice == RecordedButExpired <==> r.gym.members[id].status == Expired)
  {
  }

  /** Every successful check-in went through all guards, and every check-in
      that reaches the countdown above -3 succeeds. */
  lemma RecordedIff(g: Gym, id: MemberId, now: int)
    ensures RecordAttendance(g, id, now).reply.Recorded?
            <==> ReachesCountdown(g, id, now) && CountdownBefore(g, id, now) > -3
  {
  }

  /** Each error reply names its cause, and only that cause: today's record
      already present, an empty id, an id the store does not hold, or a
      member past the status guards with no plan attached. */
  lemma ErrorReplies(g: Gym, id: MemberId, now: int)
    ensures var r := RecordAttendance(g, id, now);
            var noneToday := !HasRecordOn(g.attendance, id, StartOfDay(now));
            && (r.reply == Rejected(AlreadyRecorded) <==> !noneToday)
            && (r.reply == Faulted(MissingMemberId) <==> noneToday && id == "")
            && (r.reply == Rejected(UnknownMember) <==> noneToday && id != "" && id !in g.members)
            && (r.reply == Faulted(NoServicePlan)
                <==> noneToday && id != "" && id in g.members
                     && StatusGuard(g.members[id].status).None? && g.members[id].service.None?)
  {
  }

  /** When today is on or after the start date, the daysLeft the check-in
      stores is the countdown recomputed from the updated attendance log, so
      a sweep at the same instant would write the same number. */
  lemma StoredDaysLeftIsRecount(g: Gym, id: MemberId, now: int)
    requires ReachesCountdown(g, id, now)
    requires StartOfDay(now) >= g.members[id].startDate
    ensures var r := RecordAttendance(g, id, now);
            var m' := r.gym.members[id];
            r.reply.Recorded? ==>
              m'.daysLeft == MemberCountdown(m', m'.service.value, r.gym.attendance, id, now)
  {
    var m := g.members[id];
    CountSinceAppend(g.attendance, Attendance(id, StartOfDay(now)), id, m.startDate);
  }

  /** A member with a record for today stays at one record per day however
      often the check-in is repeated that day: the repeat is rejected. */
  lemma SecondCheckInSameDayRejected(g: Gym, id: MemberId, now: int, later: int)
    requires StartOfDay(later) == StartOfDay(now)
    ensures var r1 := RecordAttendance(g, id, now);
            var r2 := RecordAttendance(r1.gym, id, later);
            r1.reply.Recorded? ==>
              r2 == Outcome(r1.gym, Rejected(AlreadyRecorded))
  {
    var r1 := RecordAttendance(g, id, now);
    if r1.reply.Recorded? {
      assert r1.gym.attendance[|g.attendance|] == Attendance(id, StartOfDay(now));
    }
  }

  /** The agreement above needs today to be on or after the start date: a
      member who starts at noon and checks in that afternoon gets a record
      dated midnight, which the recount does not see. When the usage limit
      binds, the stored daysLeft is one lower than a recount at the same
      instant. */
  lemma CheckInBeforeStartNotRecounted()
    ensures var start := DAY / 2;
            var g := Gym(map["m" := Member(start, Some(Service(90, 5)), Active, 0, 0, 5)], []);
            var r := RecordAttendance(g, "m", start + 1);
            var m' := r.gym.members["m"];
            && r.reply.Recorded?
            && m'.daysLeft == 4
            && MemberCountdown(m', m'.service.value, r.gym.attendance, "m", start + 1) == 5
  {
  }
}
