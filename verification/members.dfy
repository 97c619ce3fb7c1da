/** The stored state the countdown reads and writes: member records keyed by
    id, their service plans, and the append-only attendance log. Storage is
    an in-memory value here; each stored row is a datatype value. */
module Members {
  import opened Engine

  datatype Option<T> = None | Some(value: T)

  /** Membership lifecycle states. */
  datatype Status = Pending | Active | Frozen | Dormant | Inactive | Expired

  /** A service plan: valid for `period` calendar days from the start date,
      and for at most `maxDays` attendance days. */
  datatype Service = Service(period: int, maxDays: int)

  /** A member record. `service` is absent when no plan is attached.
      `daysLeft` is the last countdown written by a check-in or a sweep. */
  datatype Member = Member(
    startDate: int,
    service: Option<Service>,
    status: Status,
    preFreezeAttendance: int,
    totalAttendance: int,
    daysLeft: int)

  type MemberId = string

  /** One attendance row: a member checked in on the day starting at `date`
      (an instant at midnight). */
  datatype Attendance = Attendance(memberId: MemberId, date: int)

  /** The whole store: members by id and the attendance table in insertion
      order. */
  datatype Gym = Gym(members: map<MemberId, Member>, attendance: seq<Attendance>)

  /** Midnight at the start of the day holding instant t. */
  function StartOfDay(t: int): (d: int)
    ensures d <= t < d + DAY
    ensures d % DAY == 0
  {
    t - t % DAY
  }

  /** Whether `log` contains a record for member `id` dated exactly `day`. */
  predicate HasRecordOn(log: seq<Attendance>, id: MemberId, day: int) {
    Attendance(id, day) in log
  }

  /** Every record is dated at a midnight, as the check-in writes them. */
  predicate Midnights(log: seq<Attendance>) {
    forall i :: 0 <= i < |log| ==> log[i].date % DAY == 0
  }

  /** No member has two records falling on the same day. */
  predicate OnePerDay(log: seq<Attendance>) {
    forall i, j :: 0 <= i < j < |log| && log[i].memberId == log[j].memberId ==>
      StartOfDay(log[i].date) != StartOfDay(log[j].date)
  }

  /** Number of records of member `id` dated at or after `since`. */
  function CountSince(log: seq<Attendance>, id: MemberId, since: int): (n: nat)
    ensures n <= |log|
    ensures n == 0 <==> forall i :: 0 <= i < |log| ==> !(log[i].memberId == id && log[i].date >= since)
  {
    if |log| == 0 then 0
    else
      var rest := CountSince(log[1..], id, since);
      assert forall i :: 1 <= i < |log| ==> log[i] == log[1..][i - 1];
      (if log[0].memberId == id && log[0].date >= since then 1 else 0) + rest
  }

  /** The records of member `id`, in log order. */
  function OwnRecords(log: seq<Attendance>, id: MemberId): (r: seq<Attendance>)
    ensures |r| <= |log|
    ensures forall a :: a in r <==> a in log && a.memberId == id
  {
    if |log| == 0 then []
    else
      var rest := OwnRecords(log[1..], id);
      assert forall a :: a in log <==> a == log[0] || a in log[1..];
      if log[0].memberId == id then [log[0]] + rest else rest
  }

  /** Appending one record raises the count by one exactly when the record
      belongs to `id` and is dated at or after `since`. */
  lemma {:induction false} CountSinceAppend(log: seq<Attendance>, a: Attendance, id: MemberId, since: int)
    ensures CountSince(log + [a], id, since)
            == CountSince(log, id, since) + (if a.memberId == id && a.date >= since then 1 else 0)
  {
    if |log| == 0 {
      assert log + [a] == [a];
      assert [a][1..] == [];
    } else {
      assert (log + [a])[1..] == log[1..] + [a];
      CountSinceAppend(log[1..], a, id, since);
    }
  }

  /** The count for `id` sees only the member's own records. */
  lemma {:induction false} CountSinceOwnRecords(log: seq<Attendance>, id: MemberId, since: int)
    ensures CountSince(OwnRecords(log, id), id, since) == CountSince(log, id, since)
  {
    if |log| > 0 {
      CountSinceOwnRecords(log[1..], id, since);
      if log[0].memberId == id {
        assert ([log[0]] + OwnRecords(log[1..], id))[1..] == OwnRecords(log[1..], id);
      }
    }
  }

  /** Appending another member's record leaves a member's own records alone. */
  lemma {:induction false} OwnRecordsAppendOther(log: seq<Attendance>, a: Attendance, id: MemberId)
    requires a.memberId != id
    ensures OwnRecords(log + [a], id) == OwnRecords(log, id)
  {
    if |log| == 0 {
      assert log + [a] == [a];
      assert [a][1..] == [];
    } else {
      assert (log + [a])[1..] == log[1..] + [a];
      OwnRecordsAppendOther(log[1..], a, id);
    }
  }

  /** Appending a midnight record that is not yet in the log keeps a log of
      midnight records so, and keeps one record per member and day: an
      exact-date lookup is enough because every date is its own day's
      midnight. Stated as implications so that the check-in can use it
      without assuming the invariants. */
  lemma OnePerDayAppend(log: seq<Attendance>, a: Attendance)
    requires a.date % DAY == 0
    requires a !in log
    ensures Midnights(log) ==> Midnights(log + [a])
    ensures Midnights(log) && OnePerDay(log) ==> OnePerDay(log + [a])
  {
    var log' := log + [a];
    assert forall i :: 0 <= i < |log| ==> log'[i] == log[i];
    if Midnights(log) && OnePerDay(log) {
      forall i, j | 0 <= i < j < |log'| && log'[i].memberId == log'[j].memberId
        ensures StartOfDay(log'[i].date) != StartOfDay(log'[j].date)
      {
        if j == |log| {
          assert StartOfDay(log[i].date) == log[i].date;
          assert StartOfDay(a.date) == a.date;
        }
      }
    }
  }

  /** The member's countdown at instant `now` under plan `s`, counting the
      attendance records on or after the start date (the shared formula of
      the check-in and of the sweep). */
  function MemberCountdown(m: Member, s: Service, log: seq<Attendance>, id: MemberId, now: int): (c: int)
    ensures IsCountdown(c, s.maxDays - CountSince(log, id, m.startDate) - m.preFreezeAttendance,
                        m.startDate + s.period * DAY - now)
  {
    Countdown(ExpirationDate(m.startDate, s.period),
              s.maxDays - CountSince(log, id, m.startDate) - m.preFreezeAttendance,
              now)
  }

  /** Outcome of loading a member by id. */
  datatype Lookup = MissingId | NotFound | Found(member: Member)

  /** Loading a member by id: an empty id is refused before the store is
      consulted, an unknown id is reported as not found. */
  function FetchMember(g: Gym, id: MemberId): (r: Lookup)
    ensures r == MissingId <==> id == ""
    ensures r.NotFound? <==> id != "" && id !in g.members
    ensures r.Found? ==> id in g.members && r.member == g.members[id]
  {
    if id == "" then MissingId
    else if id in g.members then Found(g.members[id])
    else NotFound
  }
}
