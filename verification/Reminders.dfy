/** Reminder dispatch: which of the three reminders an open enrolment is due, tick after tick. */
module Reminders {
  import opened Common
  import opened TrainingModel

  datatype Kind = ThreeDays | SevenDays | Final

  /** The calendar day of an instant, in UTC. */
  function Day(i: Instant): int {
    i / DAY
  }

  predicate Undecided(e: Enrolment) {
    e.status == Issued || e.status == Started
  }

  function SentAt(e: Enrolment, kind: Kind): Option<Instant> {
    match kind
    case ThreeDays => e.sent.threeDays
    case SevenDays => e.sent.sevenDays
    case Final => e.sent.last
  }

  function MarkSent(e: Enrolment, kind: Kind, now: Instant): Enrolment {
    match kind
    case ThreeDays => e.(sent := e.sent.(threeDays := Some(now)))
    case SevenDays => e.(sent := e.sent.(sevenDays := Some(now)))
    case Final => e.(sent := e.sent.(last := Some(now)))
  }

  /** The single decision gate: the reminder an enrolment is due, if any. */
  function Classify(e: Enrolment, now: Instant): Option<Kind> {
    var finalDay := Day(e.expiresAt) == Day(now);
    if !Undecided(e) then None
    else if finalDay && e.sent.last.None? then Some(Final)
    else if e.expiresAt <= now then None
    else if !finalDay && e.issuedAt + 7 * DAY <= now && e.sent.sevenDays.None? then Some(SevenDays)
    else if e.issuedAt + 3 * DAY <= now && e.sent.threeDays.None? then Some(ThreeDays)
    else None
  }

  /** What a pass sends for one enrolment: it must be live, due a reminder and its trainee active. */
  function Due(e: Enrolment, active: bool, now: Instant): Option<Kind> {
    if IsOpen(e, now) && active then Classify(e, now) else None
  }

  function Reminded(e: Enrolment, active: bool, now: Instant): Enrolment {
    match Due(e, active, now)
    case None => e
    case Some(kind) => MarkSent(e, kind, now)
  }

  // ---------- One pass over the table ----------

  datatype Counts = Counts(threeDays: nat, sevenDays: nat, last: nat, skipped: nat)

  function Counted(c: Counts, e: Enrolment, active: bool, now: Instant): Counts {
    if !IsOpen(e, now) then c
    else
      match Classify(e, now)
      case None => c
      case Some(kind) =>
        if !active then c.(skipped := c.skipped + 1)
        else
          match kind
          case ThreeDays => c.(threeDays := c.threeDays + 1)
          case SevenDays => c.(sevenDays := c.sevenDays + 1)
          case Final => c.(last := c.last + 1)
  }

  predicate Active(db: Db, e: Enrolment) {
    e.trainee < |db.trainees| && db.trainees[e.trainee].isActive
  }

  function RemindedAmong(db: Db, now: Instant, n: nat): (es: seq<Enrolment>)
    requires n <= |db.enrolments|
    ensures |es| == n
    ensures forall i :: 0 <= i < n ==> es[i] == Reminded(db.enrolments[i], Active(db, db.enrolments[i]), now)
  {
    if n == 0 then []
    else RemindedAmong(db, now, n - 1) + [Reminded(db.enrolments[n - 1], Active(db, db.enrolments[n - 1]), now)]
  }

  function RemindAll(db: Db, now: Instant): Db {
    db.(enrolments := RemindedAmong(db, now, |db.enrolments|))
  }

  function CountsAmong(db: Db, now: Instant, n: nat): Counts
    requires n <= |db.enrolments|
  {
    if n == 0 then Counts(0, 0, 0, 0)
    else Counted(CountsAmong(db, now, n - 1), db.enrolments[n - 1], Active(db, db.enrolments[n - 1]), now)
  }

  // ---------- The life of one enrolment ----------

  /** Everything that happens to an enrolment between being issued and being forgotten. */
  datatype Event =
    | Pass(at: Instant, traineeActive: bool)
    | Begin(at: Instant)
    | Finish(at: Instant)

  datatype Mail = Mail(kind: Kind, at: Instant)

  function Happen(e: Enrolment, ev: Event): Enrolment {
    match ev
    case Pass(now, active) => Reminded(e, active, now)
    case Begin(_) => if e.status == Issued then e.(status := Started) else e
    case Finish(_) => e.(status := Submitted)
  }

  function MailOf(e: Enrolment, ev: Event): seq<Mail> {
    if ev.Pass? && Due(e, ev.traineeActive, ev.at).Some?
    then [Mail(Due(e, ev.traineeActive, ev.at).value, ev.at)] else []
  }

  function Life(e: Enrolment, evs: seq<Event>): Enrolment
    decreases |evs|
  {
    if evs == [] then e else Happen(Life(e, evs[..|evs| - 1]), evs[|evs| - 1])
  }

  /** The reminders that went out, in order. */
  function Outbox(e: Enrolment, evs: seq<Event>): seq<Mail>
    decreases |evs|
  {
    if evs == [] then []
    else Outbox(e, evs[..|evs| - 1]) + MailOf(Life(e, evs[..|evs| - 1]), evs[|evs| - 1])
  }

  ghost predicate Ordered(evs: seq<Event>) {
    forall i, j :: 0 <= i < j < |evs| ==> evs[i].at <= evs[j].at
  }

  ghost predicate Contains(log: seq<Mail>, kind: Kind) {
    exists m :: m in log && m.kind == kind
  }

  ghost predicate NoRepeats(log: seq<Mail>) {
    forall i, j :: 0 <= i < j < |log| ==> log[i].kind != log[j].kind
  }

  ghost predicate OnTime(e: Enrolment, m: Mail) {
    && m.at < e.expiresAt
    && (m.kind == Final ==> Day(m.at) == Day(e.expiresAt))
    && (m.kind == SevenDays ==> e.issuedAt + 7 * DAY <= m.at && Day(m.at) < Day(e.expiresAt))
    && (m.kind == ThreeDays ==> e.issuedAt + 3 * DAY <= m.at)
  }

  lemma {:induction false} LifeKeeps(e: Enrolment, evs: seq<Event>)
    ensures Life(e, evs).expiresAt == e.expiresAt && Life(e, evs).issuedAt == e.issuedAt
    decreases |evs|
  {
    if evs == [] {
    } else {
      LifeKeeps(e, evs[..|evs| - 1]);
    }
  }

  /** The `reminder_*_sent_at` columns are exactly the record of what went out. */
  lemma {:induction false} ColumnsRecordOutbox(e: Enrolment, evs: seq<Event>)
    requires e.sent == Sent(None, None, None)
    ensures forall kind :: SentAt(Life(e, evs), kind).Some? <==> Contains(Outbox(e, evs), kind)
    decreases |evs|
  {
    if evs == [] {
    } else {
      var before := evs[..|evs| - 1];
      var ev := evs[|evs| - 1];
      var state := Life(e, before);
      var log := Outbox(e, before);
      ColumnsRecordOutbox(e, before);
      forall kind ensures SentAt(Happen(state, ev), kind).Some? <==> Contains(log + MailOf(state, ev), kind) {
        Grows(log, MailOf(state, ev), kind);
        if MailOf(state, ev) != [] { assert MailOf(state, ev)[0] in MailOf(state, ev); }
      }
    }
  }

  lemma Grows(log: seq<Mail>, more: seq<Mail>, kind: Kind)
    ensures Contains(log + more, kind) <==> Contains(log, kind) || Contains(more, kind)
  {
    if Contains(log, kind) {
      var m :| m in log && m.kind == kind;
      assert m in log + more;
    }
    if Contains(more, kind) {
      var m :| m in more && m.kind == kind;
      assert m in log + more;
    }
  }

  /** Each kind goes out at most once per enrolment, whatever the passes and the trainee do. */
  lemma {:induction false} EachKindAtMostOnce(e: Enrolment, evs: seq<Event>)
    requires e.sent == Sent(None, None, None)
    ensures NoRepeats(Outbox(e, evs))
    decreases |evs|
  {
    if evs == [] {
    } else {
      var before := evs[..|evs| - 1];
      var log := Outbox(e, before);
      EachKindAtMostOnce(e, before);
      ColumnsRecordOutbox(e, before);
      var last := MailOf(Life(e, before), evs[|evs| - 1]);
      if last != [] {
        assert SentAt(Life(e, before), last[0].kind).None?;
        assert !Contains(log, last[0].kind);
        forall i | 0 <= i < |log| ensures log[i].kind != last[0].kind { assert log[i] in log; }
      }
    }
  }

  /** Every reminder goes out before expiry: the final one on the expiry date, the seven-day one never
      on that date, and neither delayed one too early. */
  lemma {:induction false} RemindersAreOnTime(e: Enrolment, evs: seq<Event>)
    ensures forall m :: m in Outbox(e, evs) ==> OnTime(e, m)
    decreases |evs|
  {
    if evs == [] {
    } else {
      RemindersAreOnTime(e, evs[..|evs| - 1]);
      LifeKeeps(e, evs[..|evs| - 1]);
    }
  }

  lemma {:induction false} SubmittedStays(e: Enrolment, evs: seq<Event>, k: nat)
    requires k < |evs| && evs[k].Finish?
    ensures Life(e, evs).status == Submitted
    decreases |evs|
  {
    if k == |evs| - 1 {
    } else {
      SubmittedStays(e, evs[..|evs| - 1], k);
    }
  }

  /** Nothing goes out once the exam is submitted. */
  lemma {:induction false} SilentOnceSubmitted(e: Enrolment, evs: seq<Event>, k: nat)
    requires k < |evs| && evs[k].Finish?
    ensures Outbox(e, evs) == Outbox(e, evs[..k])
    decreases |evs|
  {
    var before := evs[..|evs| - 1];
    if k < |before| {
      SilentOnceSubmitted(e, before, k);
      SubmittedStays(e, before, k);
      assert before[..k] == evs[..k];
    } else {
      assert before == evs[..k];
    }
  }

  /** However the passes fell before, the first one on the expiry date and before expiry sends the final
      reminder to an active trainee whose enrolment is still open. */
  lemma FirstPassOnExpiryDateIsFinal(e: Enrolment, evs: seq<Event>, now: Instant)
    requires e.sent == Sent(None, None, None)
    requires forall ev :: ev in evs && ev.Pass? ==> Day(ev.at) != Day(e.expiresAt)
    requires Day(now) == Day(e.expiresAt) && now < e.expiresAt && Undecided(Life(e, evs))
    ensures Outbox(e, evs + [Pass(now, true)]) == Outbox(e, evs) + [Mail(Final, now)]
  {
    var all := evs + [Pass(now, true)];
    assert all[..|all| - 1] == evs;
    LifeKeeps(e, evs);
    ColumnsRecordOutbox(e, evs);
    if Contains(Outbox(e, evs), Final) {
      RemindersAreOnTime(e, evs);
      var m :| m in Outbox(e, evs) && m.kind == Final;
      SentByAPass(e, evs, m);
      assert false;
    }
    assert SentAt(Life(e, evs), Final).None?;
  }

  lemma {:induction false} SentByAPass(e: Enrolment, evs: seq<Event>, m: Mail)
    requires m in Outbox(e, evs)
    ensures exists ev :: ev in evs && ev.Pass? && ev.at == m.at
    decreases |evs|
  {
    var before := evs[..|evs| - 1];
    if m in Outbox(e, before) {
      SentByAPass(e, before, m);
      var ev :| ev in before && ev.Pass? && ev.at == m.at;
      assert ev in evs;
    } else {
      assert evs[|evs| - 1] in evs;
    }
  }

  /** After the final reminder the only one that can still follow is a late three-day one, and it does
      exactly when none went out before, the trainee is active, the link is still open and three days
      have passed since it was issued. */
  lemma AfterFinalOnlyThreeDays(e: Enrolment, evs: seq<Event>, now: Instant, active: bool)
    requires e.sent == Sent(None, None, None)
    requires Contains(Outbox(e, evs), Final) && Ordered(evs + [Pass(now, active)])
    ensures var sends := active && now < e.expiresAt && Undecided(Life(e, evs))
                         && e.issuedAt + 3 * DAY <= now && !Contains(Outbox(e, evs), ThreeDays);
            Outbox(e, evs + [Pass(now, active)]) == Outbox(e, evs) + if sends then [Mail(ThreeDays, now)] else []
  {
    var all := evs + [Pass(now, active)];
    assert all[..|all| - 1] == evs;
    LifeKeeps(e, evs);
    FinalWasOnThisDay(e, evs, now, active);
    ColumnsRecordOutbox(e, evs);
    AfterFinal(Life(e, evs), now, active);
  }

  lemma AfterFinal(e: Enrolment, now: Instant, active: bool)
    requires e.sent.last.Some? && (now < e.expiresAt ==> Day(now) == Day(e.expiresAt))
    ensures Due(e, active, now) ==
            if active && now < e.expiresAt && Undecided(e) && e.issuedAt + 3 * DAY <= now && e.sent.threeDays.None?
            then Some(ThreeDays) else None
  {
  }

  lemma FinalWasOnThisDay(e: Enrolment, evs: seq<Event>, now: Instant, active: bool)
    requires Contains(Outbox(e, evs), Final) && Ordered(evs + [Pass(now, active)])
    ensures now < e.expiresAt ==> Day(now) == Day(e.expiresAt)
  {
    var all := evs + [Pass(now, active)];
    RemindersAreOnTime(e, evs);
    var m :| m in Outbox(e, evs) && m.kind == Final;
    SentByAPass(e, evs, m);
    var ev :| ev in evs && ev.Pass? && ev.at == m.at;
    var k :| 0 <= k < |evs| && evs[k] == ev;
    assert all[k].at <= all[|evs|].at;
    if now < e.expiresAt {
      SameDay(m.at, now, e.expiresAt);
    }
  }

  lemma SameDay(a: Instant, b: Instant, c: Instant)
    requires a <= b <= c && Day(a) == Day(c)
    ensures Day(b) == Day(c)
  {
  }

  // ---------- The late three-day reminder of issued links ----------

  /** A three-day reminder went out after the final one. */
  ghost predicate LateThreeDays(log: seq<Mail>) {
    exists i, j :: 0 <= i < j < |log| && log[i].kind == Final && log[j].kind == ThreeDays
  }

  lemma TwoEvents(e: Enrolment, a: Event, b: Event)
    ensures Outbox(e, [a, b]) == MailOf(e, a) + MailOf(Happen(e, a), b)
  {
    assert [a, b][..1] == [a] && [a][..0] == [];
    assert Outbox(e, []) == [] && Life(e, []) == e;
    assert Outbox(e, [a]) == MailOf(e, a) && Life(e, [a]) == Happen(e, a);
  }

  lemma LastDayDue(e: Enrolment, p: Instant)
    requires Undecided(e) && p < e.expiresAt && Day(p) == Day(e.expiresAt)
    ensures e.sent.last.None? ==> Due(e, true, p) == Some(Final)
    ensures e.sent.last.Some? && e.sent.threeDays.None? && e.issuedAt + 3 * DAY <= p ==>
              Due(e, true, p) == Some(ThreeDays)
  {
  }

  /** Two passes on the expiry date, before expiry and at least three days after the issue, send the final
      reminder and then the three-day one. */
  lemma TwoPassesOnExpiryDate(e: Enrolment, p: Instant, q: Instant)
    requires e.sent == Sent(None, None, None) && Undecided(e) && p <= q < e.expiresAt
    requires Day(p) == Day(e.expiresAt) && e.issuedAt + 3 * DAY <= q
    ensures Ordered([Pass(p, true), Pass(q, true)])
    ensures Outbox(e, [Pass(p, true), Pass(q, true)]) == [Mail(Final, p), Mail(ThreeDays, q)]
  {
    TwoEvents(e, Pass(p, true), Pass(q, true));
    SameDay(p, q, e.expiresAt);
    LastDayDue(e, p);
    LastDayDue(MarkSent(e, Final, p), q);
  }

  lemma WindowOnExpiryDate(issued: Instant, ttl: int)
    requires ttl >= 4 && issued % DAY > 0
    ensures var expires := issued + Days(ttl);
            var midnight := expires - expires % DAY;
            midnight < expires && Day(midnight) == Day(expires) && issued + 3 * DAY <= midnight
  {
    assert (issued + Days(ttl)) % DAY == issued % DAY;
  }

  /** A link as the engine issues it can get the three-day reminder after the final one if and only if it
      lives for at least four days and was not issued at midnight sharp. */
  lemma LateThreeDaysIff(db: Db, t: Id, v: Id, issued: Instant)
    requires v < |db.versions|
    ensures (exists evs :: Ordered(evs) && LateThreeDays(Outbox(NewEnrolment(db, t, v, issued), evs))) <==>
              db.versions[v].linkTtlDays >= 4 && issued % DAY > 0
  {
    var e := NewEnrolment(db, t, v, issued);
    var ttl := db.versions[v].linkTtlDays;
    if evs :| Ordered(evs) && LateThreeDays(Outbox(e, evs)) {
      LateNeedsFourDays(db, t, v, issued, evs);
    }
    if ttl >= 4 && issued % DAY > 0 {
      WindowOnExpiryDate(issued, ttl);
      var midnight := e.expiresAt - e.expiresAt % DAY;
      TwoPassesOnExpiryDate(e, midnight, midnight);
      var log := Outbox(e, [Pass(midnight, true), Pass(midnight, true)]);
      assert log[0].kind == Final && log[1].kind == ThreeDays;
    }
  }

  lemma LateNeedsFourDays(db: Db, t: Id, v: Id, issued: Instant, evs: seq<Event>)
    requires v < |db.versions| && LateThreeDays(Outbox(NewEnrolment(db, t, v, issued), evs))
    ensures db.versions[v].linkTtlDays >= 4 && issued % DAY > 0
  {
    var e := NewEnrolment(db, t, v, issued);
    var log := Outbox(e, evs);
    var i, j :| 0 <= i < j < |log| && log[i].kind == Final && log[j].kind == ThreeDays;
    RemindersAreOnTime(e, evs);
    assert log[i] in log && log[j] in log;
    FinalNeedsDaytime(log[i].at, issued, db.versions[v].linkTtlDays);
  }

  lemma FinalNeedsDaytime(at: Instant, issued: Instant, ttl: int)
    requires at < issued + Days(ttl) && Day(at) == Day(issued + Days(ttl))
    ensures issued % DAY > 0
  {
    assert (issued + Days(ttl)) % DAY == issued % DAY;
  }

  /** It really happens: a seven-day link issued at noon, with its first passes just after midnight of its
      last day. */
  lemma FinalThenThreeDays()
    ensures var version := Version(0, 1, true, 0.0, 12, 7, []);
            var db := Db([Trainee("operator", None, true)], [Course(true, [])], [version], [], [], [], []);
            var evs := [Pass(7 * DAY + 1, true), Pass(7 * DAY + 2, true)];
            && Ordered(evs)
            && Outbox(NewEnrolment(db, 0, 0, DAY / 2), evs) == [Mail(Final, 7 * DAY + 1), Mail(ThreeDays, 7 * DAY + 2)]
  {
    var version := Version(0, 1, true, 0.0, 12, 7, []);
    var db := Db([Trainee("operator", None, true)], [Course(true, [])], [version], [], [], [], []);
    TwoPassesOnExpiryDate(NewEnrolment(db, 0, 0, DAY / 2), 7 * DAY + 1, 7 * DAY + 2);
  }
}
