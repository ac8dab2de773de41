/** Whole runs of the training engine: scheduler ticks, trigger fires, bulk and manual issues, exams and
    declarations in any order, while the clock moves on. */
module TrainingRuns {
  import opened Common
  import opened TrainingModel
  import opened Issuing
  import Reminders
  import C = Certification

  datatype Action =
    | Tick
    | Fire(course: Id, who: Audience)
    | Bulk(tids: seq<Id>, course: Id)
    | Serve(call: C.Step)

  function Do(db: Db, a: Action, now: DateTime, leadDays: int): Db
    requires KeysResolve(db) && ValidTime(now)
  {
    var at := Stamp(now);
    match a
    case Tick => Reminders.RemindAll(TickResult(db, at, leadDays), at)
    case Fire(course, who) => Add(db, CourseLinks(db, FireList(db, course, who, at), course, at))
    case Bulk(tids, course) =>
      Add(db, CourseLinks(db, IssueIds(Plan(db, tids, course, at), |tids|), course, at))
    case Serve(call) => C.Next(db, call, now)
  }

  /** Nothing in the engine marks an enrolment expired or withdrawn. */
  ghost predicate NeverParked(db: Db) {
    forall e :: 0 <= e < |db.enrolments| ==>
      db.enrolments[e].status in {Issued, Started, Submitted}
  }

  /** The certification invariant, and at most one open link per trainee and course. */
  ghost predicate Inv(db: Db, now: Instant) {
    C.Sound(db) && NeverParked(db) && AtMostOneOpen(db, now)
  }

  /** The only two steps that can double-issue: a bulk form that repeats an eligible trainee, and the
      manual form used on a trainee who already holds an open link. */
  ghost predicate Careful(db: Db, a: Action, now: Instant) {
    match a
    case Bulk(tids, course) => !(IssuesLiveLinks(db, course) && RepeatsEligible(db, tids, course, now, |tids|))
    case Serve(IssueLink(t, course)) =>
      t < |db.trainees| ==> !(IssuesLiveLinks(db, course) && HasOpenEnrolment(db, t, course, now))
    case _ => true
  }

  // ---------- Issuing keeps certificates sound ----------

  ghost predicate AllFresh(db: Db, es: seq<Enrolment>) {
    forall k :: 0 <= k < |es| ==>
      es[k].trainee < |db.trainees| && es[k].version < |db.versions| && es[k].status == Issued
  }

  lemma AddSound(db: Db, es: seq<Enrolment>)
    requires C.Sound(db) && NeverParked(db) && AllFresh(db, es)
    ensures C.Sound(Add(db, es)) && NeverParked(Add(db, es)) && C.Keeps(db, Add(db, es))
  {
    C.SoundCarries(db, Add(db, es));
  }

  lemma CourseLinksFresh(db: Db, ts: seq<Id>, course: Id, now: Instant)
    requires forall t :: t in ts ==> t < |db.trainees|
    ensures AllFresh(db, CourseLinks(db, ts, course, now))
  {
    ActiveIsActive(db.versions, |db.versions|, course);
    forall k | 0 <= k < |CourseLinks(db, ts, course, now)| ensures ts[k] < |db.trainees| { assert ts[k] in ts; }
  }

  lemma CourseTickFresh(db: Db, c: Id, now: Instant, leadDays: int)
    requires c < |db.courses|
    ensures AllFresh(db, CourseTick(db, c, now, leadDays))
  {
    DueAmongExact(db, |db.trainees|, c, now, leadDays);
    CourseLinksFresh(db, DueList(db, c, now, leadDays), c, now);
  }

  lemma TickLinksFresh(db: Db, n: nat, es: seq<Enrolment>, now: Instant, leadDays: int)
    requires n <= |db.courses| && es == TickLinks(db, n, now, leadDays)
    ensures AllFresh(db, es)
  {
    forall k | 0 <= k < |es|
      ensures es[k].trainee < |db.trainees| && es[k].version < |db.versions| && es[k].status == Issued
    {
      var c := CourseOfLink(db, n, es[k], now, leadDays);
      CourseTickFresh(db, c, now, leadDays);
      var j :| 0 <= j < |CourseTick(db, c, now, leadDays)| && CourseTick(db, c, now, leadDays)[j] == es[k];
    }
  }

  lemma RemindChangesMarksOnly(db: Db, now: Instant)
    ensures MarksOnly(db, Reminders.RemindAll(db, now))
  {
  }

  /** Changing nothing but the sent marks changes nothing the invariants look at. */
  ghost predicate MarksOnly(db: Db, after: Db) {
    && after == db.(enrolments := after.enrolments) && |after.enrolments| == |db.enrolments|
    && forall e :: 0 <= e < |db.enrolments| ==>
         after.enrolments[e] == db.enrolments[e].(sent := after.enrolments[e].sent)
  }

  lemma MarksKeepSound(db: Db, after: Db)
    requires C.Sound(db) && MarksOnly(db, after)
    ensures C.Sound(after) && C.Keeps(db, after)
  {
    C.SoundCarries(db, after);
  }

  lemma RemindSound(db: Db, now: Instant)
    requires Inv(db, now)
    ensures Inv(Reminders.RemindAll(db, now), now) && C.Keeps(db, Reminders.RemindAll(db, now))
  {
    var after := Reminders.RemindAll(db, now);
    RemindChangesMarksOnly(db, now);
    MarksKeepSound(db, after);
    MarksKeepOpen(db, after, now);
  }

  lemma MarksKeepOpen(db: Db, after: Db, now: Instant)
    requires KeysResolve(db) && KeysResolve(after) && AtMostOneOpen(db, now) && NeverParked(db)
    requires C.Keeps(db, after) && MarksOnly(db, after)
    ensures AtMostOneOpen(after, now) && NeverParked(after)
  {
    OpenCarries(db, after, now);
  }

  // ---------- Steps that open nothing ----------

  ghost predicate OpensNothing(db: Db, after: Db, now: Instant) {
    && |after.enrolments| == |db.enrolments|
    && (forall e :: 0 <= e < |db.enrolments| && IsOpen(after.enrolments[e], now) ==> IsOpen(db.enrolments[e], now))
  }

  lemma OpenCarries(db: Db, after: Db, now: Instant)
    requires KeysResolve(db) && KeysResolve(after) && AtMostOneOpen(db, now)
    requires C.Keeps(db, after) && OpensNothing(db, after, now)
    ensures AtMostOneOpen(after, now)
  {
    forall i, j | 0 <= i < j < |after.enrolments| && IsOpen(after.enrolments[i], now)
      && IsOpen(after.enrolments[j], now)
      ensures !SamePair(after, after.enrolments[i], after.enrolments[j])
    {
      SameCourses(db, after, i);
      SameCourses(db, after, j);
      assert !SamePair(db, db.enrolments[i], db.enrolments[j]);
    }
  }

  lemma SameCourses(db: Db, after: Db, e: Id)
    requires KeysResolve(db) && KeysResolve(after) && C.Keeps(db, after) && e < |db.enrolments|
    ensures after.enrolments[e].trainee == db.enrolments[e].trainee
    ensures after.versions[after.enrolments[e].version].course == db.versions[db.enrolments[e].version].course
  {
    var v := db.enrolments[e].version;
    assert after.versions[v].(isActive := false) == db.versions[v].(isActive := false);
  }

  ghost predicate Issues(call: C.Step) {
    call.IssueLink?
  }

  lemma StartOpensNothing(db: Db, e: Id, now: Instant)
    requires C.Sound(db) && NeverParked(db) && e < |db.enrolments|
    ensures OpensNothing(db, C.Start(db, e, now).0, now) && NeverParked(C.Start(db, e, now).0)
  {
    if C.AttemptOf(db, e).None? { C.AddAttemptSound(db, e, now); }
  }

  lemma SubmitOpensNothing(db: Db, e: Id, answers: C.Answers, now: Instant)
    requires C.Sound(db) && NeverParked(db) && e < |db.enrolments|
    ensures var after := OrSame(db, C.Submit(db, e, answers, now));
            OpensNothing(db, after, now) && NeverParked(after)
  {
    StartOpensNothing(db, e, now);
  }

  lemma CallOpensNothing(db: Db, call: C.Step, now: DateTime)
    requires C.Sound(db) && NeverParked(db) && ValidTime(now) && !Issues(call)
    ensures OpensNothing(db, C.Next(db, call, now), Stamp(now)) && NeverParked(C.Next(db, call, now))
  {
    match call
    case StartExam(e) => if e < |db.enrolments| { StartOpensNothing(db, e, Stamp(now)); }
    case SubmitExam(e, answers) => if e < |db.enrolments| { SubmitOpensNothing(db, e, answers, Stamp(now)); }
    case _ =>
  }

  // ---------- One action ----------

  lemma TickStepKeeps(db: Db, now: DateTime, leadDays: int)
    requires ValidTime(now) && Inv(db, Stamp(now))
    ensures Inv(Do(db, Tick, now, leadDays), Stamp(now)) && C.Keeps(db, Do(db, Tick, now, leadDays))
  {
    var at := Stamp(now);
    var mid := TickResult(db, at, leadDays);
    var es := TickLinks(db, |db.courses|, at, leadDays);
    TickLinksFresh(db, |db.courses|, es, at, leadDays);
    AddSound(db, es);
    TickKeepsOneOpen(db, |db.courses|, at, leadDays);
    RemindSound(mid, at);
    C.KeepsTransitive(db, mid, Reminders.RemindAll(mid, at));
  }

  lemma FireStepKeeps(db: Db, course: Id, who: Audience, now: DateTime, leadDays: int)
    requires ValidTime(now) && Inv(db, Stamp(now))
    ensures var after := Do(db, Fire(course, who), now, leadDays); Inv(after, Stamp(now)) && C.Keeps(db, after)
  {
    var at := Stamp(now);
    var ts := FireList(db, course, who, at);
    FireAmongExact(db, |db.trainees|, course, who, at);
    CourseLinksFresh(db, ts, course, at);
    AddSound(db, CourseLinks(db, ts, course, at));
    FireKeepsOneOpen(db, course, who, at);
  }

  lemma BulkStepKeeps(db: Db, tids: seq<Id>, course: Id, now: DateTime, leadDays: int)
    requires ValidTime(now) && Inv(db, Stamp(now))
    ensures var after := Do(db, Bulk(tids, course), now, leadDays);
            && C.Sound(after) && NeverParked(after) && C.Keeps(db, after)
            && (AtMostOneOpen(after, Stamp(now)) <==> Careful(db, Bulk(tids, course), Stamp(now)))
  {
    var at := Stamp(now);
    var rows := Plan(db, tids, course, at);
    var ids := IssueIds(rows, |rows|);
    IssuedAreEligible(db, tids, course, at, rows, |rows|);
    CourseLinksFresh(db, ids, course, at);
    AddSound(db, CourseLinks(db, ids, course, at));
    BulkBreaksIff(db, tids, course, at, rows);
  }

  lemma CallStepKeeps(db: Db, call: C.Step, now: DateTime, leadDays: int)
    requires ValidTime(now) && Inv(db, Stamp(now))
    ensures var after := Do(db, Serve(call), now, leadDays);
            && C.Sound(after) && NeverParked(after) && C.Keeps(db, after)
            && (AtMostOneOpen(after, Stamp(now)) <==> Careful(db, Serve(call), Stamp(now)))
  {
    C.NextSound(db, call, now);
    if call.IssueLink? {
      ManualStepKeeps(db, call.trainee, call.course, now);
    } else {
      CallOpensNothing(db, call, now);
      OpenCarries(db, C.Next(db, call, now), Stamp(now));
    }
  }

  lemma ManualStepKeeps(db: Db, t: Id, course: Id, now: DateTime)
    requires ValidTime(now) && Inv(db, Stamp(now))
    ensures var after := C.Next(db, C.IssueLink(t, course), now);
            && NeverParked(after) && KeysResolve(after)
            && (AtMostOneOpen(after, Stamp(now)) <==> Careful(db, Serve(C.IssueLink(t, course)), Stamp(now)))
  {
    if t < |db.trainees| {
      ManualIssueBreaksIff(db, t, course, Stamp(now));
    }
  }

  /** One action at `now`, from a good state: certificates stay sound, nothing certified is lost, and at
      most one link per trainee and course stays open if and only if the action was a careful one. */
  lemma DoKeepsIff(db: Db, a: Action, now: DateTime, leadDays: int)
    requires ValidTime(now) && Inv(db, Stamp(now))
    ensures var after := Do(db, a, now, leadDays);
            && C.Sound(after) && NeverParked(after) && C.Keeps(db, after)
            && (AtMostOneOpen(after, Stamp(now)) <==> Careful(db, a, Stamp(now)))
  {
    match a
    case Tick => TickStepKeeps(db, now, leadDays);
    case Fire(course, who) => FireStepKeeps(db, course, who, now, leadDays);
    case Bulk(tids, course) => BulkStepKeeps(db, tids, course, now, leadDays);
    case Serve(call) => CallStepKeeps(db, call, now, leadDays);
  }

  // ---------- Runs ----------

  datatype Timed = Timed(action: Action, at: DateTime)

  /** The clock never runs backwards. */
  predicate WellTimed(start: Instant, run: seq<Timed>)
    decreases |run|
  {
    run == [] || (ValidTime(run[0].at) && start <= Stamp(run[0].at) && WellTimed(Stamp(run[0].at), run[1..]))
  }

  /** Ids on bulk forms are distinct and nobody uses the manual form. */
  ghost predicate Guarded(a: Action) {
    && (a.Bulk? ==> Distinct(a.tids))
    && (a.Serve? ==> !Issues(a.call))
  }

  lemma GuardedIsCareful(db: Db, a: Action, now: Instant)
    requires Guarded(a)
    ensures Careful(db, a, now)
  {
  }

  ghost function Outcome(start: Instant, db: Db, run: seq<Timed>, leadDays: int): Db
    requires WellTimed(start, run)
    decreases |run|
  {
    if run == [] || !KeysResolve(db) then db
    else Outcome(Stamp(run[0].at), Do(db, run[0].action, run[0].at, leadDays), run[1..], leadDays)
  }

  function Clock(start: Instant, run: seq<Timed>): Instant
    requires WellTimed(start, run)
    decreases |run|
  {
    if run == [] then start else Clock(Stamp(run[0].at), run[1..])
  }

  lemma GuardedStep(db: Db, earlier: Instant, step: Timed, after: Db, leadDays: int)
    requires ValidTime(step.at) && earlier <= Stamp(step.at) && Inv(db, earlier) && Guarded(step.action)
    requires after == Do(db, step.action, step.at, leadDays)
    ensures Inv(after, Stamp(step.at)) && C.Keeps(db, after)
  {
    TimeKeepsOneOpen(db, earlier, Stamp(step.at));
    DoKeepsIff(db, step.action, step.at, leadDays);
    GuardedIsCareful(db, step.action, Stamp(step.at));
  }

  /** Every run of guarded actions, however interleaved with exams and the passing of time, ends with at most
      one open link per trainee and course, every certificate warranted and none lost. */
  lemma {:induction false} GuardedRunsKeepOneOpen(start: Instant, db: Db, run: seq<Timed>, leadDays: int)
    requires WellTimed(start, run) && Inv(db, start) && forall i :: 0 <= i < |run| ==> Guarded(run[i].action)
    ensures var after := Outcome(start, db, run, leadDays); Inv(after, Clock(start, run)) && C.Keeps(db, after)
    decreases |run|
  {
    if run == [] {
    } else {
      var mid := Do(db, run[0].action, run[0].at, leadDays);
      GuardedStep(db, start, run[0], mid, leadDays);
      GuardedRunsKeepOneOpen(Stamp(run[0].at), mid, run[1..], leadDays);
      C.KeepsTransitive(db, mid, Outcome(Stamp(run[0].at), mid, run[1..], leadDays));
    }
  }

  /** The runs that matter start from a database in which nothing has been issued yet: every such database
      is a good state, so the theorem above covers everything reachable from it. */
  lemma ReachableStatesAreGood(start: Instant, db: Db, run: seq<Timed>, leadDays: int)
    requires WellTimed(start, run) && forall i :: 0 <= i < |run| ==> Guarded(run[i].action)
    requires db.enrolments == [] && db.attempts == [] && db.declarations == [] && db.certificates == []
    requires forall v :: 0 <= v < |db.versions| ==> db.versions[v].course < |db.courses|
    ensures Inv(Outcome(start, db, run, leadDays), Clock(start, run))
  {
    GuardedRunsKeepOneOpen(start, db, run, leadDays);
  }

  // ---------- Two ticks at one instant ----------

  lemma RemindKeepsOpen(db: Db, now: Instant)
    ensures SameOpen(db, Reminders.RemindAll(db, now), now)
  {
    var after := Reminders.RemindAll(db, now);
    RemindChangesMarksOnly(db, now);
    forall t: Id, c: Id ensures HasOpenEnrolment(db, t, c, now) <==> HasOpenEnrolment(after, t, c, now) {
      OpenSurvivesMarks(db, after, t, c, now);
      OpenSurvivesMarks(after, db, t, c, now);
    }
  }

  lemma OpenSurvivesMarks(a: Db, b: Db, t: Id, c: Id, now: Instant)
    requires a.versions == b.versions && |a.enrolments| == |b.enrolments|
    requires forall e :: 0 <= e < |a.enrolments| ==> b.enrolments[e] == a.enrolments[e].(sent := b.enrolments[e].sent)
    ensures HasOpenEnrolment(a, t, c, now) ==> HasOpenEnrolment(b, t, c, now)
  {
    if HasOpenEnrolment(a, t, c, now) {
      var i :| 0 <= i < |a.enrolments| && IsFor(a, a.enrolments[i], t, c) && IsOpen(a.enrolments[i], now);
      assert IsFor(b, b.enrolments[i], t, c) && IsOpen(b.enrolments[i], now);
    }
  }

  /** One whole tick: the issuing phase, then the reminder pass. */
  function WholeTick(db: Db, now: Instant, leadDays: int): Db {
    Reminders.RemindAll(TickResult(db, now, leadDays), now)
  }

  /** A second tick at the same instant, reminder passes included, issues nothing if and only if no active
      course with somebody due has links that are born expired. */
  lemma SecondTickSilentIff(db: Db, now: Instant, leadDays: int)
    ensures var once := WholeTick(db, now, leadDays);
            |WholeTick(once, now, leadDays).enrolments| == |once.enrolments| <==>
              forall c :: 0 <= c < |db.courses| ==> !BornExpired(db, c, now, leadDays)
  {
    var issued := TickResult(db, now, leadDays);
    var once := WholeTick(db, now, leadDays);
    RemindKeepsOpen(issued, now);
    SameOpenSameTick(issued, once, now, leadDays);
    SecondTickIssuesIff(db, now, leadDays);
    assert |WholeTick(once, now, leadDays).enrolments|
           == |once.enrolments| + |TickLinks(once, |once.courses|, now, leadDays)|;
  }

  // ---------- Reminders over whole runs ----------

  /** What an action is in the life of enrolment `i`. */
  function EventsOf(db: Db, a: Action, now: DateTime, i: Id): seq<Reminders.Event>
    requires KeysResolve(db) && ValidTime(now) && i < |db.enrolments|
  {
    var at := Stamp(now);
    match a
    case Tick => [Reminders.Pass(at, Reminders.Active(db, db.enrolments[i]))]
    case Serve(OpenTheLink(e)) => if e == i then [Reminders.Begin(at)] else []
    case Serve(StartExam(e)) => if e == i && C.AttemptOf(db, e).None? then [Reminders.Begin(at)] else []
    case Serve(SubmitExam(e, answers)) =>
      if e == i && C.Submit(db, e, answers, at).Ok? then [Reminders.Finish(at)] else []
    case _ => []
  }

  lemma OneEvent(e: Enrolment, ev: Reminders.Event)
    ensures Reminders.Life(e, [ev]) == Reminders.Happen(e, ev)
  {
    assert [ev][..0] == [];
    assert Reminders.Life(e, []) == e;
  }

  lemma TickIsEvent(db: Db, now: DateTime, leadDays: int, i: Id)
    requires ValidTime(now) && KeysResolve(db) && i < |db.enrolments|
    ensures i < |Do(db, Tick, now, leadDays).enrolments|
    ensures Do(db, Tick, now, leadDays).enrolments[i] ==
            Reminders.Reminded(db.enrolments[i], Reminders.Active(db, db.enrolments[i]), Stamp(now))
  {
    var mid := TickResult(db, Stamp(now), leadDays);
    assert mid.enrolments[i] == db.enrolments[i] && mid.trainees == db.trainees;
  }

  lemma StartIsEvent(db: Db, e: Id, now: Instant, i: Id)
    requires C.Sound(db) && NeverParked(db) && e < |db.enrolments| && i < |db.enrolments|
    ensures var after := C.Start(db, e, now).0;
            && |after.enrolments| == |db.enrolments|
            && after.enrolments[i] ==
               if e == i && C.AttemptOf(db, e).None? then Reminders.Happen(db.enrolments[i], Reminders.Begin(now))
               else db.enrolments[i]
  {
    if C.AttemptOf(db, e).None? { C.AddAttemptSound(db, e, now); }
  }

  lemma SubmitIsEvent(db: Db, e: Id, answers: C.Answers, now: Instant, i: Id)
    requires C.Sound(db) && e < |db.enrolments| && i < |db.enrolments|
    ensures var r := C.Submit(db, e, answers, now);
            r.Ok? ==> |r.value.enrolments| == |db.enrolments|
                      && r.value.enrolments[i] ==
                         if e == i then Reminders.Happen(db.enrolments[i], Reminders.Finish(now)) else db.enrolments[i]
  {
  }

  lemma CallIsEvent(db: Db, call: C.Step, now: DateTime, leadDays: int, i: Id)
    requires ValidTime(now) && C.Sound(db) && NeverParked(db) && i < |db.enrolments|
    ensures var after := Do(db, Serve(call), now, leadDays);
            && i < |after.enrolments|
            && after.enrolments[i] == Reminders.Life(db.enrolments[i], EventsOf(db, Serve(call), now, i))
  {
    match call
    case OpenTheLink(e) => OneEvent(db.enrolments[i], Reminders.Begin(Stamp(now)));
    case StartExam(e) =>
      OneEvent(db.enrolments[i], Reminders.Begin(Stamp(now)));
      if e < |db.enrolments| { StartIsEvent(db, e, Stamp(now), i); }
    case SubmitExam(e, answers) =>
      OneEvent(db.enrolments[i], Reminders.Finish(Stamp(now)));
      if e < |db.enrolments| { SubmitIsEvent(db, e, answers, Stamp(now), i); }
    case _ =>
  }

  /** Any action of the engine is, for each enrolment, the events listed for it and nothing else. */
  lemma DoIsEvents(db: Db, a: Action, now: DateTime, leadDays: int, i: Id)
    requires ValidTime(now) && Inv(db, Stamp(now)) && i < |db.enrolments|
    ensures var after := Do(db, a, now, leadDays);
            && i < |after.enrolments|
            && after.enrolments[i] == Reminders.Life(db.enrolments[i], EventsOf(db, a, now, i))
  {
    match a
    case Tick =>
      TickIsEvent(db, now, leadDays, i);
      OneEvent(db.enrolments[i], Reminders.Pass(Stamp(now), Reminders.Active(db, db.enrolments[i])));
    case Fire(course, who) =>
    case Bulk(tids, course) =>
    case Serve(call) => CallIsEvent(db, call, now, leadDays, i);
  }

  ghost function RunEvents(start: Instant, db: Db, run: seq<Timed>, leadDays: int, i: Id): seq<Reminders.Event>
    requires WellTimed(start, run)
    decreases |run|
  {
    if run == [] || !KeysResolve(db) || |db.enrolments| <= i then []
    else
      EventsOf(db, run[0].action, run[0].at, i)
      + RunEvents(Stamp(run[0].at), Do(db, run[0].action, run[0].at, leadDays), run[1..], leadDays, i)
  }

  lemma {:induction false} LifeGoesOn(e: Enrolment, xs: seq<Reminders.Event>, ys: seq<Reminders.Event>)
    ensures Reminders.Life(e, xs + ys) == Reminders.Life(Reminders.Life(e, xs), ys)
    decreases |ys|
  {
    if ys == [] {
      assert xs + ys == xs;
    } else {
      var init := ys[..|ys| - 1];
      assert (xs + ys)[..|xs + ys| - 1] == xs + init;
      LifeGoesOn(e, xs, init);
    }
  }

  /** Over every guarded run, what becomes of an enrolment is its life under the run's events: the reminder
      theorems hold of everything the engine does. */
  lemma {:induction false} RunIsLife(start: Instant, db: Db, run: seq<Timed>, leadDays: int, i: Id)
    requires WellTimed(start, run) && Inv(db, start) && forall k :: 0 <= k < |run| ==> Guarded(run[k].action)
    requires i < |db.enrolments|
    ensures var after := Outcome(start, db, run, leadDays);
            && i < |after.enrolments|
            && after.enrolments[i] == Reminders.Life(db.enrolments[i], RunEvents(start, db, run, leadDays, i))
    decreases |run|
  {
    if run != [] {
      var mid := Do(db, run[0].action, run[0].at, leadDays);
      var first := EventsOf(db, run[0].action, run[0].at, i);
      TimeKeepsOneOpen(db, start, Stamp(run[0].at));
      DoIsEvents(db, run[0].action, run[0].at, leadDays, i);
      GuardedStep(db, start, run[0], mid, leadDays);
      RunIsLife(Stamp(run[0].at), mid, run[1..], leadDays, i);
      LifeGoesOn(db.enrolments[i], first, RunEvents(Stamp(run[0].at), mid, run[1..], leadDays, i));
    } else {
      assert Reminders.Life(db.enrolments[i], []) == db.enrolments[i];
    }
  }

  /** From its issue on, an enrolment is sent each kind of reminder at most once in any guarded run, each on
      time, and its columns record exactly those. */
  lemma RunRemindsOnce(start: Instant, db: Db, run: seq<Timed>, leadDays: int, i: Id)
    requires WellTimed(start, run) && Inv(db, start) && forall k :: 0 <= k < |run| ==> Guarded(run[k].action)
    requires i < |db.enrolments| && db.enrolments[i].sent == Sent(None, None, None)
    ensures var e, after := db.enrolments[i], Outcome(start, db, run, leadDays);
            var log := Reminders.Outbox(e, RunEvents(start, db, run, leadDays, i));
            && i < |after.enrolments|
            && Reminders.NoRepeats(log)
            && (forall m :: m in log ==> Reminders.OnTime(e, m))
            && (forall kind :: Reminders.SentAt(after.enrolments[i], kind).Some? <==> Reminders.Contains(log, kind))
  {
    var evs := RunEvents(start, db, run, leadDays, i);
    RunIsLife(start, db, run, leadDays, i);
    Reminders.EachKindAtMostOnce(db.enrolments[i], evs);
    Reminders.RemindersAreOnTime(db.enrolments[i], evs);
    Reminders.ColumnsRecordOutbox(db.enrolments[i], evs);
  }
}
