/** From an issued link to a certificate: starting, submitting, declaring, certifying. */
module Certification {
  import opened Common
  import opened Calendar
  import opened TrainingModel

  // ---------- Scoring ----------

  type Answers = map<string, seq<string>>

  function CorrectIds(q: Question): set<string> {
    set o | o in q.options && o.isCorrect :: o.id
  }

  function Selected(answers: Answers, q: Question): set<string> {
    if q.id in answers then SetOf(answers[q.id]) else {}
  }

  /** Right exactly when the selected options are the correct ones and there is a correct one. */
  function Mark(answers: Answers, q: Question): Answer {
    Answer(q.id, Selected(answers, q), Selected(answers, q) == CorrectIds(q) && CorrectIds(q) != {})
  }

  function Snapshot(answers: Answers, questions: seq<Question>, n: nat): (s: seq<Answer>)
    requires n <= |questions|
    ensures |s| == n
  {
    if n == 0 then [] else Snapshot(answers, questions, n - 1) + [Mark(answers, questions[n - 1])]
  }

  function CountCorrect(s: seq<Answer>): nat {
    if s == [] then 0 else CountCorrect(s[..|s| - 1]) + if s[|s| - 1].isCorrect then 1 else 0
  }

  function Grade(v: Version, answers: Answers, now: Instant): Graded
    requires v.questions != []
  {
    var snapshot := Snapshot(answers, v.questions, |v.questions|);
    var score := CountCorrect(snapshot) as real / |v.questions| as real;
    Graded(now, score, score >= v.passThreshold, snapshot)
  }

  lemma {:induction false} CountIsAtMost(s: seq<Answer>)
    ensures CountCorrect(s) <= |s|
    ensures CountCorrect(s) == |s| <==> forall k :: 0 <= k < |s| ==> s[k].isCorrect
  {
    if s == [] {
    } else {
      CountIsAtMost(s[..|s| - 1]);
    }
  }

  lemma AllRightIff(questions: seq<Question>, answers: Answers, n: nat)
    requires n == |questions|
    ensures var s := Snapshot(answers, questions, n);
            && CountCorrect(s) <= n
            && (CountCorrect(s) == n <==> forall k :: 0 <= k < n ==> Mark(answers, questions[k]).isCorrect)
  {
    SnapshotIsHonest(answers, questions, n);
    CountIsAtMost(Snapshot(answers, questions, n));
  }

  /** The score lies between 0 and 1, and is 1 exactly when every question has a correct option and exactly
      its correct options were selected: one question without any keeps everybody below full marks. */
  lemma FullMarksIff(v: Version, answers: Answers, now: Instant)
    requires v.questions != []
    ensures 0.0 <= Grade(v, answers, now).score <= 1.0
    ensures Grade(v, answers, now).score == 1.0 <==>
              forall k :: 0 <= k < |v.questions| ==> Mark(answers, v.questions[k]).isCorrect
    ensures forall k :: 0 <= k < |v.questions| ==>
              (Mark(answers, v.questions[k]).isCorrect <==>
                CorrectIds(v.questions[k]) != {} && Selected(answers, v.questions[k]) == CorrectIds(v.questions[k]))
  {
    AllRightIff(v.questions, answers, |v.questions|);
    RatioBounds(CountCorrect(Snapshot(answers, v.questions, |v.questions|)), |v.questions|);
  }

  lemma RatioBounds(c: nat, n: nat)
    requires c <= n && n > 0
    ensures 0.0 <= c as real / n as real <= 1.0
    ensures c as real / n as real == 1.0 <==> c == n
  {
    var q := c as real / n as real;
    assert q * n as real == c as real;
  }

  // ---------- Operations as functions of the tables ----------

  function AttemptAmong(attempts: seq<Attempt>, n: nat, enrolment: Id): Option<Id>
    requires n <= |attempts|
  {
    if n == 0 then None
    else
      var earlier := AttemptAmong(attempts, n - 1, enrolment);
      if earlier.Some? then earlier
      else if attempts[n - 1].enrolment == enrolment then Some(n - 1)
      else None
  }

  function AttemptOf(db: Db, enrolment: Id): Option<Id> {
    AttemptAmong(db.attempts, |db.attempts|, enrolment)
  }

  lemma {:induction false} AttemptFound(attempts: seq<Attempt>, n: nat, enrolment: Id)
    requires n <= |attempts|
    ensures var r := AttemptAmong(attempts, n, enrolment);
            if r.Some? then r.value < n && attempts[r.value].enrolment == enrolment
            else forall a :: 0 <= a < n ==> attempts[a].enrolment != enrolment
  {
    if n == 0 {
    } else {
      AttemptFound(attempts, n - 1, enrolment);
    }
  }

  function WithStatus(db: Db, e: Id, status: Status): Db
    requires e < |db.enrolments|
  {
    db.(enrolments := db.enrolments[e := db.enrolments[e].(status := status)])
  }

  /** The landing page's start button: only an issued link moves. */
  function OpenLink(db: Db, e: Id): Db
    requires e < |db.enrolments|
  {
    if db.enrolments[e].status == Issued then WithStatus(db, e, Started) else db
  }

  /** Starting is idempotent: the attempt of the enrolment, created on first use. */
  function Start(db: Db, e: Id, now: Instant): (r: (Db, Id))
    requires e < |db.enrolments|
    ensures r.1 < |r.0.attempts| && |r.0.enrolments| == |db.enrolments| && r.0.versions == db.versions
    ensures r.0.attempts[r.1].enrolment == e
    ensures forall i :: 0 <= i < |db.enrolments| ==> r.0.enrolments[i].version == db.enrolments[i].version
  {
    AttemptFound(db.attempts, |db.attempts|, e);
    match AttemptOf(db, e)
    case Some(a) => (db, a)
    case None => (WithStatus(db, e, Started).(attempts := db.attempts + [Attempt(e, now, None)]), |db.attempts|)
  }

  /** Submitting; an error leaves nothing behind because the request ends without a commit. */
  function Submit(db: Db, e: Id, answers: Answers, now: Instant): Result<Db, TrainingError>
    requires KeysResolve(db) && e < |db.enrolments|
  {
    var (started, a) := Start(db, e, now);
    var v := db.versions[db.enrolments[e].version];
    if started.attempts[a].graded.Some? then Err(AlreadySubmitted)
    else if v.questions == [] then Err(NoQuestions)
    else
      var graded := started.attempts[a].(graded := Some(Grade(v, answers, now)));
      Ok(WithStatus(started, e, Submitted).(attempts := started.attempts[a := graded]))
  }

  predicate IsDeclared(db: Db, a: Id) {
    exists d :: 0 <= d < |db.declarations| && db.declarations[d].attempt == a
  }

  /** Declaring; the certificate is issued in the same transaction when the attempt passed. The name arrives
      stripped of surrounding blanks, so a blank one is empty. */
  function Declare(db: Db, a: Id, typedName: string, now: DateTime): Result<Db, TrainingError>
    requires KeysResolve(db) && a < |db.attempts| && ValidTime(now)
  {
    var attempt := db.attempts[a];
    if attempt.graded.None? then Err(NotSubmitted)
    else if typedName == "" then Err(NameRequired)
    else if IsDeclared(db, a) then Err(AlreadyDeclared)
    else
      var signed := db.(declarations := db.declarations + [Declaration(a, typedName, Stamp(now))]);
      if !attempt.graded.value.passed then Ok(signed)
      else
        var e := db.enrolments[attempt.enrolment];
        var v := db.versions[e.version];
        match AddMonths(now.date, v.validityMonths)
        case None => Err(DateOutOfRange)
        case Some(until) =>
          AddsExactly(now.date, v.validityMonths);
          var cert := Certificate(e.trainee, v.course, e.version, a, |db.declarations|, Stamp(now),
                                  Stamp(DateTime(until, now.micros)), false);
          Ok(signed.(certificates := db.certificates + [cert]))
  }

  function MaxNumber(versions: seq<Version>, n: nat, course: Id): nat
    requires n <= |versions|
  {
    if n == 0 then 0
    else
      var m := MaxNumber(versions, n - 1, course);
      if versions[n - 1].course == course then Max(m, versions[n - 1].number) else m
  }

  /** Deactivates the course's versions and appends the next one; earlier content is untouched. */
  function Deactivated(versions: seq<Version>, n: nat, course: Id): (vs: seq<Version>)
    requires n <= |versions|
    ensures |vs| == n
    ensures forall v :: 0 <= v < n ==>
              vs[v] == if versions[v].course == course then versions[v].(isActive := false) else versions[v]
  {
    if n == 0 then []
    else
      var v := versions[n - 1];
      Deactivated(versions, n - 1, course) + [if v.course == course then v.(isActive := false) else v]
  }

  function AddVersion(db: Db, draft: Version): Db {
    var number := MaxNumber(db.versions, |db.versions|, draft.course) + 1;
    db.(versions := Deactivated(db.versions, |db.versions|, draft.course)
                    + [draft.(number := number, isActive := true)])
  }

  // ---------- The service ----------

  class TrainingService {
    var db: Db

    constructor (db: Db)
      requires KeysResolve(db)
      ensures this.db == db
    {
      this.db := db;
    }

    method StartAttempt(e: Id, now: Instant) returns (a: Id)
      requires KeysResolve(db) && e < |db.enrolments|
      modifies this
      ensures (db, a) == Start(old(db), e, now)
    {
      var existing := AttemptOf(db, e);
      if existing.Some? {
        return existing.value;
      }
      db := db.(enrolments := db.enrolments[e := db.enrolments[e].(status := Started)]);
      db := db.(attempts := db.attempts + [Attempt(e, now, None)]);
      return |db.attempts| - 1;
    }

    /** Scores the answers and freezes the snapshot. */
    method SubmitAttempt(e: Id, answers: Answers, now: Instant) returns (result: Result<Id, TrainingError>)
      requires KeysResolve(db) && e < |db.enrolments|
      modifies this
      ensures match Submit(old(db), e, answers, now)
              case Ok(after) => db == after && result == Ok(Start(old(db), e, now).1)
              case Err(error) => db == old(db) && result == Err(error)
    {
      var before := db;
      var a := StartAttempt(e, now);
      if db.attempts[a].graded.Some? {
        db := before;
        return Err(AlreadySubmitted);
      }
      var version := db.versions[db.enrolments[e].version];
      var questions := version.questions;
      if questions == [] {
        db := before;
        return Err(NoQuestions);
      }
      var correctCount, snapshot := Score(questions, answers);
      var score := correctCount as real / |questions| as real;
      var graded := Graded(now, score, score >= version.passThreshold, snapshot);
      db := db.(attempts := db.attempts[a := db.attempts[a].(graded := Some(graded))]);
      db := db.(enrolments := db.enrolments[e := db.enrolments[e].(status := Submitted)]);
      return Ok(a);
    }

    method RecordDeclaration(a: Id, typedName: string, now: DateTime) returns (result: Result<Id, TrainingError>)
      requires KeysResolve(db) && a < |db.attempts| && ValidTime(now)
      modifies this
      ensures match Declare(old(db), a, typedName, now)
              case Ok(after) => db == after && result == Ok(|old(db).declarations|)
              case Err(error) => db == old(db) && result == Err(error)
    {
      var before := db;
      if db.attempts[a].graded.None? {
        return Err(NotSubmitted);
      }
      if typedName == "" {
        return Err(NameRequired);
      }
      if exists d :: 0 <= d < |db.declarations| && db.declarations[d].attempt == a {
        return Err(AlreadyDeclared);
      }
      var decl := |db.declarations|;
      db := db.(declarations := db.declarations + [Declaration(a, typedName, Stamp(now))]);
      if db.attempts[a].graded.value.passed {
        var enrolment := db.enrolments[db.attempts[a].enrolment];
        var version := db.versions[enrolment.version];
        var until := AddMonths(now.date, version.validityMonths);
        if until.None? {
          db := before;
          return Err(DateOutOfRange);
        }
        AddsExactly(now.date, version.validityMonths);
        var cert := Certificate(enrolment.trainee, version.course, enrolment.version, a, decl, Stamp(now),
                                Stamp(DateTime(until.value, now.micros)), false);
        db := db.(certificates := db.certificates + [cert]);
      }
      return Ok(decl);
    }

    /** Saves the next version of a course; in-flight enrolments keep theirs. */
    method AddCourseVersion(draft: Version) returns (v: Id)
      requires KeysResolve(db) && draft.course < |db.courses|
      modifies this
      ensures db == AddVersion(old(db), draft)
      ensures ActiveVersion(db, draft.course) == Some(v)
    {
      var nextVersion := 1 + MaxNumber(db.versions, |db.versions|, draft.course);
      var versions := DeactivateAll(db.versions, draft.course);
      NewestIsActive(db.versions, draft);
      versions := versions + [draft.(number := nextVersion, isActive := true)];
      db := db.(versions := versions);
      return |versions| - 1;
    }

    method DeactivateAll(all: seq<Version>, course: Id) returns (versions: seq<Version>)
      ensures versions == Deactivated(all, |all|, course)
    {
      versions := all;
      var n := 0;
      while n < |versions|
        invariant 0 <= n <= |versions| == |all|
        invariant versions == Deactivated(all, n, course) + all[n..]
      {
        var v := versions[n];
        var next := if v.course == course then v.(isActive := false) else v;
        ReplaceNext(versions, Deactivated(all, n, course), all, next);
        versions := versions[n := next];
        n := n + 1;
        assert Deactivated(all, n, course) == Deactivated(all, n - 1, course) + [next];
      }
      assert all[n..] == [];
    }

    method MarkQuestion(q: Question, answers: Answers) returns (answer: Answer)
      ensures answer == Mark(answers, q)
    {
      var correctIds := set o | o in q.options && o.isCorrect :: o.id;
      var selected := if q.id in answers then SetOf(answers[q.id]) else {};
      answer := Answer(q.id, selected, selected == correctIds && |correctIds| > 0);
    }

    /** The scoring loop: one frozen answer per question, and how many of them are right. */
    method Score(questions: seq<Question>, answers: Answers) returns (correctCount: nat, snapshot: seq<Answer>)
      ensures snapshot == Snapshot(answers, questions, |questions|) && correctCount == CountCorrect(snapshot)
    {
      correctCount := 0;
      snapshot := [];
      var n := 0;
      while n < |questions|
        invariant 0 <= n <= |questions|
        invariant snapshot == Snapshot(answers, questions, n)
        invariant correctCount == CountCorrect(snapshot)
      {
        var answer := MarkQuestion(questions[n], answers);
        if answer.isCorrect {
          correctCount := correctCount + 1;
        }
        snapshot := snapshot + [answer];
        n := n + 1;
      }
    }
  }

  lemma {:induction false} NoneActive(versions: seq<Version>, more: seq<Version>, n: nat, course: Id)
    requires n <= |versions|
    ensures ActiveAmong(Deactivated(versions, |versions|, course) + more, n, course) == None
  {
    if n == 0 {
    } else {
      NoneActive(versions, more, n - 1, course);
    }
  }

  /** A freshly saved version is the one new enrolments are pinned to. */
  lemma NewestIsActive(versions: seq<Version>, draft: Version)
    ensures var number := MaxNumber(versions, |versions|, draft.course) + 1;
            var all := Deactivated(versions, |versions|, draft.course) + [draft.(number := number, isActive := true)];
            ActiveAmong(all, |all|, draft.course) == Some(|versions|)
  {
    var number := MaxNumber(versions, |versions|, draft.course) + 1;
    NoneActive(versions, [draft.(number := number, isActive := true)], |versions|, draft.course);
  }

  // ---------- What every reachable state satisfies ----------

  ghost predicate HasCertificate(db: Db, a: Id) {
    exists c :: 0 <= c < |db.certificates| && db.certificates[c].attempt == a
  }

  ghost predicate Passed(db: Db, a: Id)
    requires a < |db.attempts|
  {
    db.attempts[a].graded.Some? && db.attempts[a].graded.value.passed
  }

  /** At most one attempt per enrolment, one declaration and one certificate per attempt. */
  ghost predicate OneOfEach(db: Db) {
    && (forall i, j :: 0 <= i < j < |db.attempts| ==> db.attempts[i].enrolment != db.attempts[j].enrolment)
    && (forall i, j :: 0 <= i < j < |db.declarations| ==> db.declarations[i].attempt != db.declarations[j].attempt)
    && (forall i, j :: 0 <= i < j < |db.certificates| ==> db.certificates[i].attempt != db.certificates[j].attempt)
  }

  /** The frozen result of an attempt is the honest score of its snapshot against the pinned version. */
  ghost predicate GradedHonestly(v: Version, g: Graded) {
    && v.questions != [] && |g.snapshot| == |v.questions|
    && (forall n :: 0 <= n < |v.questions| ==>
          && g.snapshot[n].questionId == v.questions[n].id
          && (g.snapshot[n].isCorrect <==>
                g.snapshot[n].selected == CorrectIds(v.questions[n]) && CorrectIds(v.questions[n]) != {}))
    && g.score == CountCorrect(g.snapshot) as real / |v.questions| as real
    && (g.passed <==> g.score >= v.passThreshold)
  }

  ghost predicate Honest(db: Db)
    requires KeysResolve(db)
  {
    forall a :: 0 <= a < |db.attempts| && db.attempts[a].graded.Some? ==>
      GradedHonestly(db.versions[db.enrolments[db.attempts[a].enrolment].version], db.attempts[a].graded.value)
  }

  /** An enrolment is SUBMITTED exactly when its attempt has been graded. */
  ghost predicate StatusesAgree(db: Db)
    requires KeysResolve(db)
  {
    && (forall a :: 0 <= a < |db.attempts| && db.attempts[a].graded.Some? ==>
          db.enrolments[db.attempts[a].enrolment].status == Submitted)
    && (forall e :: 0 <= e < |db.enrolments| && db.enrolments[e].status == Submitted ==> IsGraded(db, e))
  }

  ghost predicate IsGraded(db: Db, e: Id) {
    exists a :: 0 <= a < |db.attempts| && db.attempts[a].enrolment == e && db.attempts[a].graded.Some?
  }

  /** A certificate exists exactly for the attempts that passed and were declared, and it names the
      right trainee, course, version and declaration. */
  ghost predicate CertifiedExactly(db: Db)
    requires KeysResolve(db)
  {
    && (forall d :: 0 <= d < |db.declarations| ==> db.attempts[db.declarations[d].attempt].graded.Some?)
    && (forall a :: 0 <= a < |db.attempts| && Passed(db, a) && IsDeclared(db, a) ==> HasCertificate(db, a))
    && (forall c :: 0 <= c < |db.certificates| ==> Warranted(db, db.certificates[c]))
  }

  /** `until` lies exactly `months` calendar months after `from`, at the same time of day. */
  ghost predicate Lasts(from: Instant, until: Instant, months: int) {
    exists t: DateTime ::
      && ValidTime(t) && from == Stamp(t) && AddMonths(t.date, months).Some?
      && var end := DateTime(AddMonths(t.date, months).value, t.micros);
      && ValidTime(end) && until == Stamp(end)
  }

  ghost predicate Warranted(db: Db, c: Certificate)
    requires KeysResolve(db)
  {
    && c.attempt < |db.attempts| && Passed(db, c.attempt)
    && c.declaration < |db.declarations| && db.declarations[c.declaration].attempt == c.attempt
    && c.validFrom == db.declarations[c.declaration].signedAt
    && var e := db.enrolments[db.attempts[c.attempt].enrolment];
    && c.trainee == e.trainee && c.version == e.version && c.course == db.versions[e.version].course
    && Lasts(c.validFrom, c.validUntil, db.versions[e.version].validityMonths)
  }

  ghost predicate Sound(db: Db) {
    KeysResolve(db) && OneOfEach(db) && Honest(db) && StatusesAgree(db) && CertifiedExactly(db)
  }

  // ---------- Steps and runs ----------

  datatype Step =
    | SaveVersion(draft: Version)
    | IssueLink(trainee: Id, course: Id)
    | OpenTheLink(e: Id)
    | StartExam(e: Id)
    | SubmitExam(e: Id, answers: Answers)
    | SignDeclaration(a: Id, typedName: string)

  /** One service call at `now`; a call that names a missing row or fails changes nothing. */
  function Next(db: Db, s: Step, now: DateTime): Db
    requires KeysResolve(db) && ValidTime(now)
  {
    match s
    case SaveVersion(draft) => if draft.course < |db.courses| then AddVersion(db, draft) else db
    case IssueLink(t, c) => if t < |db.trainees| then OrSame(db, Enrol(db, t, c, Stamp(now))) else db
    case OpenTheLink(e) => if e < |db.enrolments| then OpenLink(db, e) else db
    case StartExam(e) => if e < |db.enrolments| then Start(db, e, Stamp(now)).0 else db
    case SubmitExam(e, answers) =>
      if e < |db.enrolments| then OrSame(db, Submit(db, e, answers, Stamp(now))) else db
    case SignDeclaration(a, name) => if a < |db.attempts| then OrSame(db, Declare(db, a, name, now)) else db
  }

  lemma {:induction false} SnapshotIsHonest(answers: Answers, questions: seq<Question>, n: nat)
    requires n <= |questions|
    ensures forall k :: 0 <= k < n ==> Snapshot(answers, questions, n)[k] == Mark(answers, questions[k])
  {
    if n == 0 {
    } else {
      SnapshotIsHonest(answers, questions, n - 1);
    }
  }

  lemma GradeIsHonest(v: Version, answers: Answers, now: Instant)
    requires v.questions != []
    ensures GradedHonestly(v, Grade(v, answers, now))
  {
    SnapshotIsHonest(answers, v.questions, |v.questions|);
  }

  // What later steps can never undo: results, declarations, certificates, and the SUBMITTED status.

  ghost predicate KeepsEnrolments(db: Db, after: Db) {
    && |db.enrolments| <= |after.enrolments|
    && (forall e :: 0 <= e < |db.enrolments| ==>
          && after.enrolments[e].version == db.enrolments[e].version
          && after.enrolments[e].trainee == db.enrolments[e].trainee
          && (db.enrolments[e].status == Submitted ==> after.enrolments[e].status == Submitted))
  }

  ghost predicate KeepsAttempts(db: Db, after: Db) {
    && |db.attempts| <= |after.attempts|
    && (forall a :: 0 <= a < |db.attempts| ==>
          && after.attempts[a].enrolment == db.attempts[a].enrolment
          && (db.attempts[a].graded.Some? ==> after.attempts[a] == db.attempts[a]))
  }

  ghost predicate KeepsVersions(db: Db, after: Db) {
    && |db.versions| <= |after.versions|
    && (forall v :: 0 <= v < |db.versions| ==>
          after.versions[v].(isActive := false) == db.versions[v].(isActive := false))
  }

  ghost predicate Keeps(db: Db, after: Db) {
    && KeepsEnrolments(db, after) && KeepsAttempts(db, after) && KeepsVersions(db, after)
    && db.declarations <= after.declarations && db.certificates <= after.certificates
  }

  lemma KeepsTransitive(a: Db, b: Db, c: Db)
    requires Keeps(a, b) && Keeps(b, c)
    ensures Keeps(a, c)
  {
    KeepsVersionsTransitive(a, b, c);
  }

  lemma KeepsVersionsTransitive(a: Db, b: Db, c: Db)
    requires KeepsVersions(a, b) && KeepsVersions(b, c)
    ensures KeepsVersions(a, c)
  {
    forall v | 0 <= v < |a.versions| ensures c.versions[v].(isActive := false) == a.versions[v].(isActive := false) {
      assert b.versions[v].(isActive := false) == a.versions[v].(isActive := false);
    }
  }

  // ---------- Steps that grade and declare nothing ----------

  ghost predicate GradesNothing(db: Db, after: Db) {
    && (forall a :: 0 <= a < |after.attempts| && after.attempts[a].graded.Some? ==>
          a < |db.attempts| && db.attempts[a].graded.Some?)
    && (forall e :: 0 <= e < |after.enrolments| && after.enrolments[e].status == Submitted ==>
          e < |db.enrolments| && db.enrolments[e].status == Submitted)
    && after.declarations == db.declarations && after.certificates == db.certificates
  }

  lemma WarrantCarries(db: Db, after: Db, c: Certificate)
    requires KeysResolve(db) && KeysResolve(after) && Warranted(db, c) && Keeps(db, after)
    ensures Warranted(after, c)
  {
    var e := db.attempts[c.attempt].enrolment;
    var v := db.enrolments[e].version;
    assert after.attempts[c.attempt] == db.attempts[c.attempt];
    assert after.declarations[c.declaration] == db.declarations[c.declaration];
    assert after.enrolments[e].version == v;
    assert after.versions[v].(isActive := false) == db.versions[v].(isActive := false);
  }

  lemma CertificatesCarry(db: Db, after: Db)
    requires KeysResolve(db) && KeysResolve(after) && CertifiedExactly(db) && Keeps(db, after)
    requires after.declarations == db.declarations && after.certificates == db.certificates
    ensures CertifiedExactly(after)
  {
    forall c | 0 <= c < |after.certificates| ensures Warranted(after, after.certificates[c]) {
      WarrantCarries(db, after, db.certificates[c]);
    }
    forall a | 0 <= a < |after.attempts| && Passed(after, a) && IsDeclared(after, a) ensures HasCertificate(after, a) {
      var d :| 0 <= d < |db.declarations| && db.declarations[d].attempt == a;
      assert Passed(db, a) && IsDeclared(db, a) && HasCertificate(db, a);
    }
  }

  lemma HonestyCarries(db: Db, after: Db, a: Id)
    requires KeysResolve(db) && KeysResolve(after) && Honest(db) && Keeps(db, after)
    requires a < |db.attempts| && db.attempts[a].graded.Some?
    ensures GradedHonestly(after.versions[after.enrolments[after.attempts[a].enrolment].version],
                           after.attempts[a].graded.value)
  {
    var e := db.attempts[a].enrolment;
    var v := db.enrolments[e].version;
    assert after.attempts[a] == db.attempts[a] && after.enrolments[e].version == v;
    assert after.versions[v].(isActive := false) == db.versions[v].(isActive := false);
    assert GradedHonestly(db.versions[v], db.attempts[a].graded.value);
  }

  lemma GradedCarries(db: Db, after: Db, e: Id)
    requires IsGraded(db, e) && KeepsAttempts(db, after)
    ensures IsGraded(after, e)
  {
    var a :| 0 <= a < |db.attempts| && db.attempts[a].enrolment == e && db.attempts[a].graded.Some?;
    assert after.attempts[a] == db.attempts[a];
  }

  lemma StatusesCarry(db: Db, after: Db)
    requires KeysResolve(db) && KeysResolve(after) && StatusesAgree(db) && Keeps(db, after)
    requires GradesNothing(db, after)
    ensures StatusesAgree(after)
  {
    forall e | 0 <= e < |after.enrolments| && after.enrolments[e].status == Submitted ensures IsGraded(after, e) {
      GradedCarries(db, after, e);
    }
  }

  lemma SoundCarries(db: Db, after: Db)
    requires Sound(db) && KeysResolve(after) && OneOfEach(after) && Keeps(db, after) && GradesNothing(db, after)
    ensures Sound(after)
  {
    CertificatesCarry(db, after);
    StatusesCarry(db, after);
    forall a | 0 <= a < |after.attempts| && after.attempts[a].graded.Some?
      ensures GradedHonestly(after.versions[after.enrolments[after.attempts[a].enrolment].version],
                             after.attempts[a].graded.value)
    {
      HonestyCarries(db, after, a);
    }
  }

  lemma SaveVersionSound(db: Db, draft: Version)
    requires Sound(db) && draft.course < |db.courses|
    ensures Sound(AddVersion(db, draft)) && Keeps(db, AddVersion(db, draft))
  {
    SoundCarries(db, AddVersion(db, draft));
  }

  lemma IssueSound(db: Db, e: Enrolment)
    requires Sound(db) && e.trainee < |db.trainees| && e.version < |db.versions| && e.status != Submitted
    ensures var after := db.(enrolments := db.enrolments + [e]); Sound(after) && Keeps(db, after)
  {
    SoundCarries(db, db.(enrolments := db.enrolments + [e]));
  }

  lemma EnrolSound(db: Db, t: Id, c: Id, now: Instant)
    requires Sound(db) && t < |db.trainees|
    ensures var after := OrSame(db, Enrol(db, t, c, now)); Sound(after) && Keeps(db, after)
  {
    if Enrol(db, t, c, now).Ok? {
      IssueSound(db, NewEnrolment(db, t, ActiveVersion(db, c).value, now));
    }
  }

  lemma StatusSound(db: Db, e: Id, status: Status)
    requires Sound(db) && e < |db.enrolments| && db.enrolments[e].status != Submitted && status != Submitted
    ensures Sound(WithStatus(db, e, status)) && Keeps(db, WithStatus(db, e, status))
  {
    SoundCarries(db, WithStatus(db, e, status));
  }

  lemma AddAttemptSound(db: Db, e: Id, now: Instant)
    requires Sound(db) && e < |db.enrolments| && AttemptOf(db, e).None?
    ensures var after := db.(attempts := db.attempts + [Attempt(e, now, None)]); Sound(after) && Keeps(db, after)
    ensures db.enrolments[e].status != Submitted
  {
    AttemptFound(db.attempts, |db.attempts|, e);
    assert !IsGraded(db, e);
    SoundCarries(db, db.(attempts := db.attempts + [Attempt(e, now, None)]));
  }

  lemma StartSound(db: Db, e: Id, now: Instant)
    requires Sound(db) && e < |db.enrolments|
    ensures Sound(Start(db, e, now).0) && Keeps(db, Start(db, e, now).0)
  {
    if AttemptOf(db, e).None? {
      AddAttemptSound(db, e, now);
      var added := db.(attempts := db.attempts + [Attempt(e, now, None)]);
      StatusSound(added, e, Started);
      KeepsTransitive(db, added, WithStatus(added, e, Started));
      assert WithStatus(added, e, Started) == Start(db, e, now).0;
    }
  }

  // ---------- Grading ----------

  function GradeAttempt(db: Db, a: Id, g: Graded): Db
    requires a < |db.attempts| && db.attempts[a].enrolment < |db.enrolments|
  {
    WithStatus(db, db.attempts[a].enrolment, Submitted).
    (attempts := db.attempts[a := db.attempts[a].(graded := Some(g))])
  }

  lemma GradingKeeps(db: Db, a: Id, g: Graded)
    requires KeysResolve(db) && OneOfEach(db) && a < |db.attempts| && db.attempts[a].graded.None?
    ensures var after := GradeAttempt(db, a, g); Keeps(db, after) && KeysResolve(after) && OneOfEach(after)
  {
  }

  lemma GradingStatuses(db: Db, a: Id, g: Graded)
    requires KeysResolve(db) && StatusesAgree(db) && a < |db.attempts| && db.attempts[a].graded.None?
    requires var after := GradeAttempt(db, a, g); Keeps(db, after) && KeysResolve(after)
    ensures StatusesAgree(GradeAttempt(db, a, g))
  {
    var after := GradeAttempt(db, a, g);
    forall x | 0 <= x < |after.enrolments| && after.enrolments[x].status == Submitted ensures IsGraded(after, x) {
      if x == db.attempts[a].enrolment {
        assert after.attempts[a].enrolment == x && after.attempts[a].graded.Some?;
      } else {
        GradedCarries(db, after, x);
      }
    }
  }

  lemma GradingSound(db: Db, a: Id, g: Graded)
    requires Sound(db) && a < |db.attempts| && db.attempts[a].graded.None?
    requires GradedHonestly(db.versions[db.enrolments[db.attempts[a].enrolment].version], g)
    ensures Sound(GradeAttempt(db, a, g)) && Keeps(db, GradeAttempt(db, a, g))
  {
    var after := GradeAttempt(db, a, g);
    GradingKeeps(db, a, g);
    GradingStatuses(db, a, g);
    CertificatesCarry(db, after);
    forall x | 0 <= x < |after.attempts| && after.attempts[x].graded.Some?
      ensures GradedHonestly(after.versions[after.enrolments[after.attempts[x].enrolment].version],
                             after.attempts[x].graded.value)
    {
      if x != a { HonestyCarries(db, after, x); }
    }
  }

  lemma SubmitSound(db: Db, e: Id, answers: Answers, now: Instant)
    requires Sound(db) && e < |db.enrolments|
    ensures var after := OrSame(db, Submit(db, e, answers, now)); Sound(after) && Keeps(db, after)
  {
    var (started, a) := Start(db, e, now);
    var v := db.versions[db.enrolments[e].version];
    StartSound(db, e, now);
    if started.attempts[a].graded.None? && v.questions != [] {
      GradeIsHonest(v, answers, now);
      GradingSound(started, a, Grade(v, answers, now));
      KeepsTransitive(db, started, GradeAttempt(started, a, Grade(v, answers, now)));
    }
  }

  // ---------- Declaring ----------

  lemma NotYetCertified(db: Db, a: Id)
    requires KeysResolve(db) && CertifiedExactly(db) && a < |db.attempts| && !IsDeclared(db, a)
    ensures !HasCertificate(db, a)
  {
    forall c | 0 <= c < |db.certificates| ensures db.certificates[c].attempt != a {
      assert Warranted(db, db.certificates[c]);
    }
  }

  /** The declaration, and the certificate if there is one, leave every attempt and enrolment alone. */
  ghost predicate Declares(db: Db, after: Db, d: Declaration, certs: seq<Certificate>) {
    after == db.(declarations := db.declarations + [d], certificates := db.certificates + certs)
  }

  lemma DeclarationsStayUnique(db: Db, after: Db, d: Declaration, certs: seq<Certificate>)
    requires Sound(db) && d.attempt < |db.attempts| && !IsDeclared(db, d.attempt)
    requires Declares(db, after, d, certs)
    requires |certs| <= 1 && forall c :: c in certs ==> c.attempt == d.attempt
    ensures KeysResolve(after) && OneOfEach(after)
  {
    NotYetCertified(db, d.attempt);
    assert forall c :: 0 <= c < |db.certificates| ==> db.certificates[c].attempt != d.attempt;
    if certs != [] { assert certs[0] in certs; }
  }

  lemma DeclaredCertified(db: Db, after: Db, d: Declaration, certs: seq<Certificate>)
    requires Sound(db) && d.attempt < |db.attempts| && db.attempts[d.attempt].graded.Some?
    requires KeysResolve(after) && Declares(db, after, d, certs)
    requires if Passed(db, d.attempt) then |certs| == 1 && Warranted(after, certs[0]) && certs[0].attempt == d.attempt
             else certs == []
    ensures CertifiedExactly(after)
  {
    forall c | 0 <= c < |after.certificates| ensures Warranted(after, after.certificates[c]) {
      if c < |db.certificates| { WarrantCarries(db, after, db.certificates[c]); }
    }
    forall x | 0 <= x < |after.attempts| && Passed(after, x) && IsDeclared(after, x) ensures HasCertificate(after, x) {
      if x == d.attempt {
        assert after.certificates[|db.certificates|].attempt == x;
      } else {
        EarlierCertified(db, after, d, certs, x);
      }
    }
  }

  lemma EarlierCertified(db: Db, after: Db, d: Declaration, certs: seq<Certificate>, x: Id)
    requires KeysResolve(db) && CertifiedExactly(db) && Declares(db, after, d, certs)
    requires x < |db.attempts| && x != d.attempt && Passed(db, x) && IsDeclared(after, x)
    ensures HasCertificate(after, x)
  {
    var n :| 0 <= n < |after.declarations| && after.declarations[n].attempt == x;
    assert db.declarations[n].attempt == x;
    assert IsDeclared(db, x) && HasCertificate(db, x);
    var c :| 0 <= c < |db.certificates| && db.certificates[c].attempt == x;
    assert after.certificates[c] == db.certificates[c];
  }

  lemma DeclareSound(db: Db, a: Id, typedName: string, now: DateTime)
    requires Sound(db) && a < |db.attempts| && ValidTime(now)
    ensures var after := OrSame(db, Declare(db, a, typedName, now)); Sound(after) && Keeps(db, after)
  {
    var r := Declare(db, a, typedName, now);
    if r.Ok? {
      var after := r.value;
      var d := Declaration(a, typedName, Stamp(now));
      var certs := after.certificates[|db.certificates|..];
      assert Declares(db, after, d, certs);
      DeclarationsStayUnique(db, after, d, certs);
      DeclaredCertified(db, after, d, certs);
      DeclaredSound(db, after, d, certs);
    }
  }

  lemma DeclaredSound(db: Db, after: Db, d: Declaration, certs: seq<Certificate>)
    requires Sound(db) && Declares(db, after, d, certs) && KeysResolve(after)
    requires OneOfEach(after) && CertifiedExactly(after)
    ensures Sound(after) && Keeps(db, after)
  {
    forall e | 0 <= e < |after.enrolments| && after.enrolments[e].status == Submitted ensures IsGraded(after, e) {
      GradedCarries(db, after, e);
    }
    forall x | 0 <= x < |after.attempts| && after.attempts[x].graded.Some?
      ensures GradedHonestly(after.versions[after.enrolments[after.attempts[x].enrolment].version],
                             after.attempts[x].graded.value)
    {
      HonestyCarries(db, after, x);
    }
  }

  // ---------- Runs ----------

  lemma SaveVersionStep(db: Db, draft: Version, now: DateTime)
    requires Sound(db) && ValidTime(now)
    ensures var after := Next(db, SaveVersion(draft), now); Sound(after) && Keeps(db, after)
  {
    if draft.course < |db.courses| { SaveVersionSound(db, draft); }
  }

  lemma IssueLinkStep(db: Db, t: Id, c: Id, now: DateTime)
    requires Sound(db) && ValidTime(now)
    ensures var after := Next(db, IssueLink(t, c), now); Sound(after) && Keeps(db, after)
  {
    if t < |db.trainees| { EnrolSound(db, t, c, Stamp(now)); }
  }

  lemma OpenLinkStep(db: Db, e: Id, now: DateTime)
    requires Sound(db) && ValidTime(now)
    ensures var after := Next(db, OpenTheLink(e), now); Sound(after) && Keeps(db, after)
  {
    if e < |db.enrolments| && db.enrolments[e].status == Issued { StatusSound(db, e, Started); }
  }

  lemma StartExamStep(db: Db, e: Id, now: DateTime)
    requires Sound(db) && ValidTime(now)
    ensures var after := Next(db, StartExam(e), now); Sound(after) && Keeps(db, after)
  {
    if e < |db.enrolments| { StartSound(db, e, Stamp(now)); }
  }

  lemma SubmitExamStep(db: Db, e: Id, answers: Answers, now: DateTime)
    requires Sound(db) && ValidTime(now)
    ensures var after := Next(db, SubmitExam(e, answers), now); Sound(after) && Keeps(db, after)
  {
    if e < |db.enrolments| { SubmitSound(db, e, answers, Stamp(now)); }
  }

  lemma SignDeclarationStep(db: Db, a: Id, name: string, now: DateTime)
    requires Sound(db) && ValidTime(now)
    ensures var after := Next(db, SignDeclaration(a, name), now); Sound(after) && Keeps(db, after)
  {
    if a < |db.attempts| { DeclareSound(db, a, name, now); }
  }

  lemma NextSound(db: Db, s: Step, now: DateTime)
    requires Sound(db) && ValidTime(now)
    ensures Sound(Next(db, s, now)) && Keeps(db, Next(db, s, now))
  {
    match s
    case SaveVersion(draft) => SaveVersionStep(db, draft, now);
    case IssueLink(t, c) => IssueLinkStep(db, t, c, now);
    case OpenTheLink(e) => OpenLinkStep(db, e, now);
    case StartExam(e) => StartExamStep(db, e, now);
    case SubmitExam(e, answers) => SubmitExamStep(db, e, answers, now);
    case SignDeclaration(a, name) => SignDeclarationStep(db, a, name, now);
  }

  function Run(db: Db, steps: seq<(Step, DateTime)>): (after: Db)
    requires Sound(db) && forall i :: 0 <= i < |steps| ==> ValidTime(steps[i].1)
    decreases |steps|
  {
    if steps == [] then db
    else
      NextSound(db, steps[0].0, steps[0].1);
      Run(Next(db, steps[0].0, steps[0].1), steps[1..])
  }

  /** In every reachable state certificates exist exactly for passed and declared attempts, scores are
      honest, nothing is duplicated; and nothing once submitted, declared or certified ever changes. */
  lemma {:induction false} RunSound(db: Db, steps: seq<(Step, DateTime)>)
    requires Sound(db) && forall i :: 0 <= i < |steps| ==> ValidTime(steps[i].1)
    ensures Sound(Run(db, steps)) && Keeps(db, Run(db, steps))
    decreases |steps|
  {
    if steps == [] {
    } else {
      var mid := Next(db, steps[0].0, steps[0].1);
      NextSound(db, steps[0].0, steps[0].1);
      RunSound(mid, steps[1..]);
      KeepsTransitive(db, mid, Run(mid, steps[1..]));
    }
  }

  /** A certificate issued for `m` months is valid for between 28 and 31 days per month. */
  lemma CertificateLasts(db: Db, a: Id, typedName: string, now: DateTime)
    requires KeysResolve(db) && a < |db.attempts| && ValidTime(now)
    requires Declare(db, a, typedName, now).Ok? && db.attempts[a].graded.Some? && Passed(db, a)
    requires db.versions[db.enrolments[db.attempts[a].enrolment].version].validityMonths >= 0
    ensures var after := Declare(db, a, typedName, now).value;
            var m := db.versions[db.enrolments[db.attempts[a].enrolment].version].validityMonths;
            && |after.certificates| == |db.certificates| + 1
            && var cert := after.certificates[|db.certificates|];
            && cert.attempt == a && cert.validFrom == Stamp(now)
            && cert.validFrom + Days(28 * m) <= cert.validUntil <= cert.validFrom + Days(31 * m)
  {
    var m := db.versions[db.enrolments[db.attempts[a].enrolment].version].validityMonths;
    MovesBetween(now.date, m);
  }

  lemma LastsBetween(from: Instant, until: Instant, months: nat)
    requires Lasts(from, until, months)
    ensures from + Days(28 * months) <= until <= from + Days(31 * months)
  {
    var t: DateTime :| && ValidTime(t) && from == Stamp(t) && AddMonths(t.date, months).Some?
                       && var end := DateTime(AddMonths(t.date, months).value, t.micros);
                       && ValidTime(end) && until == Stamp(end);
    MovesBetween(t.date, months);
  }

  /** Every stored certificate, in every reachable state, lasts between 28 and 31 days per month of the
      validity its pinned version grants. */
  lemma StoredCertificatesLast(db: Db, c: Id)
    requires Sound(db) && c < |db.certificates|
    ensures var cert := db.certificates[c];
            && cert.version < |db.versions|
            && var m := db.versions[cert.version].validityMonths;
            && (m >= 0 ==> cert.validFrom + Days(28 * m) <= cert.validUntil <= cert.validFrom + Days(31 * m))
  {
    var cert := db.certificates[c];
    assert Warranted(db, cert);
    var m := db.versions[cert.version].validityMonths;
    if m >= 0 { LastsBetween(cert.validFrom, cert.validUntil, m); }
  }
}
