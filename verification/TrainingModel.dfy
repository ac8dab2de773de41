/** Tables of the training engine and the queries shared by its components.

    Tables are append-only sequences whose positions are the primary keys. Instants are UTC
    microseconds, counted so that 0001-01-01 is day 1; every operation receives the one `now` it works
    with. */
module TrainingModel {
  import opened Common
  import opened Calendar

  type Id = nat

  type Instant = int

  const DAY: int := 86_400_000_000

  /** The length of `n` days. */
  function Days(n: int): int {
    n * 86_400_000_000
  }

  datatype DateTime = DateTime(date: Date, micros: int)

  predicate ValidTime(t: DateTime) {
    Valid(t.date) && 0 <= t.micros < DAY
  }

  function Stamp(t: DateTime): Instant
    requires ValidTime(t)
  {
    Days(DayNumber(t.date)) + t.micros
  }

  datatype Status = Issued | Started | Submitted | Expired | Withdrawn

  datatype Trainee = Trainee(roleCode: string, lineId: Option<string>, isActive: bool)

  datatype Assignment = Assignment(roleCode: Option<string>, lineId: Option<string>)

  datatype Course = Course(isActive: bool, assignments: seq<Assignment>)

  datatype Choice = Choice(id: string, isCorrect: bool)

  datatype Question = Question(id: string, options: seq<Choice>)

  datatype Version = Version(course: Id, number: nat, isActive: bool, passThreshold: real, validityMonths: int,
                             linkTtlDays: int, questions: seq<Question>)

  datatype Sent = Sent(threeDays: Option<Instant>, sevenDays: Option<Instant>, last: Option<Instant>)

  datatype Enrolment = Enrolment(trainee: Id, version: Id, issuedAt: Instant, expiresAt: Instant, status: Status,
                                 sent: Sent)

  datatype Answer = Answer(questionId: string, selected: set<string>, isCorrect: bool)

  datatype Graded = Graded(submittedAt: Instant, score: real, passed: bool, snapshot: seq<Answer>)

  datatype Attempt = Attempt(enrolment: Id, startedAt: Instant, graded: Option<Graded>)

  datatype Declaration = Declaration(attempt: Id, typedName: string, signedAt: Instant)

  datatype Certificate = Certificate(trainee: Id, course: Id, version: Id, attempt: Id, declaration: Id,
                                     validFrom: Instant, validUntil: Instant, revoked: bool)

  datatype Db = Db(trainees: seq<Trainee>, courses: seq<Course>, versions: seq<Version>, enrolments: seq<Enrolment>,
                   attempts: seq<Attempt>, declarations: seq<Declaration>, certificates: seq<Certificate>)

  /** Foreign keys point at existing rows. */
  ghost predicate KeysResolve(db: Db) {
    && (forall v :: 0 <= v < |db.versions| ==> db.versions[v].course < |db.courses|)
    && (forall e :: 0 <= e < |db.enrolments| ==>
          db.enrolments[e].trainee < |db.trainees| && db.enrolments[e].version < |db.versions|)
    && (forall a :: 0 <= a < |db.attempts| ==> db.attempts[a].enrolment < |db.enrolments|)
    && (forall d :: 0 <= d < |db.declarations| ==> db.declarations[d].attempt < |db.attempts|)
  }

  datatype TrainingError = NoActiveVersion | AlreadySubmitted | NoQuestions | NotSubmitted | NameRequired
                         | AlreadyDeclared | DateOutOfRange

  // ---------- Versions ----------

  /** The greatest active version among the first `n`, by version number. */
  function ActiveAmong(versions: seq<Version>, n: nat, course: Id): Option<Id>
    requires n <= |versions|
  {
    if n == 0 then None
    else
      var best := ActiveAmong(versions, n - 1, course);
      var v := versions[n - 1];
      if v.course != course || !v.isActive then best
      else if best.Some? && best.value < n && v.number < versions[best.value].number then best
      else Some(n - 1)
  }

  function ActiveVersion(db: Db, course: Id): Option<Id> {
    ActiveAmong(db.versions, |db.versions|, course)
  }

  lemma {:induction false} ActiveIsActive(versions: seq<Version>, n: nat, course: Id)
    requires n <= |versions|
    ensures var r := ActiveAmong(versions, n, course);
            if r.Some?
            then r.value < n && versions[r.value].course == course && versions[r.value].isActive
                 && forall v :: 0 <= v < n && versions[v].course == course && versions[v].isActive ==>
                      versions[v].number <= versions[r.value].number
            else forall v :: 0 <= v < n && versions[v].course == course ==> !versions[v].isActive
  {
    if n == 0 {
    } else {
      ActiveIsActive(versions, n - 1, course);
    }
  }

  // ---------- Enrolments ----------

  predicate IsOpen(e: Enrolment, now: Instant) {
    (e.status == Issued || e.status == Started) && now < e.expiresAt
  }

  predicate IsFor(db: Db, e: Enrolment, trainee: Id, course: Id) {
    e.trainee == trainee && e.version < |db.versions| && db.versions[e.version].course == course
  }

  predicate HasOpenEnrolment(db: Db, trainee: Id, course: Id, now: Instant) {
    exists i :: 0 <= i < |db.enrolments| && IsFor(db, db.enrolments[i], trainee, course)
                && IsOpen(db.enrolments[i], now)
  }

  function NewEnrolment(db: Db, trainee: Id, version: Id, now: Instant): Enrolment
    requires version < |db.versions|
  {
    Enrolment(trainee, version, now, now + Days(db.versions[version].linkTtlDays), Issued, Sent(None, None, None))
  }

  /** Issues an enrolment pinned to the active version of the course. */
  function Enrol(db: Db, trainee: Id, course: Id, now: Instant): Result<Db, TrainingError> {
    match ActiveVersion(db, course)
    case None => Err(NoActiveVersion)
    case Some(v) =>
      if v < |db.versions| then Ok(db.(enrolments := db.enrolments + [NewEnrolment(db, trainee, v, now)]))
      else Err(NoActiveVersion)
  }

  function OrSame(db: Db, r: Result<Db, TrainingError>): Db {
    if r.Ok? then r.value else db
  }

  // ---------- Assignments and certificates ----------

  /** A missing role or line on the assignment matches everyone. */
  predicate Matches(a: Assignment, t: Trainee) {
    && (a.roleCode.Some? ==> a.roleCode.value == t.roleCode)
    && (a.lineId.Some? ==> a.lineId == t.lineId)
  }

  predicate IsRequired(db: Db, trainee: Id, course: Id) {
    && trainee < |db.trainees| && course < |db.courses|
    && var assignments := db.courses[course].assignments;
       exists k :: 0 <= k < |assignments| && Matches(assignments[k], db.trainees[trainee])
  }

  predicate CertifiesFor(cert: Certificate, trainee: Id, course: Id) {
    cert.trainee == trainee && cert.course == course && !cert.revoked
  }

  /** `r` is a possible answer of the query for the latest unrevoked certificate; ties are the
      database's to break. */
  ghost predicate IsLatest(certs: seq<Certificate>, trainee: Id, course: Id, r: Option<Certificate>) {
    match r
    case None => forall cert :: cert in certs ==> !CertifiesFor(cert, trainee, course)
    case Some(best) =>
      && best in certs && CertifiesFor(best, trainee, course)
      && forall cert :: cert in certs && CertifiesFor(cert, trainee, course) ==> cert.validUntil <= best.validUntil
  }

  /** The end of the latest unrevoked certificate among the first `n`. */
  function LatestAmong(certs: seq<Certificate>, n: nat, trainee: Id, course: Id): Option<Instant>
    requires n <= |certs|
  {
    if n == 0 then None
    else
      var best := LatestAmong(certs, n - 1, trainee, course);
      var cert := certs[n - 1];
      if !CertifiesFor(cert, trainee, course) then best
      else if best.Some? && cert.validUntil < best.value then best
      else Some(cert.validUntil)
  }

  function ValidUntil(db: Db, trainee: Id, course: Id): Option<Instant> {
    LatestAmong(db.certificates, |db.certificates|, trainee, course)
  }

  lemma {:induction false} LatestBounds(certs: seq<Certificate>, n: nat, trainee: Id, course: Id)
    requires n <= |certs|
    ensures var r := LatestAmong(certs, n, trainee, course);
            if r.Some?
            then (exists k :: 0 <= k < n && CertifiesFor(certs[k], trainee, course) && certs[k].validUntil == r.value)
                 && forall k :: 0 <= k < n && CertifiesFor(certs[k], trainee, course) ==> certs[k].validUntil <= r.value
            else forall k :: 0 <= k < n ==> !CertifiesFor(certs[k], trainee, course)
  {
    if n == 0 {
    } else {
      LatestBounds(certs, n - 1, trainee, course);
    }
  }

  /** Whichever certificate the database returns, it ends when the latest one does: ties are harmless. */
  lemma TiesAreHarmless(db: Db, trainee: Id, course: Id, r: Option<Certificate>)
    requires IsLatest(db.certificates, trainee, course, r)
    ensures ValidUntil(db, trainee, course) == if r.Some? then Some(r.value.validUntil) else None
  {
    var certs := db.certificates;
    LatestBounds(certs, |certs|, trainee, course);
    if r.Some? {
      var k :| 0 <= k < |certs| && certs[k] == r.value;
      assert CertifiesFor(certs[k], trainee, course);
    } else {
      assert forall k :: 0 <= k < |certs| ==> certs[k] in certs;
    }
  }

  /** Due for recertification: nothing open, and no certificate reaching beyond the lead window. */
  predicate IsDueForRecert(db: Db, trainee: Id, course: Id, now: Instant, leadDays: int) {
    && !HasOpenEnrolment(db, trainee, course, now)
    && var until := ValidUntil(db, trainee, course);
       until.None? || until.value - Days(leadDays) <= now
  }
}
