/** The training desk: every path that issues links, and the reminder pass. */
module Scheduler {
  import opened Common
  import opened TrainingModel
  import opened Issuing
  import opened Reminders

  class TrainingDesk {
    var db: Db

    constructor (db: Db)
      ensures this.db == db
    {
      this.db := db;
    }

    method EnrolTrainee(t: Id, course: Id, now: Instant) returns (result: Result<Id, TrainingError>)
      modifies this
      ensures db == OrSame(old(db), Enrol(old(db), t, course, now))
      ensures result == if ActiveVersion(old(db), course).Some? then Ok(|old(db).enrolments|) else Err(NoActiveVersion)
    {
      var version := ActiveVersion(db, course);
      if version.None? {
        return Err(NoActiveVersion);
      }
      ActiveIsActive(db.versions, |db.versions|, course);
      var expiresAt := now + Days(db.versions[version.value].linkTtlDays);
      var enrolment := Enrolment(t, version.value, now, expiresAt, Issued, Sent(None, None, None));
      db := db.(enrolments := db.enrolments + [enrolment]);
      return Ok(|db.enrolments| - 1);
    }

    /** Active trainees matching any assignment of the course who are due for it. */
    method TraineesDueForCourse(c: Id, now: Instant, leadDays: int) returns (out: seq<Id>)
      requires c < |db.courses|
      ensures out == DueList(db, c, now, leadDays)
    {
      var assignments := db.courses[c].assignments;
      if assignments == [] {
        DueAmongExact(db, |db.trainees|, c, now, leadDays);
        Occupied(DueList(db, c, now, leadDays));
        return [];
      }
      out := [];
      var seen: set<Id> := {};
      var t := 0;
      while t < |db.trainees|
        invariant t <= |db.trainees|
        invariant out == DueAmong(db, t, c, now, leadDays)
        invariant forall s :: s in seen ==> s < t
      {
        if db.trainees[t].isActive {
          var k := 0;
          while k < |assignments|
            invariant k <= |assignments|
            invariant forall j :: 0 <= j < k ==> !Matches(assignments[j], db.trainees[t])
            invariant out == DueAmong(db, t, c, now, leadDays)
            invariant forall s :: s in seen ==> s < t
          {
            var a := assignments[k];
            if !Matches(a, db.trainees[t]) {
              k := k + 1;
              continue;
            }
            assert IsRequired(db, t, c);
            if t in seen {
              k := k + 1;
              continue;
            }
            if IsDueForRecert(db, t, c, now, leadDays) {
              out := out + [t];
              seen := seen + {t};
            }
            break;
          }
        }
        t := t + 1;
      }
    }

    /** One course of a tick: enrol its due trainees, undoing the course's uncommitted rows on an error. */
    method IssueCourse(c: Id, now: Instant, leadDays: int) returns (issued: seq<Id>)
      requires c < |db.courses|
      modifies this
      ensures var due := DueList(old(db), c, now, leadDays);
              && db == Add(old(db), CourseLinks(old(db), due, c, now))
              && issued == if ActiveVersion(old(db), c).Some? then due else []
    {
      var committed := db;
      var due := TraineesDueForCourse(c, now, leadDays);
      issued := [];
      var k := 0;
      assert Add(committed, CourseLinks(committed, due[..0], c, now)) == committed;
      while k < |due|
        invariant k <= |due|
        invariant db == Add(committed, CourseLinks(committed, due[..k], c, now))
        invariant issued == if ActiveVersion(committed, c).Some? then due[..k] else []
      {
        OneMoreLink(committed, due, k, k + 1, c, now);
        var result := EnrolTrainee(due[k], c, now);
        if result.Ok? {
          issued := issued + [due[k]];
        } else {
          db := committed;
        }
        k := k + 1;
      }
      assert due[..|due|] == due;
    }

    /** The recertification phase of a tick, course by course, each committed on its own. */
    method IssueDueLinks(now: Instant, leadDays: int) returns (issued: nat)
      modifies this
      ensures db == TickResult(old(db), now, leadDays)
      ensures issued == |TickLinks(old(db), |old(db).courses|, now, leadDays)|
    {
      var before := db;
      issued := 0;
      var c := 0;
      assert Add(before, []) == before;
      while c < |db.courses|
        invariant c <= |before.courses| && db.courses == before.courses
        invariant db == Add(before, TickLinks(before, c, now, leadDays))
        invariant issued == |TickLinks(before, c, now, leadDays)|
      {
        TickStep(before, c, now, leadDays);
        var mid := db;
        assert Add(mid, []) == mid;
        if db.courses[c].isActive {
          var enrolled := IssueCourse(c, now, leadDays);
          ActiveIsActive(mid.versions, |mid.versions|, c);
          assert |CourseTick(mid, c, now, leadDays)| == |enrolled|;
          issued := issued + |enrolled|;
        }
        c := c + 1;
      }
    }

    method Remind(e: Enrolment, active: bool, now: Instant, soFar: Counts) returns (marked: Enrolment, counts: Counts)
      ensures marked == Reminded(e, active, now) && counts == Counted(soFar, e, active, now)
    {
      marked, counts := e, soFar;
      if !IsOpen(e, now) {
        return;
      }
      var kind := Classify(e, now);
      if kind.None? {
        return;
      }
      if !active {
        counts := counts.(skipped := counts.skipped + 1);
        return;
      }
      marked := MarkSent(e, kind.value, now);
      match kind.value
      case ThreeDays => counts := counts.(threeDays := counts.threeDays + 1);
      case SevenDays => counts := counts.(sevenDays := counts.sevenDays + 1);
      case Final => counts := counts.(last := counts.last + 1);
    }

    /** The reminder phase: every live enrolment, one decision each, marked as sent. */
    method SendPendingReminders(now: Instant) returns (counts: Counts)
      modifies this
      ensures db == RemindAll(old(db), now)
      ensures counts == CountsAmong(old(db), now, |old(db).enrolments|)
    {
      var before := db;
      var enrolments := db.enrolments;
      counts := Counts(0, 0, 0, 0);
      var n := 0;
      while n < |enrolments|
        invariant n <= |enrolments| == |before.enrolments| && db == before
        invariant enrolments == RemindedAmong(before, now, n) + before.enrolments[n..]
        invariant counts == CountsAmong(before, now, n)
      {
        ReplaceNext(enrolments, RemindedAmong(before, now, n), before.enrolments,
                    Reminded(before.enrolments[n], Active(before, before.enrolments[n]), now));
        var e;
        e, counts := Remind(enrolments[n], Active(db, enrolments[n]), now, counts);
        enrolments := enrolments[n := e];
        n := n + 1;
      }
      db := db.(enrolments := enrolments);
    }

    /** A tick: links first, then reminders. */
    method RunOnce(now: Instant, leadDays: int) returns (issued: nat, reminders: Counts)
      modifies this
      ensures db == RemindAll(TickResult(old(db), now, leadDays), now)
      ensures |db.enrolments| == |old(db).enrolments| + issued
    {
      issued := IssueDueLinks(now, leadDays);
      reminders := SendPendingReminders(now);
    }

    /** The training-link responder: everyone in the audience without an open link. */
    method FireTrainingLink(course: Id, who: Audience, now: Instant) returns (result: Result<nat, TrainingError>)
      modifies this
      ensures var ts := FireList(old(db), course, who, now);
              && db == Add(old(db), CourseLinks(old(db), ts, course, now))
              && result == if ts != [] && ActiveVersion(old(db), course).None? then Err(NoActiveVersion) else Ok(|ts|)
    {
      var before := db;
      ghost var all := FireList(before, course, who, now);
      var issued := 0;
      var t := 0;
      assert Add(before, []) == before;
      while t < |db.trainees|
        invariant t <= |db.trainees| && db.trainees == before.trainees
        invariant db == Add(before, CourseLinks(before, FireAmong(before, t, course, who, now), course, now))
        invariant issued == |FireAmong(before, t, course, who, now)|
        invariant issued == 0 || ActiveVersion(before, course).Some?
      {
        FireStep(before, t, t + 1, course, who, now);
        if Candidate(db.trainees[t], who) {
          if !HasOpenEnrolment(db, t, course, now) {
            var enrolled := EnrolTrainee(t, course, now);
            if enrolled.Err? {
              FirePrefix(before, |before.trainees|, t, course, who, now);
              return Err(enrolled.error);
            }
            issued := issued + 1;
          }
        }
        t := t + 1;
      }
      return Ok(issued);
    }

    /** Classifies every requested trainee; writes nothing. */
    method PlanBulkIssue(tids: seq<Id>, course: Id, now: Instant) returns (rows: seq<BulkRow>)
      ensures rows == Plan(db, tids, course, now)
    {
      rows := [];
      if ActiveVersion(db, course).None? {
        for n := 0 to |tids|
          invariant rows == Plan(db, tids, course, now)[..n]
        {
          var found := if tids[n] < |db.trainees| then Some(tids[n]) else None;
          rows := rows + [BulkRow(found, SkipNoVersion)];
        }
        return;
      }
      var n := 0;
      while n < |tids|
        invariant n <= |tids| && rows == Plan(db, tids, course, now)[..n]
      {
        var tid := tids[n];
        n := n + 1;
        if |db.trainees| <= tid {
          rows := rows + [BulkRow(None, NotFound)];
          continue;
        }
        if HasOpenEnrolment(db, tid, course, now) {
          rows := rows + [BulkRow(Some(tid), SkipInFlight)];
          continue;
        }
        rows := rows + [BulkRow(Some(tid), IssueRow)];
      }
    }

    /** Issues a link for every row planned as such; a failing row is counted and passed over. */
    method ApplyBulkIssue(rows: seq<BulkRow>, course: Id, now: Instant) returns (counts: BulkCounts)
      modifies this
      ensures var ids := IssueIds(rows, |rows|);
              && db == Add(old(db), CourseLinks(old(db), ids, course, now))
              && counts.issued + counts.skipped + counts.errors == |rows|
              && (if ActiveVersion(old(db), course).Some? then counts.errors == 0 && counts.issued == |ids|
                  else counts.issued == 0 && counts.errors == |ids|)
    {
      var before := db;
      counts := BulkCounts(0, 0, 0);
      var n := 0;
      assert Add(before, []) == before;
      while n < |rows|
        invariant n <= |rows|
        invariant db == Add(before, CourseLinks(before, IssueIds(rows, n), course, now))
        invariant counts.issued + counts.skipped + counts.errors == n
        invariant if ActiveVersion(before, course).Some? then counts.errors == 0 && counts.issued == |IssueIds(rows, n)|
                  else counts.issued == 0 && counts.errors == |IssueIds(rows, n)|
      {
        var row := rows[n];
        ghost var ids := IssueIds(rows, n);
        n := n + 1;
        if row.action != IssueRow || row.trainee.None? {
          counts := counts.(skipped := counts.skipped + 1);
          continue;
        }
        OneMoreAtEnd(before, ids, row.trainee.value, course, now);
        var result := EnrolTrainee(row.trainee.value, course, now);
        if result.Ok? {
          counts := counts.(issued := counts.issued + 1);
        } else {
          counts := counts.(errors := counts.errors + 1);
        }
      }
    }
  }

  /** Enrolling one after another is the same as issuing the list at once. */
  lemma OneMoreLink(before: Db, ts: seq<Id>, k: nat, m: nat, course: Id, now: Instant)
    requires k < |ts| && m == k + 1
    ensures var mid := Add(before, CourseLinks(before, ts[..k], course, now));
            && ActiveVersion(mid, course) == ActiveVersion(before, course)
            && OrSame(mid, Enrol(mid, ts[k], course, now)) == Add(before, CourseLinks(before, ts[..m], course, now))
            && (ActiveVersion(before, course).None? ==> mid == before)
  {
    var mid := Add(before, CourseLinks(before, ts[..k], course, now));
    ActiveIsActive(before.versions, |before.versions|, course);
    assert ActiveVersion(mid, course) == ActiveVersion(before, course);
    if ActiveVersion(before, course).Some? {
      var v := ActiveVersion(before, course).value;
      NextLink(before, ts, k, v, now);
      AddAdd(before, Links(before, ts[..k], v, now), [NewEnrolment(before, ts[k], v, now)]);
    } else {
      assert before.enrolments + [] == before.enrolments;
    }
  }

  /** While a fire walks the trainees, what it has issued so far opens nothing for those still to come. */
  lemma FireSeesNoChange(before: Db, t: nat, course: Id, who: Audience, now: Instant)
    requires t < |before.trainees|
    ensures var mid := Add(before, CourseLinks(before, FireAmong(before, t, course, who, now), course, now));
            HasOpenEnrolment(mid, t, course, now) <==> HasOpenEnrolment(before, t, course, now)
  {
    var ts := FireAmong(before, t, course, who, now);
    FireAmongExact(before, t, course, who, now);
    OpenAfterAdd(before, CourseLinks(before, ts, course, now), t, course, now);
    forall e | e in CourseLinks(before, ts, course, now) ensures e.trainee != t {
      var k :| 0 <= k < |ts| && CourseLinks(before, ts, course, now)[k] == e;
      assert ts[k] in ts;
    }
  }

  lemma FireStep(before: Db, t: nat, m: nat, course: Id, who: Audience, now: Instant)
    requires t < |before.trainees| && m == t + 1
    ensures var ts := FireAmong(before, t, course, who, now);
            var mid := Add(before, CourseLinks(before, ts, course, now));
            && ActiveVersion(mid, course) == ActiveVersion(before, course)
            && (ActiveVersion(before, course).None? ==> mid == before)
            && (HasOpenEnrolment(mid, t, course, now) <==> HasOpenEnrolment(before, t, course, now))
            && if Candidate(before.trainees[t], who) && !HasOpenEnrolment(before, t, course, now)
               then FireAmong(before, m, course, who, now) == ts + [t]
                    && OrSame(mid, Enrol(mid, t, course, now))
                       == Add(before, CourseLinks(before, FireAmong(before, m, course, who, now), course, now))
               else FireAmong(before, m, course, who, now) == ts
  {
    var ts := FireAmong(before, t, course, who, now);
    FireSeesNoChange(before, t, course, who, now);
    OneMoreAtEnd(before, ts, t, course, now);
    FireNext(before, t, m, course, who, now);
  }

  lemma FireNext(before: Db, t: nat, m: nat, course: Id, who: Audience, now: Instant)
    requires t < |before.trainees| && m == t + 1
    ensures FireAmong(before, m, course, who, now) ==
            FireAmong(before, t, course, who, now)
            + if Candidate(before.trainees[t], who) && !HasOpenEnrolment(before, t, course, now) then [t] else []
  {
  }

  lemma OneMoreAtEnd(before: Db, ts: seq<Id>, t: Id, course: Id, now: Instant)
    ensures var mid := Add(before, CourseLinks(before, ts, course, now));
            && ActiveVersion(mid, course) == ActiveVersion(before, course)
            && OrSame(mid, Enrol(mid, t, course, now)) == Add(before, CourseLinks(before, ts + [t], course, now))
            && (ActiveVersion(before, course).None? ==> mid == before)
  {
    var all := ts + [t];
    OneMoreLink(before, all, |ts|, |ts| + 1, course, now);
    assert all[..|ts|] == ts && all[..|ts| + 1] == all;
  }

  lemma {:induction false} FirePrefix(db: Db, n: nat, t: nat, course: Id, who: Audience, now: Instant)
    requires t < n <= |db.trainees| && Candidate(db.trainees[t], who) && !HasOpenEnrolment(db, t, course, now)
    ensures FireAmong(db, n, course, who, now) != []
  {
    if t == n - 1 {
    } else {
      FirePrefix(db, n - 1, t, course, who, now);
    }
  }
}
