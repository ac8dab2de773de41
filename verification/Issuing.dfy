/** Issuing training links: who is due, what the scheduler, the triggers and the bulk form issue, and
    when a trainee can end up with two open links for one course. */
module Issuing {
  import opened Common
  import opened TrainingModel

  // ---------- Links ----------

  /** One fresh enrolment per listed trainee, all pinned to version `v`. */
  function Links(db: Db, ts: seq<Id>, v: Id, now: Instant): (es: seq<Enrolment>)
    requires v < |db.versions|
    ensures |es| == |ts|
    ensures forall k :: 0 <= k < |ts| ==> es[k] == NewEnrolment(db, ts[k], v, now)
  {
    seq(|ts|, k requires 0 <= k < |ts| => NewEnrolment(db, ts[k], v, now))
  }

  function Add(db: Db, es: seq<Enrolment>): Db {
    db.(enrolments := db.enrolments + es)
  }

  /** The links issued to `ts` for a course; none when it has no active version. */
  function CourseLinks(db: Db, ts: seq<Id>, course: Id, now: Instant): seq<Enrolment> {
    match ActiveVersion(db, course)
    case None => []
    case Some(v) => if v < |db.versions| then Links(db, ts, v, now) else []
  }

  lemma AddAdd(db: Db, xs: seq<Enrolment>, ys: seq<Enrolment>)
    ensures Add(Add(db, xs), ys) == Add(db, xs + ys)
  {
    assert (db.enrolments + xs) + ys == db.enrolments + (xs + ys);
  }

  lemma NextLink(db: Db, ts: seq<Id>, k: nat, v: Id, now: Instant)
    requires k < |ts| && v < |db.versions|
    ensures Links(db, ts[..k], v, now) + [NewEnrolment(db, ts[k], v, now)] == Links(db, ts[..k + 1], v, now)
  {
  }

  // ---------- Who is due ----------

  predicate IsDue(db: Db, t: Id, course: Id, now: Instant, leadDays: int)
    requires t < |db.trainees| && course < |db.courses|
  {
    db.trainees[t].isActive && IsRequired(db, t, course) && IsDueForRecert(db, t, course, now, leadDays)
  }

  function DueAmong(db: Db, n: nat, course: Id, now: Instant, leadDays: int): seq<Id>
    requires n <= |db.trainees| && course < |db.courses|
  {
    if n == 0 then []
    else DueAmong(db, n - 1, course, now, leadDays) + if IsDue(db, n - 1, course, now, leadDays) then [n - 1] else []
  }

  function DueList(db: Db, course: Id, now: Instant, leadDays: int): seq<Id>
    requires course < |db.courses|
  {
    DueAmong(db, |db.trainees|, course, now, leadDays)
  }

  ghost predicate Distinct(ts: seq<Id>) {
    forall i, j :: 0 <= i < j < |ts| ==> ts[i] != ts[j]
  }

  /** The due list names exactly the due trainees, each once. */
  lemma {:induction false} DueAmongExact(db: Db, n: nat, course: Id, now: Instant, leadDays: int)
    requires n <= |db.trainees| && course < |db.courses|
    ensures var ts := DueAmong(db, n, course, now, leadDays);
            Distinct(ts) && forall t: Id :: t in ts <==> t < n && IsDue(db, t, course, now, leadDays)
  {
    if n == 0 {
    } else {
      DueAmongExact(db, n - 1, course, now, leadDays);
    }
  }

  lemma {:induction false} SameDueList(a: Db, b: Db, n: nat, course: Id, now: Instant, leadDays: int)
    requires a.trainees == b.trainees && a.courses == b.courses
    requires n <= |a.trainees| && course < |a.courses|
    requires forall t: Id :: t < n ==> (IsDue(a, t, course, now, leadDays) <==> IsDue(b, t, course, now, leadDays))
    ensures DueAmong(a, n, course, now, leadDays) == DueAmong(b, n, course, now, leadDays)
  {
    if n == 0 {
    } else {
      SameDueList(a, b, n - 1, course, now, leadDays);
    }
  }

  // ---------- Open enrolments after issuing ----------

  /** No trainee holds two open enrolments for one course. */
  ghost predicate AtMostOneOpen(db: Db, now: Instant)
    requires KeysResolve(db)
  {
    forall i, j :: 0 <= i < j < |db.enrolments| && IsOpen(db.enrolments[i], now) && IsOpen(db.enrolments[j], now) ==>
      !SamePair(db, db.enrolments[i], db.enrolments[j])
  }

  predicate SamePair(db: Db, d: Enrolment, e: Enrolment)
    requires d.version < |db.versions| && e.version < |db.versions|
  {
    d.trainee == e.trainee && db.versions[d.version].course == db.versions[e.version].course
  }

  lemma OpenAfterAdd(db: Db, more: seq<Enrolment>, t: Id, course: Id, now: Instant)
    ensures HasOpenEnrolment(Add(db, more), t, course, now) <==>
              HasOpenEnrolment(db, t, course, now)
              || exists e :: e in more && IsFor(db, e, t, course) && IsOpen(e, now)
  {
    var after := Add(db, more);
    if HasOpenEnrolment(after, t, course, now) {
      var i :| 0 <= i < |after.enrolments| && IsFor(after, after.enrolments[i], t, course)
               && IsOpen(after.enrolments[i], now);
      if i < |db.enrolments| {
        assert IsFor(db, db.enrolments[i], t, course);
      } else {
        assert after.enrolments[i] in more && IsFor(db, after.enrolments[i], t, course);
      }
    }
    if HasOpenEnrolment(db, t, course, now) {
      var i :| 0 <= i < |db.enrolments| && IsFor(db, db.enrolments[i], t, course) && IsOpen(db.enrolments[i], now);
      assert after.enrolments[i] == db.enrolments[i] && IsFor(after, after.enrolments[i], t, course);
    }
    if e :| e in more && IsFor(db, e, t, course) && IsOpen(e, now) {
      var k :| 0 <= k < |more| && more[k] == e;
      assert after.enrolments[|db.enrolments| + k] == e && IsFor(after, e, t, course);
    }
  }

  /** A fresh link is open at once exactly when its version's time to live is positive. */
  lemma FreshIsOpen(db: Db, t: Id, v: Id, now: Instant)
    requires v < |db.versions|
    ensures IsOpen(NewEnrolment(db, t, v, now), now) <==> db.versions[v].linkTtlDays > 0
  {
  }

  lemma KeysAfterLinks(db: Db, ts: seq<Id>, v: Id, now: Instant)
    requires KeysResolve(db) && v < |db.versions| && forall t :: t in ts ==> t < |db.trainees|
    ensures KeysResolve(Add(db, Links(db, ts, v, now)))
  {
    forall k | 0 <= k < |ts| ensures Links(db, ts, v, now)[k].trainee < |db.trainees| { assert ts[k] in ts; }
  }

  ghost predicate NoneOpen(db: Db, ts: seq<Id>, course: Id, now: Instant) {
    forall k :: 0 <= k < |ts| ==> !HasOpenEnrolment(db, ts[k], course, now)
  }

  /** Issuing links keeps at most one open per trainee and course if and only if the links are born
      expired, or nobody on the list is named twice or has an open one already. */
  lemma LinksKeepIff(db: Db, ts: seq<Id>, v: Id, now: Instant)
    requires KeysResolve(db) && AtMostOneOpen(db, now) && v < |db.versions|
    requires forall t :: t in ts ==> t < |db.trainees|
    ensures KeysResolve(Add(db, Links(db, ts, v, now)))
    ensures AtMostOneOpen(Add(db, Links(db, ts, v, now)), now) <==>
              db.versions[v].linkTtlDays <= 0
              || (Distinct(ts) && NoneOpen(db, ts, db.versions[v].course, now))
  {
    KeysAfterLinks(db, ts, v, now);
    if db.versions[v].linkTtlDays <= 0 {
      ExpiredLinksKeep(db, ts, v, now);
    } else {
      if Distinct(ts) && NoneOpen(db, ts, db.versions[v].course, now) {
        LinksKeep(db, ts, v, now);
      }
      if AtMostOneOpen(Add(db, Links(db, ts, v, now)), now) {
        KeptMeansDistinct(db, ts, v, now);
      }
    }
  }

  lemma ExpiredLinksKeep(db: Db, ts: seq<Id>, v: Id, now: Instant)
    requires KeysResolve(db) && AtMostOneOpen(db, now) && v < |db.versions| && db.versions[v].linkTtlDays <= 0
    requires KeysResolve(Add(db, Links(db, ts, v, now)))
    ensures AtMostOneOpen(Add(db, Links(db, ts, v, now)), now)
  {
    var after := Add(db, Links(db, ts, v, now));
    forall i | |db.enrolments| <= i < |after.enrolments| ensures !IsOpen(after.enrolments[i], now) {
      FreshIsOpen(db, ts[i - |db.enrolments|], v, now);
    }
    forall i, j | 0 <= i < j < |after.enrolments| && IsOpen(after.enrolments[i], now)
      && IsOpen(after.enrolments[j], now)
      ensures !SamePair(after, after.enrolments[i], after.enrolments[j])
    {
      assert after.enrolments[i] == db.enrolments[i] && after.enrolments[j] == db.enrolments[j];
    }
  }

  lemma LinksKeep(db: Db, ts: seq<Id>, v: Id, now: Instant)
    requires KeysResolve(db) && AtMostOneOpen(db, now) && v < |db.versions|
    requires Distinct(ts) && NoneOpen(db, ts, db.versions[v].course, now)
    requires KeysResolve(Add(db, Links(db, ts, v, now)))
    ensures AtMostOneOpen(Add(db, Links(db, ts, v, now)), now)
  {
    var after := Add(db, Links(db, ts, v, now));
    var n := |db.enrolments|;
    forall i, j | 0 <= i < j < |after.enrolments| && IsOpen(after.enrolments[i], now)
      && IsOpen(after.enrolments[j], now)
      ensures !SamePair(after, after.enrolments[i], after.enrolments[j])
    {
      if j < n {
        assert after.enrolments[i] == db.enrolments[i] && after.enrolments[j] == db.enrolments[j];
      } else {
        assert after.enrolments[j] == NewEnrolment(db, ts[j - n], v, now);
        if i < n {
          assert after.enrolments[i] == db.enrolments[i];
          assert !HasOpenEnrolment(db, ts[j - n], db.versions[v].course, now);
          assert !IsFor(db, db.enrolments[i], ts[j - n], db.versions[v].course);
        } else {
          assert after.enrolments[i] == NewEnrolment(db, ts[i - n], v, now);
          assert ts[i - n] != ts[j - n];
        }
      }
    }
  }

  lemma LinkAt(db: Db, ts: seq<Id>, v: Id, now: Instant, k: nat)
    requires v < |db.versions| && k < |ts| && db.versions[v].linkTtlDays > 0
    ensures Add(db, Links(db, ts, v, now)).enrolments[|db.enrolments| + k] == NewEnrolment(db, ts[k], v, now)
    ensures IsOpen(NewEnrolment(db, ts[k], v, now), now)
  {
    FreshIsOpen(db, ts[k], v, now);
  }

  lemma KeptMeansDistinct(db: Db, ts: seq<Id>, v: Id, now: Instant)
    requires KeysResolve(db) && v < |db.versions| && db.versions[v].linkTtlDays > 0
    requires KeysResolve(Add(db, Links(db, ts, v, now))) && AtMostOneOpen(Add(db, Links(db, ts, v, now)), now)
    ensures Distinct(ts) && NoneOpen(db, ts, db.versions[v].course, now)
  {
    forall i, j | 0 <= i < j < |ts| ensures ts[i] != ts[j] { KeptTwoLinks(db, ts, v, now, i, j); }
    forall k | 0 <= k < |ts| ensures !HasOpenEnrolment(db, ts[k], db.versions[v].course, now) {
      KeptNoneOpen(db, ts, v, now, k);
    }
  }

  lemma KeptTwoLinks(db: Db, ts: seq<Id>, v: Id, now: Instant, i: nat, j: nat)
    requires KeysResolve(db) && v < |db.versions| && db.versions[v].linkTtlDays > 0 && i < j < |ts|
    requires KeysResolve(Add(db, Links(db, ts, v, now))) && AtMostOneOpen(Add(db, Links(db, ts, v, now)), now)
    ensures ts[i] != ts[j]
  {
    var after := Add(db, Links(db, ts, v, now));
    var n := |db.enrolments|;
    LinkAt(db, ts, v, now, i);
    LinkAt(db, ts, v, now, j);
    assert !SamePair(after, after.enrolments[n + i], after.enrolments[n + j]);
  }

  lemma KeptNoneOpen(db: Db, ts: seq<Id>, v: Id, now: Instant, k: nat)
    requires KeysResolve(db) && v < |db.versions| && db.versions[v].linkTtlDays > 0 && k < |ts|
    requires KeysResolve(Add(db, Links(db, ts, v, now))) && AtMostOneOpen(Add(db, Links(db, ts, v, now)), now)
    ensures !HasOpenEnrolment(db, ts[k], db.versions[v].course, now)
  {
    var after := Add(db, Links(db, ts, v, now));
    var n := |db.enrolments|;
    LinkAt(db, ts, v, now, k);
    forall i | 0 <= i < n && IsFor(db, db.enrolments[i], ts[k], db.versions[v].course)
      ensures !IsOpen(db.enrolments[i], now)
    {
      assert after.enrolments[i] == db.enrolments[i];
      assert SamePair(after, after.enrolments[i], after.enrolments[n + k]);
    }
  }

  /** Time only closes links. */
  lemma TimeKeepsOneOpen(db: Db, now: Instant, later: Instant)
    requires KeysResolve(db) && AtMostOneOpen(db, now) && now <= later
    ensures AtMostOneOpen(db, later)
  {
  }

  // ---------- The manual form ----------

  /** New enrolments of the course get a version, and one whose links live for a while. */
  predicate IssuesLiveLinks(db: Db, course: Id) {
    match ActiveVersion(db, course)
    case None => false
    case Some(v) => v < |db.versions| && db.versions[v].linkTtlDays > 0
  }

  /** The links for `ts` keep at most one open if and only if they are not live, or nobody on the list
      is named twice or already open. */
  lemma CourseLinksKeepIff(db: Db, ts: seq<Id>, course: Id, now: Instant)
    requires KeysResolve(db) && AtMostOneOpen(db, now) && forall t :: t in ts ==> t < |db.trainees|
    ensures KeysResolve(Add(db, CourseLinks(db, ts, course, now)))
    ensures AtMostOneOpen(Add(db, CourseLinks(db, ts, course, now)), now) <==>
              !IssuesLiveLinks(db, course) || (Distinct(ts) && NoneOpen(db, ts, course, now))
  {
    ActiveIsActive(db.versions, |db.versions|, course);
    if ActiveVersion(db, course).Some? {
      LinksKeepIff(db, ts, ActiveVersion(db, course).value, now);
    } else {
      assert Add(db, []) == db;
    }
  }

  lemma EnrolIsOneLink(db: Db, t: Id, course: Id, now: Instant)
    ensures OrSame(db, Enrol(db, t, course, now)) == Add(db, CourseLinks(db, [t], course, now))
  {
    ActiveIsActive(db.versions, |db.versions|, course);
    assert db.enrolments + [] == db.enrolments;
    if ActiveVersion(db, course).Some? {
      var v := ActiveVersion(db, course).value;
      assert Links(db, [t], v, now) == [NewEnrolment(db, t, v, now)];
    }
  }

  /** The manual form has no guard: it leaves two open links exactly when the course issues live links and
      the trainee already holds an open one. */
  lemma ManualIssueBreaksIff(db: Db, t: Id, course: Id, now: Instant)
    requires KeysResolve(db) && AtMostOneOpen(db, now) && t < |db.trainees|
    ensures var after := OrSame(db, Enrol(db, t, course, now));
            && KeysResolve(after)
            && (!AtMostOneOpen(after, now) <==> IssuesLiveLinks(db, course) && HasOpenEnrolment(db, t, course, now))
  {
    EnrolIsOneLink(db, t, course, now);
    CourseLinksKeepIff(db, [t], course, now);
    assert NoneOpen(db, [t], course, now) <==> !HasOpenEnrolment(db, [t][0], course, now);
  }

  // ---------- The bulk form ----------

  datatype BulkAction = IssueRow | SkipInFlight | SkipNoVersion | NotFound

  datatype BulkRow = BulkRow(trainee: Option<Id>, action: BulkAction)

  datatype BulkCounts = BulkCounts(issued: nat, skipped: nat, errors: nat)

  function PlanRow(db: Db, tid: Id, course: Id, now: Instant): BulkRow {
    if ActiveVersion(db, course).None? then BulkRow(if tid < |db.trainees| then Some(tid) else None, SkipNoVersion)
    else if |db.trainees| <= tid then BulkRow(None, NotFound)
    else if HasOpenEnrolment(db, tid, course, now) then BulkRow(Some(tid), SkipInFlight)
    else BulkRow(Some(tid), IssueRow)
  }

  /** A row `apply_bulk_issue` acts on. */
  predicate ToBeIssued(row: BulkRow) {
    row.action == IssueRow && row.trainee.Some?
  }

  function IssueIds(rows: seq<BulkRow>, n: nat): seq<Id>
    requires n <= |rows|
  {
    if n == 0 then []
    else IssueIds(rows, n - 1) + if ToBeIssued(rows[n - 1]) then [rows[n - 1].trainee.value] else []
  }

  ghost predicate IsPlanFor(db: Db, tids: seq<Id>, course: Id, now: Instant, rows: seq<BulkRow>) {
    |rows| == |tids| && forall k :: 0 <= k < |tids| ==> rows[k] == PlanRow(db, tids[k], course, now)
  }

  function Plan(db: Db, tids: seq<Id>, course: Id, now: Instant): (rows: seq<BulkRow>)
    ensures IsPlanFor(db, tids, course, now, rows)
  {
    seq(|tids|, k requires 0 <= k < |tids| => PlanRow(db, tids[k], course, now))
  }

  /** A known trainee with nothing open, on a course with an active version. */
  predicate Eligible(db: Db, tid: Id, course: Id, now: Instant) {
    ActiveVersion(db, course).Some? && tid < |db.trainees| && !HasOpenEnrolment(db, tid, course, now)
  }

  lemma {:induction false} IssuedAreEligible(db: Db, tids: seq<Id>, course: Id, now: Instant, rows: seq<BulkRow>,
          n: nat)
    requires IsPlanFor(db, tids, course, now, rows) && n <= |tids|
    ensures forall t :: t in IssueIds(rows, n) <==> (t in tids[..n] && Eligible(db, t, course, now))
  {
    if n == 0 {
    } else {
      IssuedAreEligible(db, tids, course, now, rows, n - 1);
      assert tids[..n] == tids[..n - 1] + [tids[n - 1]];
    }
  }

  lemma RowMeansEligible(db: Db, tids: seq<Id>, course: Id, now: Instant, rows: seq<BulkRow>, k: nat)
    requires IsPlanFor(db, tids, course, now, rows) && k < |tids|
    ensures ToBeIssued(rows[k]) <==> Eligible(db, tids[k], course, now)
    ensures ToBeIssued(rows[k]) ==> rows[k].trainee.value == tids[k]
  {
  }

  /** How often `t` stands among the first `n`. */
  function Mentions(ts: seq<Id>, n: nat, t: Id): nat
    requires n <= |ts|
  {
    if n == 0 then 0 else Mentions(ts, n - 1, t) + if ts[n - 1] == t then 1 else 0
  }

  lemma {:induction false} SameMentions(a: seq<Id>, b: seq<Id>, n: nat, t: Id)
    requires n <= |a| && n <= |b| && forall i :: 0 <= i < n ==> a[i] == b[i]
    ensures Mentions(a, n, t) == Mentions(b, n, t)
  {
    if n == 0 {
    } else {
      SameMentions(a, b, n - 1, t);
    }
  }

  lemma MentionsAtEnd(ts: seq<Id>, x: Id, t: Id)
    ensures Mentions(ts + [x], |ts + [x]|, t) == Mentions(ts, |ts|, t) + if x == t then 1 else 0
  {
    SameMentions(ts, ts + [x], |ts|, t);
  }

  lemma CountOneMore(rows: seq<BulkRow>, m: nat, n: nat, tid: Id, t: Id)
    requires n == m + 1 <= |rows| && (ToBeIssued(rows[m]) ==> rows[m].trainee.value == tid)
    ensures Mentions(IssueIds(rows, n), |IssueIds(rows, n)|, t) ==
            Mentions(IssueIds(rows, m), |IssueIds(rows, m)|, t) + if ToBeIssued(rows[m]) && tid == t then 1 else 0
  {
    if ToBeIssued(rows[m]) {
      assert IssueIds(rows, n) == IssueIds(rows, m) + [tid];
      MentionsAtEnd(IssueIds(rows, m), tid, t);
    } else {
      assert IssueIds(rows, n) == IssueIds(rows, m);
    }
  }

  lemma {:induction false} CountMentions(rows: seq<BulkRow>, tids: seq<Id>, n: nat, t: Id, issue: bool)
    requires n <= |rows| == |tids|
    requires forall k :: 0 <= k < |rows| && ToBeIssued(rows[k]) ==> rows[k].trainee.value == tids[k]
    requires forall k :: 0 <= k < |rows| && tids[k] == t ==> (ToBeIssued(rows[k]) <==> issue)
    ensures Mentions(IssueIds(rows, n), |IssueIds(rows, n)|, t) == if issue then Mentions(tids, n, t) else 0
  {
    if n == 0 {
    } else {
      CountMentions(rows, tids, n - 1, t, issue);
      CountOneMore(rows, n - 1, n, tids[n - 1], t);
    }
  }

  /** A trainee named m times on the form gets m links, or none. */
  lemma EveryMentionIssues(db: Db, tids: seq<Id>, course: Id, now: Instant, t: Id)
    ensures var ids := IssueIds(Plan(db, tids, course, now), |tids|);
            Mentions(ids, |ids|, t) == if Eligible(db, t, course, now) then Mentions(tids, |tids|, t) else 0
  {
    var rows := Plan(db, tids, course, now);
    forall k | 0 <= k < |rows|
      ensures ToBeIssued(rows[k]) <==> Eligible(db, tids[k], course, now)
      ensures ToBeIssued(rows[k]) ==> rows[k].trainee.value == tids[k]
    {
      RowMeansEligible(db, tids, course, now, rows, k);
    }
    CountMentions(rows, tids, |tids|, t, Eligible(db, t, course, now));
  }

  ghost predicate RepeatsEligible(db: Db, tids: seq<Id>, course: Id, now: Instant, n: nat)
    requires n <= |tids|
  {
    exists i, j :: 0 <= i < j < n && tids[i] == tids[j] && Eligible(db, tids[i], course, now)
  }

  lemma {:induction false} DistinctUnlessRepeated(db: Db, tids: seq<Id>, course: Id, now: Instant, rows: seq<BulkRow>,
                                                 n: nat)
    requires IsPlanFor(db, tids, course, now, rows) && n <= |tids|
    ensures Distinct(IssueIds(rows, n)) <==> !RepeatsEligible(db, tids, course, now, n)
  {
    if n == 0 {
    } else {
      var ids := IssueIds(rows, n - 1);
      var t := tids[n - 1];
      DistinctUnlessRepeated(db, tids, course, now, rows, n - 1);
      IssuedAreEligible(db, tids, course, now, rows, n - 1);
      if Eligible(db, t, course, now) {
        DistinctSnoc(ids, t);
        RepeatSnoc(db, tids, course, now, n);
      } else {
        assert IssueIds(rows, n) == ids;
        RepeatSnoc(db, tids, course, now, n);
      }
    }
  }

  lemma DistinctSnoc(ids: seq<Id>, t: Id)
    ensures Distinct(ids + [t]) <==> Distinct(ids) && t !in ids
  {
    var all := ids + [t];
    if Distinct(all) {
      forall i, j | 0 <= i < j < |ids| ensures ids[i] != ids[j] { assert all[i] != all[j]; }
      forall i | 0 <= i < |ids| ensures ids[i] != t { assert all[i] != all[|ids|]; }
    }
  }

  lemma RepeatSnoc(db: Db, tids: seq<Id>, course: Id, now: Instant, n: nat)
    requires 0 < n <= |tids|
    ensures RepeatsEligible(db, tids, course, now, n) <==>
              RepeatsEligible(db, tids, course, now, n - 1)
              || (tids[n - 1] in tids[..n - 1] && Eligible(db, tids[n - 1], course, now))
  {
    if tids[n - 1] in tids[..n - 1] {
      var i :| 0 <= i < n - 1 && tids[i] == tids[n - 1];
    }
  }

  /** Planning and applying a bulk issue leaves two open links for somebody exactly when the course issues
      live links and the form repeats a known trainee who had none open. */
  lemma BulkBreaksIff(db: Db, tids: seq<Id>, course: Id, now: Instant, rows: seq<BulkRow>)
    requires KeysResolve(db) && AtMostOneOpen(db, now) && IsPlanFor(db, tids, course, now, rows)
    ensures var after := Add(db, CourseLinks(db, IssueIds(rows, |rows|), course, now));
            && KeysResolve(after)
            && (!AtMostOneOpen(after, now) <==>
                  IssuesLiveLinks(db, course) && RepeatsEligible(db, tids, course, now, |tids|))
  {
    var ids := IssueIds(rows, |rows|);
    IssuedAreEligible(db, tids, course, now, rows, |rows|);
    CourseLinksKeepIff(db, ids, course, now);
    DistinctUnlessRepeated(db, tids, course, now, rows, |rows|);
    forall k | 0 <= k < |ids| ensures !HasOpenEnrolment(db, ids[k], course, now) { assert ids[k] in ids; }
  }

  /** One trainee, one course whose links live for seven days, nothing issued yet. */
  function Fresh(): Db {
    Db([Trainee("operator", None, true)], [Course(true, [])], [Version(0, 1, true, 0.0, 12, 7, [])], [], [], [], [])
  }

  lemma FreshIsActive(db: Db)
    requires db.versions == Fresh().versions
    ensures ActiveVersion(db, 0) == Some(0)
  {
    assert ActiveAmong(db.versions, 0, 0) == None;
  }

  /** It really happens: a form that names the same trainee twice gives them two open links. */
  lemma BulkDoubleIssue()
    ensures var db := Fresh();
            var after := Add(db, CourseLinks(db, IssueIds(Plan(db, [0, 0], 0, 0), 2), 0, 0));
            && KeysResolve(db) && AtMostOneOpen(db, 0) && KeysResolve(after) && !AtMostOneOpen(after, 0)
  {
    var db := Fresh();
    FreshIsActive(db);
    assert RepeatsEligible(db, [0, 0], 0, 0, 2) by { assert [0, 0][0] == [0, 0][1] && Eligible(db, 0, 0, 0); }
    BulkBreaksIff(db, [0, 0], 0, 0, Plan(db, [0, 0], 0, 0));
  }

  /** And so does the manual form, used twice on the same trainee. */
  lemma ManualDoubleIssue()
    ensures var once := OrSame(Fresh(), Enrol(Fresh(), 0, 0, 0));
            var twice := OrSame(once, Enrol(once, 0, 0, 1));
            KeysResolve(once) && AtMostOneOpen(once, 1) && KeysResolve(twice) && !AtMostOneOpen(twice, 1)
  {
    var once := OrSame(Fresh(), Enrol(Fresh(), 0, 0, 0));
    FreshIsActive(Fresh());
    FreshIsActive(once);
    assert once.enrolments == [NewEnrolment(Fresh(), 0, 0, 0)];
    assert IsFor(once, once.enrolments[0], 0, 0) && IsOpen(once.enrolments[0], 1);
    ManualIssueBreaksIff(once, 0, 0, 1);
  }

  // ---------- The training-link responder of a trigger ----------

  datatype Audience = Audience(roleCode: Option<string>, lineScoped: bool, lineId: Option<string>)

  /** A filter applies only when its value is present and not empty. */
  predicate Candidate(t: Trainee, who: Audience) {
    && t.isActive
    && (who.roleCode.Some? && who.roleCode.value != "" ==> t.roleCode == who.roleCode.value)
    && (who.lineScoped && who.lineId.Some? && who.lineId.value != "" ==> t.lineId == who.lineId)
  }

  function FireAmong(db: Db, n: nat, course: Id, who: Audience, now: Instant): seq<Id>
    requires n <= |db.trainees|
  {
    if n == 0 then []
    else FireAmong(db, n - 1, course, who, now)
         + if Candidate(db.trainees[n - 1], who) && !HasOpenEnrolment(db, n - 1, course, now) then [n - 1] else []
  }

  function FireList(db: Db, course: Id, who: Audience, now: Instant): seq<Id> {
    FireAmong(db, |db.trainees|, course, who, now)
  }

  lemma {:induction false} FireAmongExact(db: Db, n: nat, course: Id, who: Audience, now: Instant)
    requires n <= |db.trainees|
    ensures var ts := FireAmong(db, n, course, who, now);
            && Distinct(ts)
            && (forall t: Id :: t in ts <==>
                  t < n && Candidate(db.trainees[t], who) && !HasOpenEnrolment(db, t, course, now))
  {
    if n == 0 {
    } else {
      FireAmongExact(db, n - 1, course, who, now);
    }
  }

  /** A fire issues to everyone in the audience without an open link, and to nobody twice. */
  lemma FireKeepsOneOpen(db: Db, course: Id, who: Audience, now: Instant)
    requires KeysResolve(db) && AtMostOneOpen(db, now)
    ensures var after := Add(db, CourseLinks(db, FireList(db, course, who, now), course, now));
            KeysResolve(after) && AtMostOneOpen(after, now)
  {
    var ts := FireList(db, course, who, now);
    FireAmongExact(db, |db.trainees|, course, who, now);
    CourseLinksKeepIff(db, ts, course, now);
    forall k | 0 <= k < |ts| ensures !HasOpenEnrolment(db, ts[k], course, now) { assert ts[k] in ts; }
  }

  // ---------- The scheduler's tick ----------

  function CourseTick(db: Db, c: Id, now: Instant, leadDays: int): seq<Enrolment>
    requires c < |db.courses|
  {
    if db.courses[c].isActive then CourseLinks(db, DueList(db, c, now, leadDays), c, now) else []
  }

  /** What each course is issued, its due list taken from the tables before the tick. */
  function CourseTicks(db: Db, now: Instant, leadDays: int): (parts: seq<seq<Enrolment>>)
    ensures |parts| == |db.courses|
    ensures forall c :: 0 <= c < |parts| ==> parts[c] == CourseTick(db, c, now, leadDays)
  {
    seq(|db.courses|, c requires 0 <= c < |db.courses| => CourseTick(db, c, now, leadDays))
  }

  /** What a tick issues over the first `n` courses. */
  function TickLinks(db: Db, n: nat, now: Instant, leadDays: int): seq<Enrolment>
    requires n <= |db.courses|
  {
    Flat(CourseTicks(db, now, leadDays), n)
  }

  function TickResult(db: Db, now: Instant, leadDays: int): Db {
    Add(db, TickLinks(db, |db.courses|, now, leadDays))
  }

  lemma CourseLinksMembers(db: Db, ts: seq<Id>, course: Id, now: Instant)
    requires forall t :: t in ts ==> t < |db.trainees|
    ensures forall e :: e in CourseLinks(db, ts, course, now) ==>
              e.trainee < |db.trainees| && IsFor(db, e, e.trainee, course)
  {
    ActiveIsActive(db.versions, |db.versions|, course);
    forall e | e in CourseLinks(db, ts, course, now)
      ensures e.trainee < |db.trainees| && IsFor(db, e, e.trainee, course)
    {
      var k :| 0 <= k < |ts| && CourseLinks(db, ts, course, now)[k] == e;
      assert ts[k] in ts;
    }
  }

  lemma CourseTickMembers(db: Db, c: Id, e: Enrolment, now: Instant, leadDays: int)
    requires c < |db.courses| && e in CourseTick(db, c, now, leadDays)
    ensures e.trainee < |db.trainees| && e.version < |db.versions| && db.versions[e.version].course == c
  {
    DueAmongExact(db, |db.trainees|, c, now, leadDays);
    CourseLinksMembers(db, DueList(db, c, now, leadDays), c, now);
  }

  /** Every link of a tick is issued for some course. */
  lemma CourseOfLink(db: Db, n: nat, e: Enrolment, now: Instant, leadDays: int) returns (c: Id)
    requires n <= |db.courses| && e in TickLinks(db, n, now, leadDays)
    ensures c < n && e in CourseTick(db, c, now, leadDays)
    ensures e.trainee < |db.trainees| && e.version < |db.versions| && db.versions[e.version].course == c
  {
    c := PartOf(CourseTicks(db, now, leadDays), n, e);
    CourseTickMembers(db, c, e, now, leadDays);
  }

  /** Courses still to come see the tables as they were before the tick. */
  lemma LaterCoursesUnmoved(db: Db, n: nat, c: Id, now: Instant, leadDays: int)
    requires n <= c < |db.courses|
    ensures forall t :: HasOpenEnrolment(Add(db, TickLinks(db, n, now, leadDays)), t, c, now) <==>
                        HasOpenEnrolment(db, t, c, now)
    ensures DueList(Add(db, TickLinks(db, n, now, leadDays)), c, now, leadDays) == DueList(db, c, now, leadDays)
  {
    var more := TickLinks(db, n, now, leadDays);
    forall e | e in more ensures e.version < |db.versions| && db.versions[e.version].course != c {
      var other := CourseOfLink(db, n, e, now, leadDays);
    }
    forall t ensures HasOpenEnrolment(Add(db, more), t, c, now) <==> HasOpenEnrolment(db, t, c, now) {
      OpenAfterAdd(db, more, t, c, now);
    }
    SameDueList(Add(db, more), db, |db.trainees|, c, now, leadDays);
  }

  /** One more course of the tick, seen from the tables its predecessors left. */
  lemma TickStep(db: Db, c: Id, now: Instant, leadDays: int)
    requires c < |db.courses|
    ensures var mid := Add(db, TickLinks(db, c, now, leadDays));
            && Add(db, TickLinks(db, c + 1, now, leadDays)) == Add(mid, CourseTick(mid, c, now, leadDays))
            && CourseTick(mid, c, now, leadDays) == CourseTick(db, c, now, leadDays)
  {
    var mid := Add(db, TickLinks(db, c, now, leadDays));
    var ts := DueList(db, c, now, leadDays);
    LaterCoursesUnmoved(db, c, c, now, leadDays);
    AddAdd(db, TickLinks(db, c, now, leadDays), CourseTick(db, c, now, leadDays));
    assert ActiveVersion(mid, c) == ActiveVersion(db, c);
    assert CourseLinks(mid, ts, c, now) == CourseLinks(db, ts, c, now);
  }

  lemma CourseTickKeepsOneOpen(db: Db, c: Id, now: Instant, leadDays: int)
    requires KeysResolve(db) && AtMostOneOpen(db, now) && c < |db.courses|
    ensures var after := Add(db, CourseTick(db, c, now, leadDays)); KeysResolve(after) && AtMostOneOpen(after, now)
  {
    var ts := DueList(db, c, now, leadDays);
    DueAmongExact(db, |db.trainees|, c, now, leadDays);
    CourseLinksKeepIff(db, ts, c, now);
    forall k | 0 <= k < |ts| ensures !HasOpenEnrolment(db, ts[k], c, now) { assert ts[k] in ts; }
    assert Add(db, []) == db;
  }

  /** Issuing part `c` after the parts before it keeps the keys and at most one open. */
  ghost predicate PartKeeps(db: Db, parts: seq<seq<Enrolment>>, c: nat, now: Instant)
    requires c < |parts|
  {
    var mid, after := Add(db, Flat(parts, c)), Add(db, Flat(parts, c + 1));
    KeysResolve(mid) && AtMostOneOpen(mid, now) ==> KeysResolve(after) && AtMostOneOpen(after, now)
  }

  lemma CourseKeeps(db: Db, c: Id, now: Instant, leadDays: int)
    requires c < |db.courses|
    ensures PartKeeps(db, CourseTicks(db, now, leadDays), c, now)
  {
    var mid := Add(db, TickLinks(db, c, now, leadDays));
    if KeysResolve(mid) && AtMostOneOpen(mid, now) {
      CourseTickKeepsOneOpen(mid, c, now, leadDays);
      TickStep(db, c, now, leadDays);
    }
  }

  lemma {:induction false} PartsKeep(db: Db, parts: seq<seq<Enrolment>>, n: nat, now: Instant)
    requires n <= |parts| && forall c :: 0 <= c < n ==> PartKeeps(db, parts, c, now)
    requires KeysResolve(db) && AtMostOneOpen(db, now)
    ensures KeysResolve(Add(db, Flat(parts, n))) && AtMostOneOpen(Add(db, Flat(parts, n)), now)
  {
    if n == 0 {
      assert Add(db, Flat(parts, 0)) == db;
    } else {
      PartsKeep(db, parts, n - 1, now);
      assert PartKeeps(db, parts, n - 1, now);
    }
  }

  /** A tick over any number of courses keeps at most one open link per trainee and course. */
  lemma TickKeepsOneOpen(db: Db, n: nat, now: Instant, leadDays: int)
    requires KeysResolve(db) && AtMostOneOpen(db, now) && n <= |db.courses|
    ensures KeysResolve(Add(db, TickLinks(db, n, now, leadDays)))
    ensures AtMostOneOpen(Add(db, TickLinks(db, n, now, leadDays)), now)
  {
    forall c | 0 <= c < n ensures PartKeeps(db, CourseTicks(db, now, leadDays), c, now) {
      CourseKeeps(db, c, now, leadDays);
    }
    PartsKeep(db, CourseTicks(db, now, leadDays), n, now);
  }

  // ---------- A second tick at the same instant ----------

  lemma CourseTickOpens(db: Db, t: Id, c: Id, now: Instant, leadDays: int) returns (e: Enrolment)
    requires c < |db.courses| && t < |db.trainees| && db.courses[c].isActive
    requires IsDue(db, t, c, now, leadDays) && IssuesLiveLinks(db, c)
    ensures e in CourseTick(db, c, now, leadDays) && IsFor(db, e, t, c) && IsOpen(e, now)
  {
    var ts := DueList(db, c, now, leadDays);
    DueAmongExact(db, |db.trainees|, c, now, leadDays);
    ActiveIsActive(db.versions, |db.versions|, c);
    var v := ActiveVersion(db, c).value;
    var k :| 0 <= k < |ts| && ts[k] == t;
    FreshIsOpen(db, t, v, now);
    e := CourseTick(db, c, now, leadDays)[k];
  }

  lemma TickOpens(db: Db, n: nat, t: Id, c: Id, now: Instant, leadDays: int) returns (e: Enrolment)
    requires c < n <= |db.courses| && t < |db.trainees| && db.courses[c].isActive
    requires IsDue(db, t, c, now, leadDays) && IssuesLiveLinks(db, c)
    ensures e in TickLinks(db, n, now, leadDays) && IsFor(db, e, t, c) && IsOpen(e, now)
  {
    e := CourseTickOpens(db, t, c, now, leadDays);
    InFlat(CourseTicks(db, now, leadDays), n, c, e);
  }

  lemma CourseTickOpensOnlyLive(db: Db, c: Id, e: Enrolment, now: Instant, leadDays: int)
    requires c < |db.courses| && e in CourseTick(db, c, now, leadDays) && IsOpen(e, now)
    ensures IssuesLiveLinks(db, c)
  {
    var ts := DueList(db, c, now, leadDays);
    ActiveIsActive(db.versions, |db.versions|, c);
    var k :| 0 <= k < |CourseTick(db, c, now, leadDays)| && CourseTick(db, c, now, leadDays)[k] == e;
    FreshIsOpen(db, ts[k], ActiveVersion(db, c).value, now);
  }

  lemma TickOpensOnlyLive(db: Db, n: nat, e: Enrolment, now: Instant, leadDays: int)
    requires n <= |db.courses| && e in TickLinks(db, n, now, leadDays) && IsOpen(e, now)
    ensures e.version < |db.versions| && IssuesLiveLinks(db, db.versions[e.version].course)
  {
    var c := CourseOfLink(db, n, e, now, leadDays);
    CourseTickOpensOnlyLive(db, c, e, now, leadDays);
  }

  lemma CourseTickIssuesOnlyDue(db: Db, c: Id, e: Enrolment, now: Instant, leadDays: int)
    requires c < |db.courses| && e in CourseTick(db, c, now, leadDays)
    ensures e.trainee < |db.trainees| && IsDue(db, e.trainee, c, now, leadDays)
  {
    var ts := DueList(db, c, now, leadDays);
    DueAmongExact(db, |db.trainees|, c, now, leadDays);
    var k :| 0 <= k < |CourseTick(db, c, now, leadDays)| && CourseTick(db, c, now, leadDays)[k] == e;
    assert ts[k] in ts;
  }

  lemma TickIssuesOnlyDue(db: Db, n: nat, e: Enrolment, now: Instant, leadDays: int)
    requires n <= |db.courses| && e in TickLinks(db, n, now, leadDays)
    ensures e.trainee < |db.trainees| && e.version < |db.versions| && db.versions[e.version].course < n
    ensures IsDue(db, e.trainee, db.versions[e.version].course, now, leadDays)
  {
    var c := CourseOfLink(db, n, e, now, leadDays);
    CourseTickIssuesOnlyDue(db, c, e, now, leadDays);
  }

  /** After a tick the due trainees of a course are those the tick could not help: none, or all of them
      when the course issues no live links. */
  lemma StillDue(db: Db, t: Id, c: Id, now: Instant, leadDays: int)
    requires c < |db.courses| && t < |db.trainees| && db.courses[c].isActive
    ensures IsDue(TickResult(db, now, leadDays), t, c, now, leadDays) <==>
              IsDue(db, t, c, now, leadDays) && !IssuesLiveLinks(db, c)
  {
    var more := TickLinks(db, |db.courses|, now, leadDays);
    OpenAfterAdd(db, more, t, c, now);
    if IsDue(db, t, c, now, leadDays) {
      if IssuesLiveLinks(db, c) {
        var e := TickOpens(db, |db.courses|, t, c, now, leadDays);
      } else if e :| e in more && IsFor(db, e, t, c) && IsOpen(e, now) {
        TickOpensOnlyLive(db, |db.courses|, e, now, leadDays);
        assert false;
      }
    }
  }

  /** An active course whose links are born expired, with somebody due. */
  predicate BornExpired(db: Db, c: Id, now: Instant, leadDays: int)
    requires c < |db.courses|
  {
    && db.courses[c].isActive && ActiveVersion(db, c).Some? && !IssuesLiveLinks(db, c)
    && DueList(db, c, now, leadDays) != []
  }

  lemma Occupied(ts: seq<Id>)
    ensures ts == [] || ts[0] in ts
  {
  }

  lemma StillDueList(db: Db, c: Id, now: Instant, leadDays: int)
    requires c < |db.courses| && db.courses[c].isActive
    ensures DueList(TickResult(db, now, leadDays), c, now, leadDays) ==
            if IssuesLiveLinks(db, c) then [] else DueList(db, c, now, leadDays)
  {
    var after := TickResult(db, now, leadDays);
    forall t: Id | t < |db.trainees|
      ensures IsDue(after, t, c, now, leadDays) <==> IsDue(db, t, c, now, leadDays) && !IssuesLiveLinks(db, c)
    {
      StillDue(db, t, c, now, leadDays);
    }
    if IssuesLiveLinks(db, c) {
      var ts := DueList(after, c, now, leadDays);
      DueAmongExact(after, |after.trainees|, c, now, leadDays);
      Occupied(ts);
    } else {
      SameDueList(after, db, |db.trainees|, c, now, leadDays);
    }
  }

  lemma SecondCourseTick(db: Db, c: Id, now: Instant, leadDays: int)
    requires c < |db.courses|
    ensures |CourseTick(TickResult(db, now, leadDays), c, now, leadDays)| == 0 <==>
              !BornExpired(db, c, now, leadDays)
  {
    var after := TickResult(db, now, leadDays);
    ActiveIsActive(db.versions, |db.versions|, c);
    assert ActiveVersion(after, c) == ActiveVersion(db, c);
    if db.courses[c].isActive {
      StillDueList(db, c, now, leadDays);
      var ts := DueList(after, c, now, leadDays);
      assert |CourseLinks(after, ts, c, now)| == if ActiveVersion(db, c).Some? then |ts| else 0;
    }
  }

  lemma SomeCourseTicks(db: Db, n: nat, c: Id, now: Instant, leadDays: int)
    requires c < n <= |db.courses| && |CourseTick(db, c, now, leadDays)| > 0
    ensures |TickLinks(db, n, now, leadDays)| > 0
  {
    var e := CourseTick(db, c, now, leadDays)[0];
    InFlat(CourseTicks(db, now, leadDays), n, c, e);
  }

  /** A second issuing phase at the same instant issues nothing if and only if no active course with somebody
      due has links that are born expired. */
  lemma SecondTickIssuesIff(db: Db, now: Instant, leadDays: int)
    ensures var once := TickResult(db, now, leadDays);
            |TickLinks(once, |once.courses|, now, leadDays)| == 0 <==>
              forall c :: 0 <= c < |db.courses| ==> !BornExpired(db, c, now, leadDays)
  {
    var once := TickResult(db, now, leadDays);
    var more := TickLinks(once, |once.courses|, now, leadDays);
    if |more| > 0 {
      var c := CourseOfLink(once, |once.courses|, more[0], now, leadDays);
      SecondCourseTick(db, c, now, leadDays);
      assert BornExpired(db, c, now, leadDays);
    } else {
      forall c | 0 <= c < |db.courses| ensures !BornExpired(db, c, now, leadDays) {
        SecondCourseTick(db, c, now, leadDays);
        if |CourseTick(once, c, now, leadDays)| > 0 {
          SomeCourseTicks(once, |once.courses|, c, now, leadDays);
          assert false;
        }
      }
    }
  }

  // ---------- Due lists look at open enrolments only ----------

  /** `b` differs from `a` in enrolments only, and the same pairs are open. */
  ghost predicate SameOpen(a: Db, b: Db, now: Instant) {
    && b == a.(enrolments := b.enrolments)
    && forall t: Id, c: Id :: HasOpenEnrolment(a, t, c, now) <==> HasOpenEnrolment(b, t, c, now)
  }

  lemma SameOpenSameCourseTick(a: Db, b: Db, c: Id, now: Instant, leadDays: int)
    requires SameOpen(a, b, now) && c < |a.courses|
    ensures CourseTick(a, c, now, leadDays) == CourseTick(b, c, now, leadDays)
  {
    SameDueList(a, b, |a.trainees|, c, now, leadDays);
    assert ActiveVersion(a, c) == ActiveVersion(b, c);
  }

  lemma SameOpenSameTick(a: Db, b: Db, now: Instant, leadDays: int)
    requires SameOpen(a, b, now)
    ensures CourseTicks(a, now, leadDays) == CourseTicks(b, now, leadDays)
  {
    forall c | 0 <= c < |a.courses| ensures CourseTick(a, c, now, leadDays) == CourseTick(b, c, now, leadDays) {
      SameOpenSameCourseTick(a, b, c, now, leadDays);
    }
  }

  // ---------- A tick that is not silent the second time ----------

  /** A course for everybody whose links live for no days at all. The course form and the course import ask for
      1 to 90 days; only a direct call saving a version can ask for none. */
  function ZeroDays(): Db {
    Db([Trainee("operator", None, true)], [Course(true, [Assignment(None, None)])],
       [Version(0, 1, true, 0.0, 12, 0, [])], [], [], [], [])
  }

  lemma ZeroDaysBornExpired(now: Instant, leadDays: int)
    ensures BornExpired(ZeroDays(), 0, now, leadDays)
  {
    var db := ZeroDays();
    assert ActiveAmong(db.versions, 0, 0) == None;
    assert ActiveVersion(db, 0) == Some(0);
    assert Matches(db.courses[0].assignments[0], db.trainees[0]);
    DueAmongExact(db, 1, 0, now, leadDays);
    assert IsDue(db, 0, 0, now, leadDays);
    assert 0 in DueList(db, 0, now, leadDays);
  }

  /** Such a course has its links issued again by every tick. */
  lemma ExpiredLinksReissue(now: Instant, leadDays: int)
    ensures var once := TickResult(ZeroDays(), now, leadDays);
            |TickResult(once, now, leadDays).enrolments| > |once.enrolments|
  {
    var once := TickResult(ZeroDays(), now, leadDays);
    ZeroDaysBornExpired(now, leadDays);
    SecondTickIssuesIff(ZeroDays(), now, leadDays);
    assert !(forall c :: 0 <= c < |ZeroDays().courses| ==> !BornExpired(ZeroDays(), c, now, leadDays));
  }
}
