/** The compliance dashboard: one bulk-loaded matrix instead of a query per cell. */
module Compliance {
  import opened Common
  import opened Calendar
  import opened TrainingModel
  import Certification
  import Issuing

  datatype State = NotRequired | Extra | Valid | DueSoon | InFlight | Overdue

  /** One trainee and course, from pre-loaded facts. */
  function ComplianceState(required: bool, validUntil: Option<Instant>, inFlight: bool, now: Instant, leadDays: int)
    : State
  {
    var certValid := validUntil.Some? && now < validUntil.value;
    if inFlight then InFlight
    else if !required then (if certValid then Extra else NotRequired)
    else if !certValid then Overdue
    else if validUntil.value - Days(leadDays) <= now then DueSoon
    else Valid
  }

  /** The same cell asked for on its own: assignment, latest certificate and open enrolment, one query each. */
  function Cell(db: Db, t: Id, c: Id, now: Instant, leadDays: int): State
  {
    ComplianceState(IsRequired(db, t, c), ValidUntil(db, t, c), HasOpenEnrolment(db, t, c, now), now, leadDays)
  }

  /** How far along a cell is: for a required course VALID, DUE_SOON, OVERDUE; otherwise EXTRA, NOT_REQUIRED. */
  function Stage(s: State): nat {
    match s
    case InFlight => 0
    case Valid => 1
    case Extra => 1
    case DueSoon => 2
    case NotRequired => 2
    case Overdue => 3
  }

  /** Left alone, a cell only ever decays: with nothing open, time moves it forward through its stages and
      never swaps a required cell for an optional one. */
  lemma CellsOnlyDecay(db: Db, t: Id, c: Id, now: Instant, later: Instant, leadDays: nat)
    requires now <= later && !HasOpenEnrolment(db, t, c, now)
    ensures Stage(Cell(db, t, c, now, leadDays)) <= Stage(Cell(db, t, c, later, leadDays))
    ensures Cell(db, t, c, now, leadDays) in {Valid, DueSoon, Overdue} <==>
            Cell(db, t, c, later, leadDays) in {Valid, DueSoon, Overdue}
  {
    assert !HasOpenEnrolment(db, t, c, later);
    assert Days(leadDays) >= 0;
  }

  // ---------- What the database answers ----------

  datatype Filters = Filters(lineId: Option<string>, lineIds: seq<string>, roleCode: Option<string>,
                             roleCodes: seq<string>)

  /** A single choice and a list combine; blank entries do not count. */
  function Choices(one: Option<string>, many: seq<string>): set<string> {
    (set x | x in many && x != "") + if one.Some? && one.value != "" then {one.value} else {}
  }

  predicate Shown(t: Trainee, f: Filters) {
    var lines := Choices(f.lineId, f.lineIds);
    var roles := Choices(f.roleCode, f.roleCodes);
    && t.isActive
    && (lines != {} ==> t.lineId.Some? && t.lineId.value in lines)
    && (roles != {} ==> t.roleCode in roles)
  }

  type Key = (Id, Id)

  /** The rows of the five queries, in whatever order the database returns equal rows. */
  datatype Rows = Rows(trainees: seq<Id>, courses: seq<Id>, certs: seq<Certificate>, open: seq<Key>)

  ghost predicate Answers(db: Db, f: Filters, now: Instant, rows: Rows) {
    && Issuing.Distinct(rows.trainees) && Issuing.Distinct(rows.courses)
    && (forall t: Id :: t in rows.trainees <==> t < |db.trainees| && Shown(db.trainees[t], f))
    && (forall c: Id :: c in rows.courses <==> c < |db.courses| && db.courses[c].isActive)
    && AnswersCerts(db, rows) && AnswersOpen(db, now, rows)
  }

  ghost predicate AnswersCerts(db: Db, rows: Rows) {
    && (forall cert :: cert in rows.certs <==>
          cert in db.certificates && !cert.revoked && cert.trainee in rows.trainees && cert.course in rows.courses)
    && (forall i, j :: 0 <= i < j < |rows.certs| ==> rows.certs[i].validUntil <= rows.certs[j].validUntil)
  }

  ghost predicate AnswersOpen(db: Db, now: Instant, rows: Rows) {
    forall t: Id, c: Id :: (t, c) in rows.open <==>
      t in rows.trainees && c in rows.courses && HasOpenEnrolment(db, t, c, now)
  }

  // ---------- The matrix ----------

  datatype Kpis = Kpis(blocked: nat, overdueCourses: nat, dueSoon: nat, inFlight: nat)

  datatype Matrix = Matrix(trainees: seq<Id>, courses: seq<Id>, states: map<Key, State>, certs: map<Key, Certificate>,
                           cleared: map<Id, bool>, kpis: Kpis)

  predicate IsCleared(db: Db, t: Id, courses: seq<Id>, now: Instant, leadDays: int) {
    forall c :: c in courses ==> Cell(db, t, c, now, leadDays) != Overdue
  }

  /** The trainees who are not cleared, in the order given. */
  function Blocked(db: Db, ts: seq<Id>, courses: seq<Id>, now: Instant, leadDays: int): (shown: seq<Id>)
    ensures forall t :: t in shown <==> t in ts && !IsCleared(db, t, courses, now, leadDays)
  {
    if ts == [] then []
    else (if IsCleared(db, ts[0], courses, now, leadDays) then [] else [ts[0]])
         + Blocked(db, ts[1..], courses, now, leadDays)
  }

  ghost predicate StatesAgree(db: Db, ts: seq<Id>, cs: seq<Id>, now: Instant, leadDays: int, states: map<Key, State>) {
    && (forall key: Key :: key in states <==> key.0 in ts && key.1 in cs)
    && (forall key: Key :: key in states ==> states[key] == Cell(db, key.0, key.1, now, leadDays))
  }

  ghost predicate CertsAgree(db: Db, ts: seq<Id>, cs: seq<Id>, certs: map<Key, Certificate>) {
    && (forall key: Key :: key in certs ==> key.0 in ts && key.1 in cs)
    && (forall t: Id, c: Id :: t in ts && c in cs ==>
          IsLatest(db.certificates, t, c, if (t, c) in certs then Some(certs[(t, c)]) else None))
  }

  ghost predicate ClearedAgree(db: Db, ts: seq<Id>, cs: seq<Id>, now: Instant, leadDays: int, cleared: map<Id, bool>) {
    && (forall t: Id :: t in cleared <==> t in ts)
    && (forall t: Id :: t in cleared ==> (cleared[t] <==> IsCleared(db, t, cs, now, leadDays)))
  }

  function CountKpis(states: map<Key, State>, cleared: map<Id, bool>): Kpis {
    Kpis(|set t | t in cleared && !cleared[t]|,
         |set key | key in states && states[key] == Overdue :: key.1|,
         |set key | key in states && states[key] == DueSoon|,
         |set key | key in states && states[key] == InFlight|)
  }

  /** `m` is the naive picture of the rows: every cell as if asked for on its own. */
  ghost predicate IsMatrix(db: Db, rows: Rows, blockedOnly: bool, now: Instant, leadDays: int, m: Matrix) {
    && m.courses == rows.courses
    && if rows.trainees == [] || rows.courses == [] then
         && m.trainees == rows.trainees && m.states == map[] && m.certs == map[]
         && (forall t: Id :: t in m.cleared <==> t in rows.trainees)
         && (forall t: Id :: t in m.cleared ==> m.cleared[t])
         && m.kpis == Kpis(0, 0, 0, 0)
       else
         && m.trainees == (if blockedOnly then Blocked(db, rows.trainees, rows.courses, now, leadDays)
                           else rows.trainees)
         && StatesAgree(db, m.trainees, rows.courses, now, leadDays, m.states)
         && CertsAgree(db, m.trainees, rows.courses, m.certs)
         && ClearedAgree(db, m.trainees, rows.courses, now, leadDays, m.cleared)
         && m.kpis == CountKpis(m.states, m.cleared)
  }

  // ---------- The bulk loader ----------

  /** Rows sorted by their end, so the last assignment wins. */
  method LatestCerts(db: Db, rows: Rows) returns (certBy: map<Key, Certificate>)
    requires AnswersCerts(db, rows)
    ensures CertsAgree(db, rows.trainees, rows.courses, certBy)
  {
    certBy := map[];
    var n := 0;
    while n < |rows.certs|
      invariant n <= |rows.certs|
      invariant forall key: Key :: key in certBy ==>
                  certBy[key] in rows.certs && CertifiesFor(certBy[key], key.0, key.1)
      invariant forall i :: 0 <= i < n ==>
                  && (rows.certs[i].trainee, rows.certs[i].course) in certBy
                  && rows.certs[i].validUntil <= certBy[(rows.certs[i].trainee, rows.certs[i].course)].validUntil
    {
      var cert := rows.certs[n];
      assert cert in rows.certs;
      certBy := certBy[(cert.trainee, cert.course) := cert];
      n := n + 1;
    }
    LatestAgree(db, rows, certBy);
  }

  lemma LatestAgree(db: Db, rows: Rows, certBy: map<Key, Certificate>)
    requires AnswersCerts(db, rows)
    requires forall key: Key :: key in certBy ==>
               certBy[key] in rows.certs && CertifiesFor(certBy[key], key.0, key.1)
    requires forall i :: 0 <= i < |rows.certs| ==>
               && (rows.certs[i].trainee, rows.certs[i].course) in certBy
               && rows.certs[i].validUntil <= certBy[(rows.certs[i].trainee, rows.certs[i].course)].validUntil
    ensures CertsAgree(db, rows.trainees, rows.courses, certBy)
  {
    forall t: Id, c: Id | t in rows.trainees && c in rows.courses
      ensures IsLatest(db.certificates, t, c, if (t, c) in certBy then Some(certBy[(t, c)]) else None)
    {
      forall cert | cert in db.certificates && CertifiesFor(cert, t, c)
        ensures (t, c) in certBy && cert.validUntil <= certBy[(t, c)].validUntil
      {
        assert cert in rows.certs;
        var i :| 0 <= i < |rows.certs| && rows.certs[i] == cert;
      }
    }
  }

  method OpenPairs(rows: Rows) returns (openPairs: set<Key>)
    ensures forall key :: key in openPairs <==> key in rows.open
  {
    openPairs := {};
    for n := 0 to |rows.open|
      invariant forall key :: key in openPairs <==> key in rows.open[..n]
    {
      openPairs := openPairs + {rows.open[n]};
    }
  }

  method RequiredFlags(db: Db, ts: seq<Id>, cs: seq<Id>) returns (required: map<Key, bool>)
    requires (forall t :: t in ts ==> t < |db.trainees|) && (forall c :: c in cs ==> c < |db.courses|)
    ensures forall key: Key :: key in required <==> key.0 in ts && key.1 in cs
    ensures forall key: Key :: key in required ==> required[key] == IsRequired(db, key.0, key.1)
  {
    required := map[];
    for j := 0 to |cs|
      invariant forall key: Key :: key in required <==> key.0 in ts && key.1 in cs[..j]
      invariant forall key: Key :: key in required ==> required[key] == IsRequired(db, key.0, key.1)
    {
      var course := cs[j];
      assert course in cs;
      var assignments := db.courses[course].assignments;
      for i := 0 to |ts|
        invariant forall key: Key :: key in required <==>
                    (key.0 in ts && key.1 in cs[..j]) || (key.0 in ts[..i] && key.1 == course)
        invariant forall key: Key :: key in required ==> required[key] == IsRequired(db, key.0, key.1)
      {
        var trainee := ts[i];
        assert trainee in ts;
        required := required[(trainee, course) :=
          exists k :: 0 <= k < |assignments| && Matches(assignments[k], db.trainees[trainee])];
      }
    }
  }

  /** One cell as the loader sees it. */
  function LoadedCell(required: bool, certBy: map<Key, Certificate>, openPairs: set<Key>, key: Key, now: Instant,
                      leadDays: int): State {
    ComplianceState(required, if key in certBy then Some(certBy[key].validUntil) else None, key in openPairs, now,
                    leadDays)
  }

  method ResolveCells(ts: seq<Id>, cs: seq<Id>, required: map<Key, bool>, certBy: map<Key, Certificate>,
                      openPairs: set<Key>, now: Instant, leadDays: int)
    returns (states: map<Key, State>)
    requires forall key: Key :: key in required <==> key.0 in ts && key.1 in cs
    ensures forall key: Key :: key in states <==> key.0 in ts && key.1 in cs
    ensures forall key: Key :: key in states ==>
              states[key] == LoadedCell(required[key], certBy, openPairs, key, now, leadDays)
  {
    states := map[];
    for j := 0 to |cs|
      invariant forall key: Key :: key in states <==> key.0 in ts && key.1 in cs[..j]
      invariant forall key: Key :: key in states ==>
                  key in required && states[key] == LoadedCell(required[key], certBy, openPairs, key, now, leadDays)
    {
      var course := cs[j];
      assert course in cs;
      for i := 0 to |ts|
        invariant forall key: Key :: key in states <==>
                    (key.0 in ts && key.1 in cs[..j]) || (key.0 in ts[..i] && key.1 == course)
        invariant forall key: Key :: key in states ==>
                    key in required && states[key] == LoadedCell(required[key], certBy, openPairs, key, now, leadDays)
      {
        assert ts[i] in ts;
        var key := (ts[i], course);
        states := states[key := LoadedCell(required[key], certBy, openPairs, key, now, leadDays)];
      }
    }
  }

  lemma CellFromRows(db: Db, rows: Rows, certBy: map<Key, Certificate>, t: Id, c: Id, now: Instant, leadDays: int)
    requires t in rows.trainees && t < |db.trainees| && c in rows.courses && c < |db.courses|
    requires CertsAgree(db, rows.trainees, rows.courses, certBy) && AnswersOpen(db, now, rows)
    ensures Cell(db, t, c, now, leadDays) ==
            ComplianceState(IsRequired(db, t, c), if (t, c) in certBy then Some(certBy[(t, c)].validUntil) else None,
                            (t, c) in rows.open, now, leadDays)
  {
    TiesAreHarmless(db, t, c, if (t, c) in certBy then Some(certBy[(t, c)]) else None);
  }

  lemma LoadedStatesAgree(db: Db, rows: Rows, required: map<Key, bool>, certBy: map<Key, Certificate>,
                          openPairs: set<Key>, states: map<Key, State>, now: Instant, leadDays: int)
    requires (forall t :: t in rows.trainees ==> t < |db.trainees|)
      && (forall c :: c in rows.courses ==> c < |db.courses|)
    requires CertsAgree(db, rows.trainees, rows.courses, certBy)
    requires AnswersOpen(db, now, rows) && forall key :: key in openPairs <==> key in rows.open
    requires forall key: Key :: key in required <==> key.0 in rows.trainees && key.1 in rows.courses
    requires forall key: Key :: key in required ==> required[key] == IsRequired(db, key.0, key.1)
    requires forall key: Key :: key in states <==> key.0 in rows.trainees && key.1 in rows.courses
    requires forall key: Key :: key in states ==>
               states[key] == LoadedCell(required[key], certBy, openPairs, key, now, leadDays)
    ensures StatesAgree(db, rows.trainees, rows.courses, now, leadDays, states)
  {
    forall key: Key | key in states ensures states[key] == Cell(db, key.0, key.1, now, leadDays) {
      CellFromRows(db, rows, certBy, key.0, key.1, now, leadDays);
      assert key == (key.0, key.1);
    }
  }

  method ClearedFlags(db: Db, ts: seq<Id>, cs: seq<Id>, states: map<Key, State>, now: Instant, leadDays: int)
    returns (cleared: map<Id, bool>)
    requires StatesAgree(db, ts, cs, now, leadDays, states)
    ensures ClearedAgree(db, ts, cs, now, leadDays, cleared)
  {
    cleared := map[];
    for i := 0 to |ts|
      invariant forall t: Id :: t in cleared <==> t in ts[..i]
      invariant forall t: Id :: t in cleared ==> (cleared[t] <==> IsCleared(db, t, cs, now, leadDays))
    {
      var trainee := ts[i];
      assert trainee in ts;
      assert forall c :: c in cs ==> (trainee, c) in states;
      cleared := cleared[trainee := !exists c :: c in cs && states[(trainee, c)] == Overdue];
    }
  }

  method BuildComplianceMatrix(db: Db, f: Filters, blockedOnly: bool, now: Instant, leadDays: int, rows: Rows)
    returns (m: Matrix)
    requires Answers(db, f, now, rows)
    ensures IsMatrix(db, rows, blockedOnly, now, leadDays, m)
  {
    var trainees := rows.trainees;
    var courses := rows.courses;
    if trainees == [] || courses == [] {
      var allClear := map t | t in trainees :: true;
      return Matrix(trainees, courses, map[], map[], allClear, Kpis(0, 0, 0, 0));
    }
    var certBy := LatestCerts(db, rows);
    var openPairs := OpenPairs(rows);
    var required := RequiredFlags(db, trainees, courses);
    var states := ResolveCells(trainees, courses, required, certBy, openPairs, now, leadDays);
    LoadedStatesAgree(db, rows, required, certBy, openPairs, states, now, leadDays);
    var cleared := ClearedFlags(db, trainees, courses, states, now, leadDays);
    if blockedOnly {
      trainees, states, certBy, cleared := KeepBlocked(db, trainees, courses, states, certBy, cleared, now, leadDays);
    }
    m := Matrix(trainees, courses, states, certBy, cleared, CountKpis(states, cleared));
  }

  /** Drops the fully cleared trainees from every part of the view. */
  method KeepBlocked(db: Db, ts: seq<Id>, cs: seq<Id>, states: map<Key, State>, certBy: map<Key, Certificate>,
                     cleared: map<Id, bool>, now: Instant, leadDays: int)
    returns (trainees: seq<Id>, states': map<Key, State>, certBy': map<Key, Certificate>, cleared': map<Id, bool>)
    requires StatesAgree(db, ts, cs, now, leadDays, states) && CertsAgree(db, ts, cs, certBy)
    requires ClearedAgree(db, ts, cs, now, leadDays, cleared)
    ensures trainees == Blocked(db, ts, cs, now, leadDays)
    ensures StatesAgree(db, trainees, cs, now, leadDays, states') && CertsAgree(db, trainees, cs, certBy')
    ensures ClearedAgree(db, trainees, cs, now, leadDays, cleared')
  {
    trainees := Uncleared(ts, cleared);
    UnclearedAreBlocked(db, ts, cs, now, leadDays, cleared);
    var visible := SetOf(trainees);
    states' := map key | key in states && key.0 in visible :: states[key];
    cleared' := map t | t in cleared && t in visible :: cleared[t];
    certBy' := map key | key in certBy && key.0 in visible :: certBy[key];
    assert forall t :: t in trainees <==> t in visible;
    forall t: Id, c: Id | t in trainees && c in cs
      ensures IsLatest(db.certificates, t, c, if (t, c) in certBy' then Some(certBy'[(t, c)]) else None)
    {
      assert IsLatest(db.certificates, t, c, if (t, c) in certBy then Some(certBy[(t, c)]) else None);
    }
  }

  function Uncleared(ts: seq<Id>, cleared: map<Id, bool>): (shown: seq<Id>)
    requires forall t :: t in ts ==> t in cleared
    ensures forall t :: t in shown <==> t in ts && !cleared[t]
  {
    if ts == [] then []
    else (if cleared[ts[0]] then [] else [ts[0]]) + Uncleared(ts[1..], cleared)
  }

  lemma {:induction false} UnclearedAreBlocked(db: Db, ts: seq<Id>, cs: seq<Id>, now: Instant, leadDays: int,
                                              cleared: map<Id, bool>)
    requires forall t :: t in ts ==> t in cleared && (cleared[t] <==> IsCleared(db, t, cs, now, leadDays))
    ensures Uncleared(ts, cleared) == Blocked(db, ts, cs, now, leadDays)
  {
    if ts == [] {
    } else {
      UnclearedAreBlocked(db, ts[1..], cs, now, leadDays, cleared);
    }
  }

  // ---------- The matrix does not depend on the database's choices ----------

  ghost predicate SameMembers(xs: seq<Id>, ys: seq<Id>) {
    forall x: Id :: x in xs <==> x in ys
  }

  lemma SameRowMembers(db: Db, f: Filters, now: Instant, rows: Rows, rows': Rows)
    requires Answers(db, f, now, rows) && Answers(db, f, now, rows')
    ensures SameMembers(rows.trainees, rows'.trainees) && SameMembers(rows.courses, rows'.courses)
    ensures rows.trainees == [] <==> rows'.trainees == []
    ensures rows.courses == [] <==> rows'.courses == []
  {
    SameMembersEmpty(rows.trainees, rows'.trainees);
    SameMembersEmpty(rows.courses, rows'.courses);
  }

  lemma SameClearance(db: Db, t: Id, cs: seq<Id>, cs': seq<Id>, now: Instant, leadDays: int)
    requires SameMembers(cs, cs')
    ensures IsCleared(db, t, cs, now, leadDays) == IsCleared(db, t, cs', now, leadDays)
  {
  }

  lemma SameBlockedMembers(db: Db, ts: seq<Id>, ts': seq<Id>, cs: seq<Id>, cs': seq<Id>, now: Instant, leadDays: int)
    requires SameMembers(ts, ts') && SameMembers(cs, cs')
    ensures SameMembers(Blocked(db, ts, cs, now, leadDays), Blocked(db, ts', cs', now, leadDays))
  {
    forall t: Id ensures IsCleared(db, t, cs, now, leadDays) == IsCleared(db, t, cs', now, leadDays) {
      SameClearance(db, t, cs, cs', now, leadDays);
    }
  }

  lemma SameStates(db: Db, ts: seq<Id>, ts': seq<Id>, cs: seq<Id>, cs': seq<Id>, now: Instant, leadDays: int,
                   states: map<Key, State>, states': map<Key, State>)
    requires SameMembers(ts, ts') && SameMembers(cs, cs')
    requires StatesAgree(db, ts, cs, now, leadDays, states) && StatesAgree(db, ts', cs', now, leadDays, states')
    ensures states == states'
  {
  }

  lemma SameCleared(db: Db, ts: seq<Id>, ts': seq<Id>, cs: seq<Id>, cs': seq<Id>, now: Instant, leadDays: int,
                    cleared: map<Id, bool>, cleared': map<Id, bool>)
    requires SameMembers(ts, ts') && SameMembers(cs, cs')
    requires ClearedAgree(db, ts, cs, now, leadDays, cleared) && ClearedAgree(db, ts', cs', now, leadDays, cleared')
    ensures cleared == cleared'
  {
    forall t | t in cleared ensures t in cleared' && cleared[t] == cleared'[t] {
      SameClearance(db, t, cs, cs', now, leadDays);
    }
  }

  /** Two answers to the same queries, rows ordered and ties broken differently, give the same cells,
      the same clearances and the same headline figures. */
  lemma OrderAndTiesAreHarmless(db: Db, f: Filters, blockedOnly: bool, now: Instant, leadDays: int,
                                rows: Rows, rows': Rows, m: Matrix, m': Matrix)
    requires Answers(db, f, now, rows) && Answers(db, f, now, rows')
    requires IsMatrix(db, rows, blockedOnly, now, leadDays, m) && IsMatrix(db, rows', blockedOnly, now, leadDays, m')
    ensures m.states == m'.states && m.cleared == m'.cleared && m.kpis == m'.kpis
  {
    SameRowMembers(db, f, now, rows, rows');
    if rows.trainees != [] && rows.courses != [] {
      SameBlockedMembers(db, rows.trainees, rows'.trainees, rows.courses, rows'.courses, now, leadDays);
      SameStates(db, m.trainees, m'.trainees, rows.courses, rows'.courses, now, leadDays, m.states, m'.states);
      SameCleared(db, m.trainees, m'.trainees, rows.courses, rows'.courses, now, leadDays, m.cleared, m'.cleared);
    } else {
      assert m.cleared == m'.cleared;
    }
  }

  lemma SameMembersEmpty(xs: seq<Id>, ys: seq<Id>)
    requires forall x: Id :: x in xs <==> x in ys
    ensures xs == [] <==> ys == []
  {
    assert xs == [] || xs[0] in xs;
    assert ys == [] || ys[0] in ys;
  }

  // ---------- blocked_only ----------

  lemma SubsetCard<T>(a: set<T>, b: set<T>)
    requires a <= b
    ensures |a| <= |b|
  {
    assert b == a + (b - a);
  }

  /** On a non-empty grid, hiding the cleared trainees leaves the number of blocked workers and of overdue
      courses as they were and never raises the other two figures. */
  lemma BlockedOnlyKpis(db: Db, f: Filters, now: Instant, leadDays: int, rows: Rows, rows': Rows, full: Matrix,
                        filtered: Matrix)
    requires Answers(db, f, now, rows) && Answers(db, f, now, rows')
    requires IsMatrix(db, rows, false, now, leadDays, full) && IsMatrix(db, rows', true, now, leadDays, filtered)
    ensures filtered.kpis.blocked == full.kpis.blocked && filtered.kpis.overdueCourses == full.kpis.overdueCourses
    ensures filtered.kpis.dueSoon <= full.kpis.dueSoon && filtered.kpis.inFlight <= full.kpis.inFlight
  {
    SameRowMembers(db, f, now, rows, rows');
    if rows.trainees != [] && rows.courses != [] {
      SameBlockedMembers(db, rows.trainees, rows'.trainees, rows.courses, rows'.courses, now, leadDays);
      FilteredKpis(db, rows, rows'.courses, now, leadDays, full, filtered);
    }
  }

  lemma FilteredKpis(db: Db, rows: Rows, cs: seq<Id>, now: Instant, leadDays: int, full: Matrix, filtered: Matrix)
    requires SameMembers(rows.courses, cs)
    requires SameMembers(filtered.trainees, Blocked(db, rows.trainees, rows.courses, now, leadDays))
    requires StatesAgree(db, rows.trainees, rows.courses, now, leadDays, full.states)
    requires StatesAgree(db, filtered.trainees, cs, now, leadDays, filtered.states)
    requires ClearedAgree(db, rows.trainees, rows.courses, now, leadDays, full.cleared)
    requires ClearedAgree(db, filtered.trainees, cs, now, leadDays, filtered.cleared)
    ensures var all, kept := CountKpis(full.states, full.cleared), CountKpis(filtered.states, filtered.cleared);
            && kept.blocked == all.blocked && kept.overdueCourses == all.overdueCourses
            && kept.dueSoon <= all.dueSoon && kept.inFlight <= all.inFlight
  {
    forall t: Id ensures IsCleared(db, t, rows.courses, now, leadDays) == IsCleared(db, t, cs, now, leadDays) {
      SameClearance(db, t, rows.courses, cs, now, leadDays);
    }
    SameBlocked(full, filtered);
    SameOverdue(db, rows, cs, now, leadDays, full, filtered);
    FewerCells(full.states, filtered.states, DueSoon);
    FewerCells(full.states, filtered.states, InFlight);
  }

  lemma FewerCells(all: map<Key, State>, kept: map<Key, State>, s: State)
    requires forall key :: key in kept ==> key in all && all[key] == kept[key]
    ensures |set key | key in kept && kept[key] == s| <= |set key | key in all && all[key] == s|
  {
    SubsetCard(set key | key in kept && kept[key] == s, set key | key in all && all[key] == s);
  }

  lemma SameBlocked(full: Matrix, filtered: Matrix)
    requires forall t: Id :: t in filtered.cleared <==> t in full.cleared && !full.cleared[t]
    requires forall t: Id :: t in filtered.cleared ==> !filtered.cleared[t]
    ensures CountKpis(full.states, full.cleared).blocked == CountKpis(filtered.states, filtered.cleared).blocked
  {
    assert (set t | t in full.cleared && !full.cleared[t]) == (set t | t in filtered.cleared && !filtered.cleared[t]);
  }

  lemma SameOverdue(db: Db, rows: Rows, cs: seq<Id>, now: Instant, leadDays: int, full: Matrix, filtered: Matrix)
    requires StatesAgree(db, rows.trainees, rows.courses, now, leadDays, full.states)
    requires StatesAgree(db, filtered.trainees, cs, now, leadDays, filtered.states)
    requires SameMembers(rows.courses, cs)
    requires SameMembers(filtered.trainees, Blocked(db, rows.trainees, rows.courses, now, leadDays))
    ensures CountKpis(full.states, full.cleared).overdueCourses
            == CountKpis(filtered.states, filtered.cleared).overdueCourses
  {
    forall key: Key | key in full.states && full.states[key] == Overdue
      ensures key in filtered.states && filtered.states[key] == Overdue
    {
      assert !IsCleared(db, key.0, rows.courses, now, leadDays);
    }
    assert (set key | key in full.states && full.states[key] == Overdue :: key.1)
        == (set key | key in filtered.states && filtered.states[key] == Overdue :: key.1);
  }

  /** The blocked-only view shows blocked trainees only, unless there is no active course at all: then it
      shows every trainee, each marked as cleared. */
  lemma BlockedOnlyHonouredIff(db: Db, f: Filters, now: Instant, leadDays: int, rows: Rows, m: Matrix)
    requires Answers(db, f, now, rows) && IsMatrix(db, rows, true, now, leadDays, m)
    ensures (forall t :: t in m.trainees ==> t in m.cleared && !m.cleared[t]) <==>
              rows.trainees == [] || rows.courses != []
  {
    Issuing.Occupied(rows.trainees);
    if rows.trainees != [] && rows.courses != [] {
      BlockedShowsUncleared(db, rows.trainees, rows.courses, now, leadDays, m);
    }
  }

  lemma BlockedShowsUncleared(db: Db, ts: seq<Id>, cs: seq<Id>, now: Instant, leadDays: int, m: Matrix)
    requires m.trainees == Blocked(db, ts, cs, now, leadDays)
    requires ClearedAgree(db, m.trainees, cs, now, leadDays, m.cleared)
    ensures forall t :: t in m.trainees ==> t in m.cleared && !m.cleared[t]
  {
  }

  // ---------- Dashboard and scheduler ----------

  /** The one case in which dashboard and scheduler part: with a negative lead, a certificate that has run
      out but whose shifted end lies ahead is OVERDUE on the board and not due for the scheduler. */
  predicate LeadGap(db: Db, t: Id, c: Id, now: Instant, leadDays: int) {
    && IsRequired(db, t, c) && !HasOpenEnrolment(db, t, c, now)
    && var until := ValidUntil(db, t, c);
       until.Some? && until.value <= now < until.value - Days(leadDays)
  }

  /** An active trainee is on the scheduler's due list for a course exactly when the dashboard cell is OVERDUE
      or DUE_SOON, save for the gap a negative lead opens. */
  lemma SchedulerAgreesIff(db: Db, t: Id, c: Id, now: Instant, leadDays: int)
    requires t < |db.trainees| && db.trainees[t].isActive && c < |db.courses|
    ensures (t in Issuing.DueList(db, c, now, leadDays) <==> Cell(db, t, c, now, leadDays) in {Overdue, DueSoon}) <==>
              !LeadGap(db, t, c, now, leadDays)
  {
    Issuing.DueAmongExact(db, |db.trainees|, c, now, leadDays);
  }

  /** With a lead of zero or more days the matrix and the scheduler never disagree, cell by cell. */
  lemma MatrixAgreesWithScheduler(db: Db, f: Filters, blockedOnly: bool, now: Instant, leadDays: nat, rows: Rows,
                                  m: Matrix, key: Key)
    requires Answers(db, f, now, rows) && IsMatrix(db, rows, blockedOnly, now, leadDays, m) && key in m.states
    ensures key.1 < |db.courses|
    ensures m.states[key] in {Overdue, DueSoon} <==> key.0 in Issuing.DueList(db, key.1, now, leadDays)
    ensures Issuing.Distinct(Issuing.DueList(db, key.1, now, leadDays))
  {
    SchedulerAgreesIff(db, key.0, key.1, now, leadDays);
    Issuing.DueAmongExact(db, |db.trainees|, key.1, now, leadDays);
    assert Days(leadDays) >= 0;
  }

  /** A tick turns every OVERDUE and DUE_SOON cell of an active course with live links into IN_FLIGHT. */
  lemma TickClearsTheBoard(db: Db, t: Id, c: Id, now: Instant, leadDays: nat)
    requires t < |db.trainees| && db.trainees[t].isActive && c < |db.courses| && db.courses[c].isActive
    requires Issuing.IssuesLiveLinks(db, c)
    ensures Cell(Issuing.TickResult(db, now, leadDays), t, c, now, leadDays) ==
            if Cell(db, t, c, now, leadDays) in {Overdue, DueSoon} then InFlight else Cell(db, t, c, now, leadDays)
  {
    var after := Issuing.TickResult(db, now, leadDays);
    assert Days(leadDays) >= 0;
    SchedulerAgreesIff(db, t, c, now, leadDays);
    Issuing.DueAmongExact(db, |db.trainees|, c, now, leadDays);
    TickOpensExactly(db, t, c, now, leadDays);
    assert IsRequired(after, t, c) <==> IsRequired(db, t, c);
    assert ValidUntil(after, t, c) == ValidUntil(db, t, c);
  }

  lemma TickOpensExactly(db: Db, t: Id, c: Id, now: Instant, leadDays: int)
    requires t < |db.trainees| && c < |db.courses| && db.courses[c].isActive && Issuing.IssuesLiveLinks(db, c)
    ensures HasOpenEnrolment(Issuing.TickResult(db, now, leadDays), t, c, now) <==>
              HasOpenEnrolment(db, t, c, now) || Issuing.IsDue(db, t, c, now, leadDays)
  {
    var more := Issuing.TickLinks(db, |db.courses|, now, leadDays);
    Issuing.OpenAfterAdd(db, more, t, c, now);
    if Issuing.IsDue(db, t, c, now, leadDays) {
      var e := Issuing.TickOpens(db, |db.courses|, t, c, now, leadDays);
    } else if e :| e in more && IsFor(db, e, t, c) && IsOpen(e, now) {
      Issuing.TickIssuesOnlyDue(db, |db.courses|, e, now, leadDays);
      assert false;
    }
  }

  // ---------- Where board, scheduler and filter part ----------

  const OPERATOR: Trainee := Trainee("operator", None, true)

  const FEBRUARY: DateTime := DateTime(Date(2026, 2, 1), 0)
  const MARCH: DateTime := DateTime(Date(2026, 3, 1), 0)

  /** One trainee and one course for everybody: issued, passed, declared and certified at `began`. */
  function Certified(began: Instant, ends: Instant): Db {
    var question := Question("q", [Choice("a", true)]);
    Db([OPERATOR], [Course(true, [Assignment(None, None)])], [Version(0, 1, true, 0.8, 1, 7, [question])],
       [Enrolment(0, 0, began, began + Days(7), Submitted, Sent(None, None, None))],
       [Attempt(0, began, Some(Graded(began, 1.0, true, [Answer("q", {"a"}, true)])))],
       [Declaration(0, "operator", began)],
       [Certificate(0, 0, 0, 0, 0, began, ends, false)])
  }

  lemma CertifiedIsGraded(began: Instant, ends: Instant)
    ensures var db := Certified(began, ends);
            KeysResolve(db) && Certification.GradedHonestly(db.versions[0], db.attempts[0].graded.value)
  {
    var db := Certified(began, ends);
    var v, g := db.versions[0], db.attempts[0].graded.value;
    assert Certification.CorrectIds(v.questions[0]) == {"a"} by {
      assert v.questions[0].options[0] == Choice("a", true);
    }
    assert g.snapshot[..0] == [] && Certification.CountCorrect(g.snapshot) == 1;
  }

  lemma CertifiedExactlyOnce(began: Instant, ends: Instant)
    requires Certification.Lasts(began, ends, 1) && KeysResolve(Certified(began, ends))
    ensures Certification.CertifiedExactly(Certified(began, ends))
  {
    var db := Certified(began, ends);
    assert Certification.Passed(db, 0);
    assert Certification.HasCertificate(db, 0) by { assert db.certificates[0].attempt == 0; }
  }

  lemma CertifiedIsSound(began: Instant, ends: Instant)
    requires Certification.Lasts(began, ends, 1)
    ensures Certification.Sound(Certified(began, ends))
  {
    CertifiedIsGraded(began, ends);
    CertifiedExactlyOnce(began, ends);
    assert Certification.IsGraded(Certified(began, ends), 0);
  }

  lemma EndsBetweenBoardAndScheduler(began: Instant, ends: Instant)
    ensures var db := Certified(began, ends);
            Cell(db, 0, 0, ends, -1) == Overdue && 0 !in Issuing.DueList(db, 0, ends, -1)
  {
    var db := Certified(began, ends);
    assert Matches(db.courses[0].assignments[0], db.trainees[0]);
    assert LatestAmong(db.certificates, 0, 0, 0) == None;
    assert LatestAmong(db.certificates, 1, 0, 0) == Some(ends);
    assert LeadGap(db, 0, 0, ends, -1);
    SchedulerAgreesIff(db, 0, 0, ends, -1);
  }

  /** A month's certificate from the first of February 2026, the moment it ends, and a lead of minus one day:
      OVERDUE on the board, not due. */
  lemma NegativeLeadDisagrees()
    ensures ValidTime(FEBRUARY) && ValidTime(MARCH)
    ensures var db, now := Certified(Stamp(FEBRUARY), Stamp(MARCH)), Stamp(MARCH);
            && Certification.Sound(db)
            && Cell(db, 0, 0, now, -1) == Overdue && 0 !in Issuing.DueList(db, 0, now, -1)
  {
    assert AddMonths(FEBRUARY.date, 1) == Some(MARCH.date);
    assert Certification.Lasts(Stamp(FEBRUARY), Stamp(MARCH), 1);
    CertifiedIsSound(Stamp(FEBRUARY), Stamp(MARCH));
    EndsBetweenBoardAndScheduler(Stamp(FEBRUARY), Stamp(MARCH));
  }

  /** A plant without courses: the blocked-only view shows its one trainee, as cleared. */
  lemma BlockedOnlyShowsCleared(now: Instant, leadDays: int)
    ensures var db, rows := Db([OPERATOR], [], [], [], [], [], []), Rows([0], [], [], []);
            var m := Matrix([0], [], map[], map[], map[0 := true], Kpis(0, 0, 0, 0));
            && Answers(db, Filters(None, [], None, []), now, rows)
            && IsMatrix(db, rows, true, now, leadDays, m)
  {
    assert Choices(None, []) == {};
  }
}
