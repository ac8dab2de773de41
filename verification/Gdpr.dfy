/** Erasure requests: wiping personal data from the live tables and from the audit log. */
module Gdpr {
  import opened Common
  import opened AuditChain

  type Id = string

  datatype Trainee = Trainee(phone: string, fullName: string, isActive: bool)

  datatype Declaration = Declaration(id: Id, attemptId: Id, typedName: string, signaturePng: Option<string>,
                                     ipAddress: Option<string>, userAgent: Option<string>)

  datatype Link = Link(id: Id, owner: Id)  // an enrolment, attempt or certification and the row it belongs to

  datatype GdprError = NotFound(id: Id) | PhoneTaken

  datatype Summary = Summary(auditRowsRedacted: nat, declarationsRedacted: nat)

  /** The ids of the rows satisfying `about`, in id order, as the query returns them. */
  function SelectIds(rows: seq<AuditRow>, about: AuditRow -> bool): (ids: seq<int>)
    ensures forall x :: x in ids <==> exists i :: 0 <= i < |rows| && rows[i].id == x && about(rows[i])
  {
    if rows == [] then []
    else
      var rest := SelectIds(rows[1..], about);
      assert forall i :: 0 <= i < |rows| ==> i == 0 || rows[i] == rows[1..][i - 1];
      assert forall i :: 0 <= i < |rows[1..]| ==> rows[1..][i] == rows[i + 1];
      if about(rows[0]) then [rows[0].id] + rest else rest
  }

  /** Erasing by query: every row about the subject carries the marker, every other entry is as it
      was, and a verifying log still verifies. */
  ghost predicate Erased(hash: Hash, before: seq<AuditRow>, after: seq<AuditRow>, about: AuditRow -> bool,
                         marker: Json)
  {
    && |after| == |before|
    && (forall i :: 0 <= i < |before| ==>
          && after[i].id == before[i].id
          && after[i].entry == if about(before[i]) then before[i].entry.(diff := marker) else before[i].entry)
    && (Intact(hash, before) ==> Intact(hash, after))
  }

  lemma SelectedExactly(rows: seq<AuditRow>, about: AuditRow -> bool)
    requires InIdOrder(rows)
    ensures forall i :: 0 <= i < |rows| ==> (about(rows[i]) <==> rows[i].id in SetOf(SelectIds(rows, about)))
    ensures SelectIds(rows, about) != [] ==>
              exists x :: x in Ids(rows) && IsLeast(x, SetOf(SelectIds(rows, about)))
  {
    var ids := SelectIds(rows, about);
    forall i | 0 <= i < |rows| && rows[i].id in SetOf(ids) ensures about(rows[i]) {
      var k :| 0 <= k < |rows| && rows[k].id == rows[i].id && about(rows[k]);
      assert k == i;
    }
    if ids != [] {
      assert Least(ids) in SetOf(ids);
      var f :| 0 <= f < |rows| && rows[f].id == Least(ids) && about(rows[f]);
      assert rows[f].id in Ids(rows);
    }
  }

  lemma QueryErases(hash: Hash, rows: seq<AuditRow>, about: AuditRow -> bool, marker: Json)
    requires InIdOrder(rows)
    ensures Erased(hash, rows, Redacted(hash, rows, SelectIds(rows, about), marker), about, marker)
    ensures RedactedCount(rows, SelectIds(rows, about)) == |MatchingIds(rows, about)|
  {
    var ids := SelectIds(rows, about);
    var after := Redacted(hash, rows, ids, marker);
    SelectedExactly(rows, about);
    RedactedExactly(hash, rows, ids, marker);
    QueryCounts(rows, about);
    if ids != [] {
      RedactionMarks(hash, rows, after, SetOf(ids), marker, RedactedCount(rows, ids));
      forall i | 0 <= i < |rows|
        ensures SameApartFromChain(after[i], Touched(rows[i], SetOf(ids), marker))
      {
      }
    }
  }

  /** The distinct ids of the rows about the subject. */
  ghost function MatchingIds(rows: seq<AuditRow>, about: AuditRow -> bool): set<int> {
    set i | 0 <= i < |rows| && about(rows[i]) :: rows[i].id
  }

  lemma QueryCounts(rows: seq<AuditRow>, about: AuditRow -> bool)
    requires InIdOrder(rows)
    ensures RedactedCount(rows, SelectIds(rows, about)) == |MatchingIds(rows, about)|
  {
    var ids := SelectIds(rows, about);
    SelectedAreMatching(rows, about);
    if ids == [] {
      assert SetOf(ids) == {};
    } else {
      PresentCount(rows, ids);
      assert SetOf(ids) * Ids(rows) == SetOf(ids);
    }
  }

  lemma SelectedAreMatching(rows: seq<AuditRow>, about: AuditRow -> bool)
    requires InIdOrder(rows)
    ensures SetOf(SelectIds(rows, about)) == MatchingIds(rows, about) <= Ids(rows)
  {
    SelectedExactly(rows, about);
  }

  /** The entry that makes the redaction itself visible to an auditor. */
  ghost predicate NotesErasure(row: AuditRow, subjectId: Id, note: map<string, Json>, redacted: nat) {
    && row.entry.entityType == "gdpr" && row.entry.action == "gdpr_redacted"
    && row.entry.entityId == Some(subjectId)
    && row.entry.diff == Object(note["audit_rows_redacted" := Number(redacted)])
  }

  /** What an erasure request leaves in the log: the rows about the subject marked, and one entry more that says
      how many they were. */
  ghost predicate LogsErasure(hash: Hash, before: seq<AuditRow>, after: seq<AuditRow>, about: AuditRow -> bool,
                              nowIso: string, subjectId: Id, note: map<string, Json>, redacted: nat)
  {
    && |after| == |before| + 1
    && Erased(hash, before, after[..|before|], about, Marker(nowIso))
    && Extends(hash, after[..|before|], after[|before|])
    && NotesErasure(after[|before|], subjectId, note, redacted)
    && redacted == |MatchingIds(before, about)|
    && (Intact(hash, before) ==> Intact(hash, after))
  }

  function TraineeNote(wiped: nat): map<string, Json> {
    map["subject_kind" := Text("trainee"), "declarations_redacted" := Number(wiped)]
  }

  const USER_NOTE: map<string, Json> :=
    map["subject_kind" := Text("user"), "note" := Text("user row retained for employment-record obligation")]

  function OwnedBy(links: seq<Link>, owners: set<Id>): set<Id> {
    set l | l in links && l.owner in owners :: l.id
  }

  function Short(id: Id): string {
    if |id| <= 8 then id else id[..8]
  }

  function Mask(id: Id): string {
    "[redacted-" + (Short(id) + "]")
  }

  /** The phone column is unique: the mask must not be some other trainee's phone. */
  predicate MaskTaken(trainees: map<Id, Trainee>, id: Id) {
    exists other :: other in trainees && other != id && trainees[other].phone == Mask(id)
  }

  lemma MasksCoincideIff(a: Id, b: Id)
    ensures Mask(a) == Mask(b) <==> Short(a) == Short(b)
  {
    if Mask(a) == Mask(b) {
      assert Mask(a)[10..] == Short(a) + "]" && Mask(b)[10..] == Short(b) + "]";
      assert (Short(a) + "]")[..|Short(a)|] == Short(a) && (Short(b) + "]")[..|Short(b)|] == Short(b);
    }
  }

  /** An erasure fails exactly when another trainee with the same first eight characters in the id wears that
      mask, or another trainee has it as a phone of their own. */
  lemma ErasureClashesIff(trainees: map<Id, Trainee>, id: Id)
    ensures MaskTaken(trainees, id) <==>
              || (exists other :: other in trainees && other != id && trainees[other].phone == Mask(other)
                                  && Short(other) == Short(id))
              || (exists other :: other in trainees && other != id && trainees[other].phone == Mask(id)
                                  && Short(other) != Short(id))
  {
    forall other ensures Mask(other) == Mask(id) <==> Short(other) == Short(id) { MasksCoincideIff(other, id); }
  }

  const BLANK := "[redacted]"

  // ---------- Runs of erasures ----------

  /** The trainees after one erasure request: a refused one changes nothing. */
  function Erasing(trainees: map<Id, Trainee>, id: Id): map<Id, Trainee> {
    if id in trainees && !MaskTaken(trainees, id) then trainees[id := Trainee(Mask(id), BLANK, false)] else trainees
  }

  function ErasingAll(trainees: map<Id, Trainee>, ids: seq<Id>): map<Id, Trainee> {
    if ids == [] then trainees else Erasing(ErasingAll(trainees, ids[..|ids| - 1]), ids[|ids| - 1])
  }

  /** Phones as people have them: none reads like a mask. */
  ghost predicate RealPhones(trainees: map<Id, Trainee>) {
    forall t, any :: t in trainees ==> trainees[t].phone != Mask(any)
  }

  lemma {:induction false} KeepsOrErases(trainees: map<Id, Trainee>, ids: seq<Id>)
    ensures ErasingAll(trainees, ids).Keys == trainees.Keys
    ensures forall t :: t in trainees ==>
              || ErasingAll(trainees, ids)[t] == trainees[t]
              || (t in ids && ErasingAll(trainees, ids)[t].phone == Mask(t))
  {
    if ids == [] {
    } else {
      KeepsOrErases(trainees, ids[..|ids| - 1]);
    }
  }

  /** Once a trainee has been asked to be erased, somebody of the same eight characters wears the mask. */
  lemma {:induction false} SomebodyWearsIt(trainees: map<Id, Trainee>, ids: seq<Id>, asked: Id) returns (t: Id)
    requires RealPhones(trainees) && asked in trainees && asked in ids
    ensures t in ids && t in trainees && Short(t) == Short(asked)
    ensures t in ErasingAll(trainees, ids) && ErasingAll(trainees, ids)[t].phone == Mask(t)
  {
    var rest, last := ids[..|ids| - 1], ids[|ids| - 1];
    KeepsOrErases(trainees, rest);
    if asked in rest {
      t := SomebodyWearsIt(trainees, rest, asked);
    } else if MaskTaken(ErasingAll(trainees, rest), asked) {
      t :| t in trainees && t != asked && ErasingAll(trainees, rest)[t].phone == Mask(asked);
      MasksCoincideIff(t, asked);
    } else {
      t := asked;
    }
  }

  /** Over any run of requests on real phones, a first request for a trainee is refused if and only if one
      was made before for another trainee whose id starts with the same eight characters. */
  lemma FirstErasureFailsIff(trainees: map<Id, Trainee>, earlier: seq<Id>, id: Id)
    requires RealPhones(trainees) && id in trainees && id !in earlier
    ensures MaskTaken(ErasingAll(trainees, earlier), id) <==>
              exists other :: other in earlier && other in trainees && Short(other) == Short(id)
  {
    var after := ErasingAll(trainees, earlier);
    KeepsOrErases(trainees, earlier);
    if MaskTaken(after, id) {
      var other :| other in after && other != id && after[other].phone == Mask(id);
      MasksCoincideIff(other, id);
    }
    if other :| other in earlier && other in trainees && Short(other) == Short(id) {
      var t := SomebodyWearsIt(trainees, earlier, other);
      MasksCoincideIff(t, id);
    }
  }

  lemma MaskOpens(id: Id)
    ensures Mask(id)[0] == '['
  {
    assert Mask(id)[0] == "[redacted-"[0];
  }

  lemma SamePrefix(a: Id, b: Id)
    requires |a| > 8 && |b| > 8 && forall k :: 0 <= k < 8 ==> a[k] == b[k]
    ensures Short(a) == Short(b)
  {
  }

  /** Two trainees whose ids share eight characters: once the first is erased, the second cannot be. */
  lemma SharedPrefixBlocksErasure()
    ensures var a, b := "5f0c1d2e-7a41-4c9b-8d3e-1f2a3b4c5d6e", "5f0c1d2e-9b52-4e8a-b1c7-6d5e4f3a2b1c";
            var trainees := map[a := Trainee("+48600100200", "Anna", true), b := Trainee("+48600100201", "Jan", true)];
            && !MaskTaken(trainees, a) && !MaskTaken(trainees, b)
            && MaskTaken(Erasing(trainees, a), b)
  {
    var a, b := "5f0c1d2e-7a41-4c9b-8d3e-1f2a3b4c5d6e", "5f0c1d2e-9b52-4e8a-b1c7-6d5e4f3a2b1c";
    var trainees := map[a := Trainee("+48600100200", "Anna", true), b := Trainee("+48600100201", "Jan", true)];
    assert a[10] != b[10];
    MaskOpens(a);
    MaskOpens(b);
    assert trainees[a].phone[0] == '+' && trainees[b].phone[0] == '+';
    SamePrefix(a, b);
    MasksCoincideIff(a, b);
    assert Erasing(trainees, a)[a].phone == Mask(b);
  }

  function Wiped(d: Declaration, attempts: set<Id>): Declaration {
    if d.attemptId in attempts
    then Declaration(d.id, d.attemptId, BLANK, None, None, None)
    else d
  }

  function CountWiped(ds: seq<Declaration>, attempts: set<Id>): nat {
    if ds == [] then 0
    else CountWiped(ds[..|ds| - 1], attempts) + if ds[|ds| - 1].attemptId in attempts then 1 else 0
  }

  lemma OneMoreWiped(ds: seq<Declaration>, i: nat, attempts: set<Id>)
    requires i < |ds|
    ensures CountWiped(ds[..i + 1], attempts)
         == CountWiped(ds[..i], attempts) + if ds[i].attemptId in attempts then 1 else 0
  {
    assert ds[..i + 1][..i] == ds[..i];
  }

  class ErasureDesk {
    const log: AuditLog
    var trainees: map<Id, Trainee>
    var users: set<Id>
    var enrolments: seq<Link>
    var attempts: seq<Link>
    var certifications: seq<Link>
    var declarations: seq<Declaration>

    ghost predicate Valid()
      reads this, log
    {
      log.Valid()
    }

    constructor (log: AuditLog, trainees: map<Id, Trainee>, users: set<Id>, enrolments: seq<Link>,
                 attempts: seq<Link>, certifications: seq<Link>, declarations: seq<Declaration>)
      requires log.Valid()
      ensures Valid() && this.log == log && this.trainees == trainees && this.users == users
      ensures this.enrolments == enrolments && this.attempts == attempts
      ensures this.certifications == certifications && this.declarations == declarations
    {
      this.log := log;
      this.trainees, this.users := trainees, users;
      this.enrolments, this.attempts, this.certifications := enrolments, attempts, certifications;
      this.declarations := declarations;
    }

    function EnrolmentIds(trainee: Id): set<Id>
      reads this
    {
      OwnedBy(enrolments, {trainee})
    }

    function AttemptIds(trainee: Id): set<Id>
      reads this
    {
      OwnedBy(attempts, EnrolmentIds(trainee))
    }

    /** Every (entity type, entity id) whose audit rows concern this trainee. */
    function Subject(trainee: Id): set<(string, Id)>
      reads this
    {
      {("trainee", trainee)}
      + (set e | e in EnrolmentIds(trainee) :: ("training_enrolment", e))
      + (set a | a in AttemptIds(trainee) :: ("training_attempt", a))
      + (set d | d in declarations && d.attemptId in AttemptIds(trainee) :: ("training_declaration", d.id))
      + (set c | c in OwnedBy(certifications, {trainee}) :: ("training_certification", c))
    }

    /** Nulls the personal columns of the listed attempts' declarations. */
    method WipeDeclarations(attemptIds: set<Id>) returns (wiped: nat)
      modifies `declarations
      ensures |declarations| == |old(declarations)|
      ensures forall i :: 0 <= i < |declarations| ==> declarations[i] == Wiped(old(declarations)[i], attemptIds)
      ensures wiped == CountWiped(old(declarations), attemptIds)
    {
      wiped := 0;
      ghost var was := declarations;
      var i := 0;
      while i < |declarations|
        invariant 0 <= i <= |declarations| == |was|
        invariant forall k :: 0 <= k < i ==> declarations[k] == Wiped(was[k], attemptIds)
        invariant forall k :: i <= k < |was| ==> declarations[k] == was[k]
        invariant wiped == CountWiped(was[..i], attemptIds)
      {
        OneMoreWiped(was, i, attemptIds);
        if declarations[i].attemptId in attemptIds {
          declarations := declarations[i := Wiped(declarations[i], attemptIds)];
          wiped := wiped + 1;
        }
        i := i + 1;
      }
      assert was[..i] == was;
    }

    /** Wipes the live rows of a trainee whose mask is free. */
    method WipeRows(trainee: Id, attemptIds: set<Id>) returns (wiped: nat)
      requires trainee in trainees && !MaskTaken(trainees, trainee)
      modifies `trainees, `declarations
      ensures trainees == Erasing(old(trainees), trainee)
      ensures |declarations| == |old(declarations)|
      ensures forall i :: 0 <= i < |declarations| ==> declarations[i] == Wiped(old(declarations)[i], attemptIds)
      ensures wiped == CountWiped(old(declarations), attemptIds)
    {
      wiped := WipeDeclarations(attemptIds);
      trainees := trainees[trainee := Trainee(Mask(trainee), BLANK, false)];
    }

    /** Wipes a trainee from the live tables and from the log, then records that it happened. */
    method RedactTrainee(trainee: Id, context: RequestContext, now: Timestamp, nowIso: string)
      returns (result: Result<Summary, GdprError>)
      requires Valid()
      modifies this, log
      ensures Valid()
      ensures users == old(users) && enrolments == old(enrolments)
      ensures attempts == old(attempts) && certifications == old(certifications)
      ensures trainee !in old(trainees) ==>
                result == Err(NotFound(trainee)) && unchanged(this) && unchanged(log)
      ensures trainee in old(trainees) && MaskTaken(old(trainees), trainee) ==>
                result == Err(PhoneTaken) && unchanged(this) && unchanged(log)
      ensures trainee in old(trainees) && !MaskTaken(old(trainees), trainee) ==>
                && result.Ok?
                && trainees == Erasing(old(trainees), trainee)
                && |declarations| == |old(declarations)|
                && (forall i :: 0 <= i < |declarations| ==>
                      declarations[i] == Wiped(old(declarations)[i], old(AttemptIds(trainee))))
                && result.value.declarationsRedacted == CountWiped(old(declarations), old(AttemptIds(trainee)))
                && LogsErasure(log.hash, old(log.rows), log.rows, ConcernsAny(old(Subject(trainee))), nowIso, trainee,
                               TraineeNote(result.value.declarationsRedacted), result.value.auditRowsRedacted)
    {
      if trainee !in trainees {
        return Err(NotFound(trainee));
      }
      if MaskTaken(trainees, trainee) {
        return Err(PhoneTaken);
      }
      var subject, attemptIds := Subject(trainee), AttemptIds(trainee);
      var wiped := WipeRows(trainee, attemptIds);
      var redacted := EraseFromLog(ConcernsAny(subject), nowIso, trainee, TraineeNote(wiped), context, now);
      result := Ok(Summary(redacted, wiped));
    }

    /** Wipes a user from the log only: the user row itself is kept. */
    method RedactUser(user: Id, context: RequestContext, now: Timestamp, nowIso: string)
      returns (result: Result<Summary, GdprError>)
      requires Valid()
      modifies log
      ensures Valid()
      ensures user !in users ==> result == Err(NotFound(user)) && unchanged(log)
      ensures user in users ==>
                && result.Ok?
                && LogsErasure(log.hash, old(log.rows), log.rows, ConcernsUser(user), nowIso, user, USER_NOTE,
                               result.value.auditRowsRedacted)
    {
      if user !in users {
        return Err(NotFound(user));
      }
      var redacted := EraseFromLog(ConcernsUser(user), nowIso, user, USER_NOTE, context, now);
      result := Ok(Summary(redacted, 0));
    }

    /** Shared tail of both requests: mark the matching rows, then append the redaction entry. */
    method EraseFromLog(about: AuditRow -> bool, nowIso: string, subjectId: Id, note: map<string, Json>,
                        context: RequestContext, now: Timestamp) returns (redacted: nat)
      requires Valid()
      modifies log
      ensures Valid()
      ensures LogsErasure(log.hash, old(log.rows), log.rows, about, nowIso, subjectId, note, redacted)
    {
      var ids := SelectIds(log.rows, about);
      redacted := log.RedactAuditRows(ids, nowIso);
      QueryErases(log.hash, old(log.rows), about, Marker(nowIso));
      RedactsCountUnique(log.hash, old(log.rows), log.rows, ids, Marker(nowIso), redacted);
      var row := log.Record("gdpr", "gdpr_redacted", Some(subjectId),
                            Some(note["audit_rows_redacted" := Number(redacted)]), None, context, now);
      assert log.rows[..|old(log.rows)|] == Redacted(log.hash, old(log.rows), ids, Marker(nowIso));
    }
  }

  function ConcernsAny(subject: set<(string, Id)>): AuditRow -> bool {
    (row: AuditRow) => row.entry.entityId.Some? && (row.entry.entityType, row.entry.entityId.value) in subject
  }

  function ConcernsUser(user: Id): AuditRow -> bool {
    (row: AuditRow) => row.entry.userId == Some(user)
                       || (row.entry.entityType == "user" && row.entry.entityId == Some(user))
  }

  lemma RedactsCountUnique(hash: Hash, before: seq<AuditRow>, after: seq<AuditRow>, ids: seq<int>, marker: Json,
                           count: int)
    requires InIdOrder(before) && Redacts(hash, before, after, SetOf(ids), marker, count)
    ensures count == RedactedCount(before, ids)
  {
    RedactedExactly(hash, before, ids, marker);
  }
}
