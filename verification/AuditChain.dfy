/** The hash-chained audit log: appending, verifying, and lawful redaction.

    The table is a sequence of rows in id order. The digest is an arbitrary function of the seven
    covered fields, so every statement here holds whatever hash the deployment uses; security
    statements return a concrete collision instead of assuming there is none. */
module AuditChain {
  import opened Common

  type Digest = string

  const GENESIS: Digest := "0000000000000000000000000000000000000000000000000000000000000000"

  datatype Json = Null | Bool(b: bool) | Number(n: int) | Text(s: string) | Object(fields: map<string, Json>)

  /** A timestamp as a database returns it: with its UTC offset, or stripped of it. */
  datatype Timestamp = Naive(local: int) | Aware(local: int, offset: int) {
    /** The instant that is hashed: a naive value is read as UTC. */
    function Utc(): int {
      match this
      case Naive(t) => t
      case Aware(t, offset) => t - offset
    }
  }

  /** Exactly the fields the checksum covers. */
  datatype Covered = Covered(occurredAt: int, userId: Option<string>, entityType: string,
                             entityId: Option<string>, action: string, diff: Json, prev: Digest)

  type Hash = Covered -> Digest

  /** What a row records, apart from its place in the chain. */
  datatype Entry = Entry(occurredAt: Timestamp, userId: Option<string>, entityType: string,
                         entityId: Option<string>, action: string, diff: Json,
                         ipAddress: Option<string>, userAgent: Option<string>)

  datatype AuditRow = AuditRow(id: int, entry: Entry, prevChecksum: Digest, checksum: Digest) {
    function Payload(): Covered {
      Covered(entry.occurredAt.Utc(), entry.userId, entry.entityType, entry.entityId, entry.action,
              entry.diff, prevChecksum)
    }
  }

  /** The checksum a row appended after `rows` has to name. */
  function Head(rows: seq<AuditRow>): Digest {
    if rows == [] then GENESIS else rows[|rows| - 1].checksum
  }

  /** The same, read off a longer table. */
  function HeadAt(rows: seq<AuditRow>, i: nat): Digest
    requires i <= |rows|
  {
    if i == 0 then GENESIS else rows[i - 1].checksum
  }

  /** Row `i` names its predecessor and carries its own checksum. */
  ghost predicate Linked(hash: Hash, rows: seq<AuditRow>, i: int)
    requires 0 <= i < |rows|
  {
    rows[i].prevChecksum == Head(rows[..i]) && hash(rows[i].Payload()) == rows[i].checksum
  }

  ghost predicate Intact(hash: Hash, rows: seq<AuditRow>) {
    forall i :: 0 <= i < |rows| ==> Linked(hash, rows, i)
  }

  ghost predicate BreaksFirstAt(hash: Hash, rows: seq<AuditRow>, i: int) {
    && 0 <= i < |rows|
    && !Linked(hash, rows, i)
    && forall j :: 0 <= j < i ==> Linked(hash, rows, j)
  }

  /** Primary keys are unique and the rows are listed in key order. */
  ghost predicate InIdOrder(rows: seq<AuditRow>) {
    forall i, j :: 0 <= i < j < |rows| ==> rows[i].id < rows[j].id
  }

  ghost function Ids(rows: seq<AuditRow>): set<int> {
    set i | 0 <= i < |rows| :: rows[i].id
  }

  // ---------- Tamper evidence ----------

  datatype Evidence =
    | Agreement
    | Collision(left: Covered, right: Covered)
    | GenesisPreimage(payload: Covered)

  /** Walks two logs back from their tails to the first place where they can be told apart. */
  function Compare(a: seq<AuditRow>, b: seq<AuditRow>): Evidence
    decreases |a|
  {
    if a == [] && b == [] then Agreement
    else if a == [] then GenesisPreimage(b[|b| - 1].Payload())
    else if b == [] then GenesisPreimage(a[|a| - 1].Payload())
    else if a[|a| - 1].Payload() != b[|b| - 1].Payload() then
      Collision(a[|a| - 1].Payload(), b[|b| - 1].Payload())
    else Compare(a[..|a| - 1], b[..|b| - 1])
  }

  function Payloads(rows: seq<AuditRow>): (p: seq<Covered>)
    ensures |p| == |rows|
  {
    if rows == [] then [] else Payloads(rows[..|rows| - 1]) + [rows[|rows| - 1].Payload()]
  }

  lemma IntactPrefix(hash: Hash, rows: seq<AuditRow>, n: nat)
    requires n <= |rows| && Intact(hash, rows)
    ensures Intact(hash, rows[..n])
  {
    forall i | 0 <= i < n ensures Linked(hash, rows[..n], i) {
      assert Linked(hash, rows, i);
      assert rows[..n][..i] == rows[..i];
    }
  }

  /** Two verifying logs, of any two lengths, that end in the same checksum agree on every covered
      field of every row; otherwise the walk hands back a hash collision or a genesis preimage. */
  lemma {:induction false} TamperEvidence(hash: Hash, a: seq<AuditRow>, b: seq<AuditRow>)
    requires Intact(hash, a) && Intact(hash, b) && Head(a) == Head(b)
    ensures match Compare(a, b)
            case Agreement => Payloads(a) == Payloads(b)
            case Collision(x, y) => x != y && hash(x) == hash(y)
            case GenesisPreimage(x) => hash(x) == GENESIS
    decreases |a|
  {
    if a != [] { assert Linked(hash, a, |a| - 1); }
    if b != [] { assert Linked(hash, b, |b| - 1); }
    if a != [] && b != [] && a[|a| - 1].Payload() == b[|b| - 1].Payload() {
      var a', b' := a[..|a| - 1], b[..|b| - 1];
      IntactPrefix(hash, a, |a'|);
      IntactPrefix(hash, b, |b'|);
      assert a[|a| - 1].Payload().prev == b[|b| - 1].Payload().prev;
      TamperEvidence(hash, a', b');
      if Compare(a', b') == Agreement {
        assert |Payloads(a')| == |Payloads(b')|;
        forall i | 0 <= i < |a| ensures Payloads(a)[i] == Payloads(b)[i] {
          if i < |a'| {
            assert Payloads(a)[i] == Payloads(a')[i] && Payloads(b)[i] == Payloads(b')[i];
          }
        }
      }
    }
  }

  /** Two rows of a verifying log cannot hang off the same predecessor digest: that would be a fork,
      and a fork is itself a collision or a genesis preimage. */
  lemma ForkIsCollision(hash: Hash, rows: seq<AuditRow>, i: int, j: int)
    requires Intact(hash, rows) && 0 <= i < j < |rows|
    requires rows[i].prevChecksum == rows[j].prevChecksum
    ensures match Compare(rows[..i], rows[..j])
            case Agreement => false
            case Collision(x, y) => x != y && hash(x) == hash(y)
            case GenesisPreimage(x) => hash(x) == GENESIS
  {
    assert Linked(hash, rows, i) && Linked(hash, rows, j);
    IntactPrefix(hash, rows, i);
    IntactPrefix(hash, rows, j);
    TamperEvidence(hash, rows[..i], rows[..j]);
    assert |Payloads(rows[..i])| != |Payloads(rows[..j])|;
  }

  // ---------- Appending ----------

  /** `row` is what `record` writes after `rows`. */
  ghost predicate Extends(hash: Hash, rows: seq<AuditRow>, row: AuditRow) {
    row.prevChecksum == Head(rows) && row.checksum == hash(row.Payload())
  }

  lemma AppendLinks(hash: Hash, rows: seq<AuditRow>, row: AuditRow)
    ensures forall i :: 0 <= i < |rows| ==> (Linked(hash, rows + [row], i) <==> Linked(hash, rows, i))
    ensures Linked(hash, rows + [row], |rows|) <==> Extends(hash, rows, row)
  {
    forall i | 0 <= i < |rows| ensures Linked(hash, rows + [row], i) <==> Linked(hash, rows, i) {
      assert (rows + [row])[..i] == rows[..i];
    }
    assert (rows + [row])[..|rows|] == rows;
  }

  /** Appending never hides and never causes a break: the verdict of `verify_chain` is unchanged. */
  lemma AppendKeepsVerdict(hash: Hash, rows: seq<AuditRow>, row: AuditRow)
    requires Extends(hash, rows, row)
    ensures Intact(hash, rows + [row]) <==> Intact(hash, rows)
    ensures forall i :: BreaksFirstAt(hash, rows + [row], i) <==> BreaksFirstAt(hash, rows, i)
  {
    AppendLinks(hash, rows, row);
    if Intact(hash, rows + [row]) {
      forall i | 0 <= i < |rows| ensures Linked(hash, rows, i) {
        assert Linked(hash, rows + [row], i);
      }
    }
    forall i ensures BreaksFirstAt(hash, rows + [row], i) <==> BreaksFirstAt(hash, rows, i) {
      if BreaksFirstAt(hash, rows + [row], i) {
        assert i < |rows|;
        forall j | 0 <= j < i ensures Linked(hash, rows, j) { assert Linked(hash, rows + [row], j); }
      }
    }
  }

  // ---------- Redaction ----------

  function Marker(at: string): Json {
    Object(map["redacted" := Bool(true), "redacted_at" := Text(at)])
  }

  /** A row as redaction leaves it, apart from the two chain columns. */
  function Touched(row: AuditRow, ids: set<int>, marker: Json): AuditRow {
    if row.id in ids then row.(entry := row.entry.(diff := marker)) else row
  }

  predicate SameApartFromChain(a: AuditRow, b: AuditRow) {
    a.id == b.id && a.entry == b.entry
  }

  /** Redacting `ids` turns `before` into `after`, where `first` is the position of the least id:
      everything before it is untouched, every later row is rewritten and relinked. */
  ghost predicate Rewritten(hash: Hash, before: seq<AuditRow>, after: seq<AuditRow>, first: int,
                            ids: set<int>, marker: Json)
  {
    && |after| == |before|
    && 0 <= first <= |before|
    && before[..first] == after[..first]
    && (forall i :: first <= i < |before| ==> SameApartFromChain(after[i], Touched(before[i], ids, marker)))
    && (forall i :: first <= i < |before| ==> Linked(hash, after, i))
  }

  /** The whole effect of one redaction pass, its refusals included. */
  ghost predicate Redacts(hash: Hash, before: seq<AuditRow>, after: seq<AuditRow>, ids: set<int>,
                          marker: Json, count: int)
  {
    if exists first :: 0 <= first < |before| && IsLeast(before[first].id, ids) then
      && count == |ids * Ids(before)|
      && forall first :: 0 <= first < |before| && IsLeast(before[first].id, ids) ==>
           Rewritten(hash, before, after, first, ids, marker)
    else
      after == before && count == 0
  }

  ghost predicate IsLeast(x: int, ids: set<int>) {
    x in ids && forall y :: y in ids ==> x <= y
  }

  /** `verify_chain` after a redaction: a break before the least id is still the first break, any
      other break has been healed. */
  lemma RedactionVerdict(hash: Hash, before: seq<AuditRow>, after: seq<AuditRow>, first: int,
                         ids: set<int>, marker: Json)
    requires Rewritten(hash, before, after, first, ids, marker)
    ensures forall i :: 0 <= i < first ==> (BreaksFirstAt(hash, after, i) <==> BreaksFirstAt(hash, before, i))
    ensures Intact(hash, after) <==> forall i :: 0 <= i < first ==> Linked(hash, before, i)
  {
    forall i | 0 <= i < first ensures Linked(hash, after, i) <==> Linked(hash, before, i) {
      assert after[i] == after[..first][i] == before[..first][i] == before[i];
      assert after[..i] == after[..first][..i] == before[..first][..i] == before[..i];
    }
  }

  /** A verifying chain is determined by its payloads: rows equal apart from the chain columns have
      equal chain columns too. */
  lemma {:induction false} ChainDetermined(hash: Hash, a: seq<AuditRow>, b: seq<AuditRow>)
    requires Intact(hash, a) && Intact(hash, b) && |a| == |b|
    requires forall i :: 0 <= i < |a| ==> SameApartFromChain(a[i], b[i])
    ensures a == b
    decreases |a|
  {
    if a == [] {
    } else {
      var n := |a| - 1;
      IntactPrefix(hash, a, n);
      IntactPrefix(hash, b, n);
      ChainDetermined(hash, a[..n], b[..n]);
      assert Linked(hash, a, n) && Linked(hash, b, n);
      assert SameApartFromChain(a[n], b[n]);
      assert a[n].Payload() == b[n].Payload();
      assert a == a[..n] + [a[n]] && b == b[..n] + [b[n]];
    }
  }

  lemma RewrittenRows(hash: Hash, before: seq<AuditRow>, after: seq<AuditRow>, first: int,
                      ids: set<int>, marker: Json)
    requires InIdOrder(before) && Rewritten(hash, before, after, first, ids, marker)
    requires first < |before| && IsLeast(before[first].id, ids)
    ensures forall i :: 0 <= i < |before| ==> SameApartFromChain(after[i], Touched(before[i], ids, marker))
    ensures InIdOrder(after) && Ids(after) == Ids(before)
  {
    forall i | 0 <= i < |before| ensures SameApartFromChain(after[i], Touched(before[i], ids, marker)) {
      if i < first {
        assert after[i] == after[..first][i] == before[..first][i] == before[i];
        assert before[i].id < before[first].id;
      }
    }
    assert forall i :: 0 <= i < |before| ==> after[i].id == before[i].id;
    forall x ensures x in Ids(after) <==> x in Ids(before) {
      if x in Ids(after) { var i :| 0 <= i < |after| && after[i].id == x; assert before[i].id == x; }
      if x in Ids(before) { var i :| 0 <= i < |before| && before[i].id == x; assert after[i].id == x; }
    }
  }

  /** Row by row, `after` is `before` with the listed diffs marked, apart from the chain columns. */
  ghost predicate Marked(before: seq<AuditRow>, after: seq<AuditRow>, ids: set<int>, marker: Json) {
    |after| == |before|
    && forall i :: 0 <= i < |before| ==> SameApartFromChain(after[i], Touched(before[i], ids, marker))
  }

  lemma RedactionMarks(hash: Hash, before: seq<AuditRow>, after: seq<AuditRow>, ids: set<int>, marker: Json,
                       count: int)
    requires InIdOrder(before) && Redacts(hash, before, after, ids, marker, count)
    requires exists x :: x in Ids(before) && IsLeast(x, ids)
    ensures Marked(before, after, ids, marker)
    ensures InIdOrder(after) && Ids(after) == Ids(before)
    ensures Intact(hash, before) ==> Intact(hash, after)
  {
    var x :| x in Ids(before) && IsLeast(x, ids);
    var first :| 0 <= first < |before| && before[first].id == x;
    RewrittenRows(hash, before, after, first, ids, marker);
    RedactionVerdict(hash, before, after, first, ids, marker);
  }

  /** The ids a pass acts on: all that are listed, or none when no row carries the least of them. */
  ghost function Effective(log: seq<AuditRow>, ids: set<int>): set<int> {
    if exists x :: x in Ids(log) && IsLeast(x, ids) then ids else {}
  }

  lemma PassMarks(hash: Hash, before: seq<AuditRow>, after: seq<AuditRow>, ids: set<int>, marker: Json, count: int)
    requires InIdOrder(before) && Redacts(hash, before, after, ids, marker, count)
    ensures Marked(before, after, Effective(before, ids), marker)
    ensures InIdOrder(after) && Ids(after) == Ids(before)
    ensures Intact(hash, before) ==> Intact(hash, after)
  {
    if x :| x in Ids(before) && IsLeast(x, ids) {
      RedactionMarks(hash, before, after, ids, marker, count);
    } else {
      forall i | 0 <= i < |before| ensures !IsLeast(before[i].id, ids) { assert before[i].id in Ids(before); }
      assert after == before;
    }
  }

  /** Whether marking `s` or marking `t` gives every row the same diff. */
  ghost predicate SameMarks(log: seq<AuditRow>, s: set<int>, t: set<int>, marker: Json) {
    forall i :: 0 <= i < |log| && (log[i].id in s) != (log[i].id in t) ==> log[i].entry.diff == marker
  }

  lemma MarkedTwice(log: seq<AuditRow>, once: seq<AuditRow>, twice: seq<AuditRow>, s: set<int>, t: set<int>,
                    marker: Json)
    requires Marked(log, once, s, marker) && Marked(once, twice, t, marker)
    ensures Marked(log, twice, s + t, marker)
  {
    forall i | 0 <= i < |log| ensures SameApartFromChain(twice[i], Touched(log[i], s + t, marker)) {
      assert SameApartFromChain(once[i], Touched(log[i], s, marker));
      assert SameApartFromChain(twice[i], Touched(once[i], t, marker));
    }
  }

  lemma MarkedAlikeIff(log: seq<AuditRow>, a: seq<AuditRow>, b: seq<AuditRow>, s: set<int>, t: set<int>, marker: Json)
    requires Marked(log, a, s, marker) && Marked(log, b, t, marker)
    ensures SameMarks(log, s, t, marker) <==>
              forall i :: 0 <= i < |a| ==> SameApartFromChain(a[i], b[i])
  {
    forall i | 0 <= i < |log|
      ensures SameApartFromChain(a[i], b[i]) <==>
                ((log[i].id in s) != (log[i].id in t) ==> log[i].entry.diff == marker)
    {
      assert SameApartFromChain(a[i], Touched(log[i], s, marker));
      assert SameApartFromChain(b[i], Touched(log[i], t, marker));
    }
  }

  /** Two markings of one log that both verify are the same table exactly when they give the same diffs. */
  lemma SameTableIff(hash: Hash, log: seq<AuditRow>, a: seq<AuditRow>, b: seq<AuditRow>, s: set<int>, t: set<int>,
                     marker: Json)
    requires Intact(hash, a) && Intact(hash, b) && Marked(log, a, s, marker) && Marked(log, b, t, marker)
    ensures a == b <==> SameMarks(log, s, t, marker)
  {
    MarkedAlikeIff(log, a, b, s, t, marker);
    if SameMarks(log, s, t, marker) { ChainDetermined(hash, a, b); }
  }

  lemma SameIdsSameEffect(a: seq<AuditRow>, b: seq<AuditRow>, ids: set<int>)
    requires Ids(a) == Ids(b)
    ensures Effective(a, ids) == Effective(b, ids)
  {
  }

  /** On a verifying log, redacting `s` and then `t` leaves the very same table, hash columns included, as
      redacting both in one pass, if and only if every row that only one of the two ways acts on already
      carries the marker. Empty lists and lists whose least id is missing are covered: they act on nothing. */
  lemma RedactionsMergeIff(hash: Hash, log: seq<AuditRow>, once: seq<AuditRow>, twice: seq<AuditRow>,
                           merged: seq<AuditRow>, s: set<int>, t: set<int>, marker: Json, m: int, n: int, k: int)
    requires InIdOrder(log) && Intact(hash, log)
    requires Redacts(hash, log, once, s, marker, m)
    requires Redacts(hash, once, twice, t, marker, n)
    requires Redacts(hash, log, merged, s + t, marker, k)
    ensures Intact(hash, twice) && Intact(hash, merged)
    ensures twice == merged <==>
              SameMarks(log, Effective(log, s) + Effective(log, t), Effective(log, s + t), marker)
  {
    PassMarks(hash, log, once, s, marker, m);
    PassMarks(hash, once, twice, t, marker, n);
    PassMarks(hash, log, merged, s + t, marker, k);
    SameIdsSameEffect(once, log, t);
    MarkedTwice(log, once, twice, Effective(log, s), Effective(log, t), marker);
    SameTableIff(hash, log, twice, merged, Effective(log, s) + Effective(log, t), Effective(log, s + t), marker);
  }

  /** In particular the two ways agree whenever each list's least id is present. */
  lemma PresentListsMerge(log: seq<AuditRow>, s: set<int>, t: set<int>, marker: Json)
    requires exists x :: x in Ids(log) && IsLeast(x, s)
    requires exists x :: x in Ids(log) && IsLeast(x, t)
    ensures SameMarks(log, Effective(log, s) + Effective(log, t), Effective(log, s + t), marker)
  {
    var x :| x in Ids(log) && IsLeast(x, s);
    var y :| y in Ids(log) && IsLeast(y, t);
    assert IsLeast(Min(x, y), s + t);
  }

  // ---------- Redaction racing with an append ----------

  /** The pass has something to do: it acts on a row that does not carry the marker yet. */
  ghost predicate Alters(log: seq<AuditRow>, ids: set<int>, marker: Json) {
    exists i :: 0 <= i < |log| && log[i].id in Effective(log, ids) && log[i].entry.diff != marker
  }

  lemma {:induction false} PayloadAt(rows: seq<AuditRow>, i: nat)
    requires i < |rows|
    ensures Payloads(rows)[i] == rows[i].Payload()
    decreases |rows|
  {
    if i == |rows| - 1 {
    } else {
      PayloadAt(rows[..|rows| - 1], i);
    }
  }

  lemma AlteredIsNotAgreement(before: seq<AuditRow>, after: seq<AuditRow>, ids: set<int>, marker: Json)
    requires Alters(before, ids, marker) && Marked(before, after, Effective(before, ids), marker)
    ensures Payloads(before) != Payloads(after)
  {
    var i :| 0 <= i < |before| && before[i].id in Effective(before, ids) && before[i].entry.diff != marker;
    assert SameApartFromChain(after[i], Touched(before[i], Effective(before, ids), marker));
    PayloadAt(before, i);
    PayloadAt(after, i);
  }

  lemma UnalteredIsUnchanged(hash: Hash, before: seq<AuditRow>, after: seq<AuditRow>, ids: set<int>, marker: Json)
    requires Intact(hash, before) && Intact(hash, after)
    requires !Alters(before, ids, marker) && Marked(before, after, Effective(before, ids), marker)
    ensures after == before
  {
    forall i | 0 <= i < |before| ensures SameApartFromChain(after[i], before[i]) {
      assert SameApartFromChain(after[i], Touched(before[i], Effective(before, ids), marker));
    }
    ChainDetermined(hash, after, before);
  }

  /** `record` in another transaction can read the tail before a redaction commits and add its row after.
      When the redaction had nothing to alter, the log is as it was and the row fits. When it had, the row
      is the first break of the log, unless a hash collision or a genesis preimage is handed back. */
  lemma LateAppendFits(hash: Hash, before: seq<AuditRow>, after: seq<AuditRow>, ids: set<int>, marker: Json,
                       count: int, row: AuditRow)
    requires InIdOrder(before) && Intact(hash, before) && Redacts(hash, before, after, ids, marker, count)
    requires Extends(hash, before, row)
    ensures if !Alters(before, ids, marker) then after == before && Intact(hash, after + [row])
            else
              || BreaksFirstAt(hash, after + [row], |after|)
              || match Compare(before, after)
                 case Agreement => false
                 case Collision(x, y) => x != y && hash(x) == hash(y)
                 case GenesisPreimage(x) => hash(x) == GENESIS
  {
    PassMarks(hash, before, after, ids, marker, count);
    if !Alters(before, ids, marker) {
      UnalteredIsUnchanged(hash, before, after, ids, marker);
      AppendKeepsVerdict(hash, after, row);
    } else {
      AppendLinks(hash, after, row);
      if Head(after) == Head(before) {
        TamperEvidence(hash, before, after);
        AlteredIsNotAgreement(before, after, ids, marker);
      } else {
        assert !Linked(hash, after + [row], |after|);
      }
    }
  }

  // ---------- What one redaction pass computes ----------

  function Seal(hash: Hash, id: int, entry: Entry, prev: Digest): AuditRow {
    var row := AuditRow(id, entry, prev, "");
    row.(checksum := hash(row.Payload()))
  }

  /** Forward rehash of `rows`, the first of them hanging off `prev`. */
  function Relinked(hash: Hash, prev: Digest, rows: seq<AuditRow>, ids: set<int>, marker: Json): seq<AuditRow>
    decreases |rows|
  {
    if rows == [] then []
    else
      var row := Seal(hash, rows[0].id, Touched(rows[0], ids, marker).entry, prev);
      [row] + Relinked(hash, row.checksum, rows[1..], ids, marker)
  }

  function Least(xs: seq<int>): (x: int)
    requires xs != []
    ensures IsLeast(x, SetOf(xs))
  {
    if |xs| == 1 then xs[0]
    else
      assert SetOf(xs) == {xs[0]} + SetOf(xs[1..]);
      Min(xs[0], Least(xs[1..]))
  }

  /** Position of the first row whose id is at least `id`. */
  function FirstFrom(rows: seq<AuditRow>, id: int): (k: nat)
    ensures k <= |rows|
    ensures forall i :: 0 <= i < k ==> rows[i].id < id
    ensures k < |rows| ==> id <= rows[k].id
  {
    if rows == [] || id <= rows[0].id then 0 else 1 + FirstFrom(rows[1..], id)
  }

  /** Position of the least listed id, when a row carries it. */
  function StartOf(rows: seq<AuditRow>, auditIds: seq<int>): (start: Option<nat>)
    ensures start.Some? ==> auditIds != [] && start.value < |rows| && rows[start.value].id == Least(auditIds)
  {
    if auditIds == [] then None
    else
      var first := FirstFrom(rows, Least(auditIds));
      if first == |rows| || rows[first].id != Least(auditIds) then None else Some(first)
  }

  function Redacted(hash: Hash, rows: seq<AuditRow>, auditIds: seq<int>, marker: Json): seq<AuditRow> {
    match StartOf(rows, auditIds)
    case None => rows
    case Some(first) => rows[..first] + Relinked(hash, Head(rows[..first]), rows[first..], SetOf(auditIds), marker)
  }

  function CountListed(rows: seq<AuditRow>, ids: set<int>): nat {
    if rows == [] then 0 else (if rows[0].id in ids then 1 else 0) + CountListed(rows[1..], ids)
  }

  function RedactedCount(rows: seq<AuditRow>, auditIds: seq<int>): nat {
    match StartOf(rows, auditIds)
    case None => 0
    case Some(first) => CountListed(rows[first..], SetOf(auditIds))
  }

  lemma {:induction false} RelinkedIsRewritten(hash: Hash, kept: seq<AuditRow>, rows: seq<AuditRow>, ids: set<int>,
                                               marker: Json)
    ensures var after := Relinked(hash, Head(kept), rows, ids, marker);
            && |after| == |rows|
            && (forall i :: 0 <= i < |rows| ==> SameApartFromChain(after[i], Touched(rows[i], ids, marker)))
            && (forall i :: |kept| <= i < |kept + after| ==> Linked(hash, kept + after, i))
    decreases |rows|
  {
    if rows == [] {
    } else {
      var row := Seal(hash, rows[0].id, Touched(rows[0], ids, marker).entry, Head(kept));
      var rest := Relinked(hash, row.checksum, rows[1..], ids, marker);
      RelinkedIsRewritten(hash, kept + [row], rows[1..], ids, marker);
      var after := [row] + rest;
      assert kept + after == (kept + [row]) + rest;
      forall i | 0 <= i < |rows| ensures SameApartFromChain(after[i], Touched(rows[i], ids, marker)) {
        if i > 0 {
          assert SameApartFromChain(rest[i - 1], Touched(rows[1..][i - 1], ids, marker));
        }
      }
      assert Linked(hash, kept + after, |kept|) by {
        assert (kept + after)[..|kept|] == kept;
      }
    }
  }

  lemma IdsCons(rows: seq<AuditRow>)
    requires rows != [] && InIdOrder(rows)
    ensures Ids(rows) == {rows[0].id} + Ids(rows[1..]) && rows[0].id !in Ids(rows[1..]) && InIdOrder(rows[1..])
  {
    forall x | x in Ids(rows) ensures x in {rows[0].id} + Ids(rows[1..]) {
      var i :| 0 <= i < |rows| && rows[i].id == x;
      if i > 0 { assert rows[1..][i - 1] == rows[i]; }
    }
    forall x | x in Ids(rows[1..]) ensures x in Ids(rows) && x != rows[0].id {
      var i :| 0 <= i < |rows[1..]| && rows[1..][i].id == x;
      assert rows[i + 1].id == x;
    }
  }

  lemma IntersectCons(ids: set<int>, x: int, rest: set<int>)
    requires x !in rest
    ensures |ids * ({x} + rest)| == |ids * rest| + if x in ids then 1 else 0
  {
    if x in ids {
      assert ids * ({x} + rest) == {x} + ids * rest;
    } else {
      assert ids * ({x} + rest) == ids * rest;
    }
  }

  lemma {:induction false} CountIsCardinality(rows: seq<AuditRow>, ids: set<int>)
    requires InIdOrder(rows)
    ensures CountListed(rows, ids) == |ids * Ids(rows)|
  {
    if rows == [] {
      assert ids * Ids(rows) == {};
    } else {
      IdsCons(rows);
      CountIsCardinality(rows[1..], ids);
      IntersectCons(ids, rows[0].id, Ids(rows[1..]));
    }
  }

  lemma ListedFrom(rows: seq<AuditRow>, first: nat, ids: set<int>)
    requires InIdOrder(rows) && first < |rows| && IsLeast(rows[first].id, ids)
    ensures ids * Ids(rows[first..]) == ids * Ids(rows)
  {
    forall x | x in ids * Ids(rows) ensures x in Ids(rows[first..]) {
      var k :| 0 <= k < |rows| && rows[k].id == x;
      assert rows[first].id <= rows[k].id;
      assert rows[first..][k - first] == rows[k];
    }
    forall x | x in Ids(rows[first..]) ensures x in Ids(rows) {
      var k :| 0 <= k < |rows[first..]| && rows[first..][k].id == x;
      assert rows[first + k].id == x;
    }
  }

  lemma PresentCount(rows: seq<AuditRow>, auditIds: seq<int>)
    requires InIdOrder(rows) && auditIds != [] && Least(auditIds) in Ids(rows)
    ensures RedactedCount(rows, auditIds) == |SetOf(auditIds) * Ids(rows)|
  {
    var first := FirstFrom(rows, Least(auditIds));
    var k :| 0 <= k < |rows| && rows[k].id == Least(auditIds);
    assert first == k;
    CountIsCardinality(rows[first..], SetOf(auditIds));
    ListedFrom(rows, first, SetOf(auditIds));
  }

  /** The computed pass does exactly what a redaction may do, and counts what it marked. */
  lemma RedactedExactly(hash: Hash, rows: seq<AuditRow>, auditIds: seq<int>, marker: Json)
    requires InIdOrder(rows)
    ensures Redacts(hash, rows, Redacted(hash, rows, auditIds, marker), SetOf(auditIds), marker,
                    RedactedCount(rows, auditIds))
  {
    var ids := SetOf(auditIds);
    var after := Redacted(hash, rows, auditIds, marker);
    match StartOf(rows, auditIds)
    case None =>
      forall f | 0 <= f < |rows| ensures !IsLeast(rows[f].id, ids) {
        if IsLeast(rows[f].id, ids) {
          assert false;
        }
      }
    case Some(first) =>
      RelinkedRewrites(hash, rows, first, ids, marker);
      CountIsCardinality(rows[first..], ids);
      ListedFrom(rows, first, ids);
      forall f | 0 <= f < |rows| && IsLeast(rows[f].id, ids) ensures f == first {
        assert rows[f].id == rows[first].id;
      }
  }

  // ---------- Where passes disagree and late rows break ----------

  const LOGIN := Entry(Naive(0), None, "user", None, "login", Null, None, None)

  function FirstLogin(hash: Hash): AuditRow {
    Seal(hash, 1, LOGIN, GENESIS)
  }

  function TwoLogins(hash: Hash): seq<AuditRow> {
    [FirstLogin(hash)] + [Seal(hash, 2, LOGIN, FirstLogin(hash).checksum)]
  }

  lemma LoginsVerify(hash: Hash)
    ensures Intact(hash, [FirstLogin(hash)]) && Intact(hash, TwoLogins(hash))
  {
    assert Linked(hash, [FirstLogin(hash)], 0);
    AppendKeepsVerdict(hash, [FirstLogin(hash)], Seal(hash, 2, LOGIN, FirstLogin(hash).checksum));
  }

  lemma RefusedPass(hash: Hash, rows: seq<AuditRow>, auditIds: seq<int>, marker: Json)
    requires 0 in auditIds && forall i :: 0 <= i < |rows| ==> rows[i].id > 0
    ensures Redacted(hash, rows, auditIds, marker) == rows
  {
    assert 0 in SetOf(auditIds) && Least(auditIds) <= 0;
  }

  lemma PassOverFirst(hash: Hash, rows: seq<AuditRow>, marker: Json)
    requires rows != [] && rows[0].id == 1
    ensures Redacted(hash, rows, [1], marker) != []
    ensures Redacted(hash, rows, [1], marker)[0] == Seal(hash, 1, rows[0].entry.(diff := marker), GENESIS)
  {
    assert SetOf([1]) == {1} && Least([1]) == 1 && FirstFrom(rows, 1) == 0;
    assert rows[0..] == rows && rows[..0] == [];
  }

  /** On a log with ids 1 and 2, redacting [0, 2] and then [1] marks row 1; redacting all three at once marks
      nothing, because no row carries the least id. */
  lemma MissingLeastIdSplitsPasses(hash: Hash, marker: Json)
    requires marker != Null
    ensures var log := TwoLogins(hash);
            && Intact(hash, log)
            && Redacted(hash, log, [0, 2], marker) == log
            && Redacted(hash, log, [1], marker) != Redacted(hash, log, [0, 2, 1], marker)
  {
    var log := TwoLogins(hash);
    LoginsVerify(hash);
    RefusedPass(hash, log, [0, 2], marker);
    RefusedPass(hash, log, [0, 2, 1], marker);
    PassOverFirst(hash, log, marker);
  }

  /** A hash that does nothing but tell the marker from every other diff. */
  function MarkerTelling(marker: Json): Hash {
    (p: Covered) => if p.diff == marker then "m" else "n"
  }

  /** Under such a hash, redacting a one-row log leaves the row that was chained to its old tail as the first
      break. */
  lemma LateAppendBreaks(marker: Json)
    requires marker != Null
    ensures var hash := MarkerTelling(marker);
            var before, late := [FirstLogin(hash)], Seal(hash, 2, LOGIN, FirstLogin(hash).checksum);
            && Intact(hash, before) && Extends(hash, before, late)
            && BreaksFirstAt(hash, Redacted(hash, before, [1], marker) + [late], 1)
  {
    var hash := MarkerTelling(marker);
    var before, late := [FirstLogin(hash)], Seal(hash, 2, LOGIN, FirstLogin(hash).checksum);
    var after := Redacted(hash, before, [1], marker);
    LoginsVerify(hash);
    PassOverFirst(hash, before, marker);
    RedactionStaysValid(hash, before, [1], marker, 2);
    assert Linked(hash, after, 0);
    AppendLinks(hash, after, late);
  }

  // ---------- The table and its operations ----------

  datatype RequestContext = RequestContext(userId: Option<string>, ipAddress: Option<string>,
                                           userAgent: Option<string>)

  class AuditLog {
    const hash: Hash
    var rows: seq<AuditRow>
    var nextId: int

    ghost predicate Valid()
      reads this
    {
      InIdOrder(rows) && forall i :: 0 <= i < |rows| ==> rows[i].id < nextId
    }

    constructor (hash: Hash)
      ensures Valid() && rows == [] && this.hash == hash
    {
      this.hash := hash;
      rows := [];
      nextId := 1;
    }

    /** Appends one entry. The chain columns are filled after the insert, as the service does. */
    method Record(entityType: string, action: string, entityId: Option<string>,
                  diff: Option<map<string, Json>>, userId: Option<string>, context: RequestContext,
                  now: Timestamp) returns (row: AuditRow)
      requires Valid()
      modifies this
      ensures Valid()
      ensures rows == old(rows) + [row]
      ensures Extends(hash, old(rows), row)
      ensures row.id !in Ids(old(rows))
      ensures row.entry == Entry(now, if userId.Some? && userId.value != "" then userId else context.userId,
                                 entityType, entityId, action,
                                 Object(if diff.Some? then diff.value else map[]),
                                 context.ipAddress, context.userAgent)
      ensures forall i :: BreaksFirstAt(hash, rows, i) <==> BreaksFirstAt(hash, old(rows), i)
      ensures Intact(hash, rows) <==> Intact(hash, old(rows))
    {
      var prev := GENESIS;
      if rows != [] {
        prev := rows[|rows| - 1].checksum;
      }
      var author := if userId.Some? && userId.value != "" then userId else context.userId;
      var payload := if diff.Some? then diff.value else map[];
      row := AuditRow(nextId, Entry(now, author, entityType, entityId, action, Object(payload),
                                    context.ipAddress, context.userAgent), prev, "");
      nextId := nextId + 1;
      rows := rows + [row];
      row := row.(checksum := hash(row.Payload()));
      rows := rows[|rows| - 1 := row];
      assert rows == old(rows) + [row];
      AppendKeepsVerdict(hash, old(rows), row);
    }

    /** Walks the chain; on failure reports the id of the first bad entry. */
    method VerifyChain() returns (ok: bool, brokenId: Option<int>)
      ensures ok <==> Intact(hash, rows)
      ensures ok ==> brokenId == None
      ensures !ok ==> exists i :: BreaksFirstAt(hash, rows, i) && brokenId == Some(rows[i].id)
    {
      var expectedPrev := GENESIS;
      var i := 0;
      while i < |rows|
        invariant 0 <= i <= |rows|
        invariant expectedPrev == Head(rows[..i])
        invariant forall j :: 0 <= j < i ==> Linked(hash, rows, j)
      {
        var row := rows[i];
        if row.prevChecksum != expectedPrev || hash(row.Payload()) != row.checksum {
          assert BreaksFirstAt(hash, rows, i);
          return false, Some(row.id);
        }
        expectedPrev := row.checksum;
        i := i + 1;
      }
      return true, None;
    }

    /** Marks the diff of every listed row and rehashes forward from the least listed id. */
    method RedactAuditRows(auditIds: seq<int>, redactedAt: string) returns (count: nat)
      requires Valid()
      modifies `rows
      ensures Valid()
      ensures rows == Redacted(hash, old(rows), auditIds, Marker(redactedAt))
      ensures Redacts(hash, old(rows), rows, SetOf(auditIds), Marker(redactedAt), count)
    {
      count := 0;
      if auditIds != [] {
        var firstId := Least(auditIds);
        var first := FirstFrom(rows, firstId);
        if first < |rows| && rows[first].id == firstId {
          count := RehashFrom(first, SetOf(auditIds), Marker(redactedAt));
        }
      }
      assert count == RedactedCount(old(rows), auditIds);
      RedactedExactly(hash, old(rows), auditIds, Marker(redactedAt));
      RedactionStaysValid(hash, old(rows), auditIds, Marker(redactedAt), nextId);
    }

    /** One row of the forward loop: marked if it is listed, relinked and rehashed in any case. */
    method RewriteAt(i: nat, expectedPrev: Digest, ids: set<int>, marker: Json) returns (checksum: Digest, hit: bool)
      requires i < |rows|
      modifies `rows
      ensures var row := Seal(hash, old(rows)[i].id, Touched(old(rows)[i], ids, marker).entry, expectedPrev);
              rows == old(rows)[i := row] && checksum == row.checksum
      ensures hit <==> old(rows)[i].id in ids
    {
      var row := rows[i];
      hit := row.id in ids;
      if hit {
        row := row.(entry := row.entry.(diff := marker));
      }
      row := row.(prevChecksum := expectedPrev);
      checksum := hash(row.Payload());
      rows := rows[i := row.(checksum := checksum)];
    }

    /** The forward loop of a redaction: rows that keep their diff are relinked as well. */
    method RehashFrom(first: nat, ids: set<int>, marker: Json) returns (count: nat)
      requires first < |rows|
      modifies `rows
      ensures rows == old(rows[..first]) + Relinked(hash, Head(old(rows[..first])), old(rows[first..]), ids, marker)
      ensures count == CountListed(old(rows[first..]), ids)
    {
      ghost var before := rows;
      ghost var target := before[..first] + Relinked(hash, Head(before[..first]), before[first..], ids, marker);
      RelinkedLength(hash, Head(before[..first]), before[first..], ids, marker);
      var expectedPrev := if first == 0 then GENESIS else rows[first - 1].checksum;
      count := 0;
      var i := first;
      while i < |rows|
        invariant first <= i <= |rows| == |before| == |target|
        invariant forall k :: 0 <= k < i ==> rows[k] == target[k]
        invariant forall k :: i <= k < |rows| ==> rows[k] == before[k]
        invariant expectedPrev == HeadAt(target, i)
        invariant count + CountListed(before[i..], ids) == CountListed(before[first..], ids)
      {
        RelinkedAt(hash, before, target, first, i, ids, marker);
        CountAt(before, i, ids);
        var hit;
        expectedPrev, hit := RewriteAt(i, expectedPrev, ids, marker);
        if hit {
          count := count + 1;
        }
        i := i + 1;
      }
    }
  }

  lemma RelinkedRewrites(hash: Hash, rows: seq<AuditRow>, first: nat, ids: set<int>, marker: Json)
    requires first < |rows|
    ensures var after := rows[..first] + Relinked(hash, Head(rows[..first]), rows[first..], ids, marker);
            Rewritten(hash, rows, after, first, ids, marker)
  {
    RelinkedIsRewritten(hash, rows[..first], rows[first..], ids, marker);
    var tail := Relinked(hash, Head(rows[..first]), rows[first..], ids, marker);
    forall i | first <= i < |rows|
      ensures SameApartFromChain((rows[..first] + tail)[i], Touched(rows[i], ids, marker))
    {
      assert SameApartFromChain(tail[i - first], Touched(rows[first..][i - first], ids, marker));
    }
  }

  /** Row `i` of the relinked log is the old row, marked if listed, sealed to its new predecessor. */
  lemma RelinkedAt(hash: Hash, before: seq<AuditRow>, after: seq<AuditRow>, first: nat, i: nat, ids: set<int>,
                   marker: Json)
    requires first <= i < |before| == |after|
    requires after == before[..first] + Relinked(hash, Head(before[..first]), before[first..], ids, marker)
    ensures after[i] == Seal(hash, before[i].id, Touched(before[i], ids, marker).entry, HeadAt(after, i))
  {
    RelinkedRewrites(hash, before, first, ids, marker);
    assert Linked(hash, after, i) && SameApartFromChain(after[i], Touched(before[i], ids, marker));
  }

  lemma {:induction false} RelinkedLength(hash: Hash, prev: Digest, rows: seq<AuditRow>, ids: set<int>, marker: Json)
    ensures |Relinked(hash, prev, rows, ids, marker)| == |rows|
    decreases |rows|
  {
    if rows == [] {
    } else {
      var row := Seal(hash, rows[0].id, Touched(rows[0], ids, marker).entry, prev);
      RelinkedLength(hash, row.checksum, rows[1..], ids, marker);
    }
  }

  lemma CountAt(rows: seq<AuditRow>, i: nat, ids: set<int>)
    requires i < |rows|
    ensures CountListed(rows[i..], ids) == (if rows[i].id in ids then 1 else 0) + CountListed(rows[i + 1..], ids)
  {
    assert rows[i..][1..] == rows[i + 1..];
  }

  lemma RedactionStaysValid(hash: Hash, rows: seq<AuditRow>, auditIds: seq<int>, marker: Json, nextId: int)
    requires InIdOrder(rows) && forall i :: 0 <= i < |rows| ==> rows[i].id < nextId
    ensures var after := Redacted(hash, rows, auditIds, marker);
            && |after| == |rows|
            && InIdOrder(after)
            && forall i :: 0 <= i < |after| ==> after[i].id < nextId
  {
    var after := Redacted(hash, rows, auditIds, marker);
    RedactedExactly(hash, rows, auditIds, marker);
    PassMarks(hash, rows, after, SetOf(auditIds), marker, RedactedCount(rows, auditIds));
    forall i | 0 <= i < |after| ensures after[i].id < nextId { assert after[i].id in Ids(rows); }
  }
}
