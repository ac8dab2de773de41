/** Concurrent writers of the audit log.

    Transactions interleave at the granularity of single statements: take the chain lock, read the
    tail, insert the sealed row, commit or roll back. A transaction sees committed rows and its own.
    Row ids come from a sequence that rollbacks do not rewind. With `locking` off the lock statement
    is a no-op, which shows what the lock is for. */
module AuditTransactions {
  import opened Common
  import opened AuditChain

  type TxId = nat

  datatype Phase =
    | Outside                // no `record` call has taken the lock yet
    | Holding                // lock taken, tail not read
    | HasRead(prev: Digest)  // tail read, row not inserted

  datatype Session = Session(phase: Phase, pending: seq<AuditRow>)

  const IDLE := Session(Outside, [])

  datatype World = World(committed: seq<AuditRow>, nextId: int, holder: Option<TxId>,
                         sessions: map<TxId, Session>)
  {
    function At(tx: TxId): Session {
      if tx in sessions then sessions[tx] else IDLE
    }

    /** Everything the lock holder sees. */
    function Visible(): seq<AuditRow> {
      if holder.Some? then committed + At(holder.value).pending else committed
    }

    function Put(tx: TxId, s: Session): World {
      this.(sessions := sessions[tx := s])
    }
  }

  const START := World([], 1, None, map[])

  datatype Action =
    | TakeLock(tx: TxId)
    | ReadTail(tx: TxId)
    | Insert(tx: TxId, entry: Entry)
    | Commit(tx: TxId)
    | Rollback(tx: TxId)
    | Redact(ids: seq<int>, marker: Json)

  /** The row with the greatest id, which is what `record` reads as the tail. */
  function Latest(rows: seq<AuditRow>): (r: AuditRow)
    requires rows != []
    ensures r in rows && forall x :: x in rows ==> x.id <= r.id
  {
    var last := rows[|rows| - 1];
    if |rows| == 1 then last
    else
      var r := Latest(rows[..|rows| - 1]);
      assert forall x :: x in rows ==> x == last || x in rows[..|rows| - 1];
      if r.id < last.id then last else r
  }

  function TailDigest(rows: seq<AuditRow>): Digest {
    if rows == [] then GENESIS else Latest(rows).checksum
  }

  /** A statement that has to wait, or that makes no sense yet, leaves the world as it is. */
  function Step(hash: Hash, locking: bool, w: World, a: Action): World {
    match a
    case TakeLock(tx) =>
      var s := w.At(tx);
      if s.phase != Outside || (locking && w.holder != None && w.holder != Some(tx)) then w
      else w.Put(tx, s.(phase := Holding)).(holder := if locking then Some(tx) else w.holder)
    case ReadTail(tx) =>
      var s := w.At(tx);
      if s.phase != Holding then w
      else w.Put(tx, s.(phase := HasRead(TailDigest(w.committed + s.pending))))
    case Insert(tx, entry) =>
      var s := w.At(tx);
      if !s.phase.HasRead? then w
      else
        var row := Seal(hash, w.nextId, entry, s.phase.prev);
        w.Put(tx, Session(Holding, s.pending + [row])).(nextId := w.nextId + 1)
    case Commit(tx) =>
      var s := w.At(tx);
      w.Put(tx, IDLE).(committed := w.committed + s.pending, holder := Released(w.holder, tx))
    case Rollback(tx) =>
      w.Put(tx, IDLE).(holder := Released(w.holder, tx))
    case Redact(ids, marker) =>
      // Redaction is one exclusive step: it waits until nobody is in the middle of writing.
      if w.holder != None then w
      else w.(committed := Redacted(hash, w.committed, ids, marker))
  }

  function Released(holder: Option<TxId>, tx: TxId): Option<TxId> {
    if holder == Some(tx) then None else holder
  }

  function Run(hash: Hash, locking: bool, w: World, actions: seq<Action>): World
    decreases |actions|
  {
    if actions == [] then w else Run(hash, locking, Step(hash, locking, w, actions[0]), actions[1..])
  }

  /** What the writers maintain: only the lock holder has unfinished work, and the committed rows
      followed by the holder's rows are one intact chain in id order. */
  ghost predicate Serialised(hash: Hash, w: World) {
    && (forall tx: TxId :: w.holder != Some(tx) ==> w.At(tx) == IDLE)
    && Chained(hash, w.Visible(), w.nextId)
    && (w.holder.Some? && w.At(w.holder.value).phase.HasRead? ==>
          w.At(w.holder.value).phase.prev == Head(w.Visible()))
  }

  ghost predicate Chained(hash: Hash, rows: seq<AuditRow>, nextId: int) {
    Intact(hash, rows) && InIdOrder(rows) && forall i :: 0 <= i < |rows| ==> rows[i].id < nextId
  }

  lemma LatestIsLast(rows: seq<AuditRow>)
    requires rows != [] && InIdOrder(rows)
    ensures Latest(rows) == rows[|rows| - 1]
  {
    var r := Latest(rows);
    var i :| 0 <= i < |rows| && rows[i] == r;
    assert rows[|rows| - 1] in rows;
  }

  lemma InsertKeepsChain(hash: Hash, rows: seq<AuditRow>, row: AuditRow, nextId: int)
    requires Chained(hash, rows, nextId) && Extends(hash, rows, row) && row.id == nextId
    ensures Chained(hash, rows + [row], nextId + 1)
  {
    AppendKeepsVerdict(hash, rows, row);
  }

  lemma PrefixKeepsChain(hash: Hash, rows: seq<AuditRow>, more: seq<AuditRow>, nextId: int)
    requires Chained(hash, rows + more, nextId)
    ensures Chained(hash, rows, nextId)
  {
    IntactPrefix(hash, rows + more, |rows|);
    assert (rows + more)[..|rows|] == rows;
    assert forall i :: 0 <= i < |rows| ==> rows[i] == (rows + more)[i];
  }

  lemma RedactedChain(hash: Hash, rows: seq<AuditRow>, auditIds: seq<int>, marker: Json, nextId: int)
    requires Chained(hash, rows, nextId)
    ensures Chained(hash, Redacted(hash, rows, auditIds, marker), nextId)
  {
    RedactionStaysValid(hash, rows, auditIds, marker, nextId);
    RedactedExactly(hash, rows, auditIds, marker);
    PassMarks(hash, rows, Redacted(hash, rows, auditIds, marker), SetOf(auditIds), marker,
              RedactedCount(rows, auditIds));
  }

  lemma TakeLockKeepsSerialised(hash: Hash, w: World, tx: TxId)
    requires Serialised(hash, w)
    ensures Serialised(hash, Step(hash, true, w, TakeLock(tx)))
  {
    var w' := Step(hash, true, w, TakeLock(tx));
    if w' != w {
      assert w.holder == None ==> w.At(tx) == IDLE;
      assert w'.Visible() == w.Visible();
    }
  }

  lemma ReadTailKeepsSerialised(hash: Hash, w: World, tx: TxId)
    requires Serialised(hash, w)
    ensures Serialised(hash, Step(hash, true, w, ReadTail(tx)))
  {
    var w' := Step(hash, true, w, ReadTail(tx));
    if w' != w {
      assert w'.Visible() == w.Visible() == w.committed + w.At(tx).pending;
      if w.Visible() != [] { LatestIsLast(w.Visible()); }
    }
  }

  lemma InsertKeepsSerialised(hash: Hash, w: World, tx: TxId, entry: Entry)
    requires Serialised(hash, w)
    ensures Serialised(hash, Step(hash, true, w, Insert(tx, entry)))
  {
    var w' := Step(hash, true, w, Insert(tx, entry));
    if w' != w {
      var row := Seal(hash, w.nextId, entry, w.At(tx).phase.prev);
      InsertKeepsChain(hash, w.Visible(), row, w.nextId);
      assert w'.Visible() == w.Visible() + [row];
    }
  }

  lemma EndKeepsSerialised(hash: Hash, w: World, tx: TxId)
    requires Serialised(hash, w)
    ensures Serialised(hash, Step(hash, true, w, Commit(tx)))
    ensures Serialised(hash, Step(hash, true, w, Rollback(tx)))
  {
    var c, r := Step(hash, true, w, Commit(tx)), Step(hash, true, w, Rollback(tx));
    assert c.Visible() == w.Visible();
    if w.holder == Some(tx) {
      PrefixKeepsChain(hash, w.committed, w.At(tx).pending, w.nextId);
    } else {
      assert r.Visible() == w.Visible();
    }
  }

  lemma RedactKeepsSerialised(hash: Hash, w: World, ids: seq<int>, marker: Json)
    requires Serialised(hash, w)
    ensures Serialised(hash, Step(hash, true, w, Redact(ids, marker)))
  {
    if w.holder == None { RedactedChain(hash, w.committed, ids, marker, w.nextId); }
  }

  lemma StepKeepsSerialised(hash: Hash, w: World, a: Action)
    requires Serialised(hash, w)
    ensures Serialised(hash, Step(hash, true, w, a))
  {
    match a
    case TakeLock(tx) => TakeLockKeepsSerialised(hash, w, tx);
    case ReadTail(tx) => ReadTailKeepsSerialised(hash, w, tx);
    case Insert(tx, entry) => InsertKeepsSerialised(hash, w, tx, entry);
    case Commit(tx) => EndKeepsSerialised(hash, w, tx);
    case Rollback(tx) => EndKeepsSerialised(hash, w, tx);
    case Redact(ids, marker) => RedactKeepsSerialised(hash, w, ids, marker);
  }

  lemma {:induction false} RunKeepsSerialised(hash: Hash, w: World, actions: seq<Action>)
    requires Serialised(hash, w)
    ensures Serialised(hash, Run(hash, true, w, actions))
    decreases |actions|
  {
    if actions == [] {
    } else {
      StepKeepsSerialised(hash, w, actions[0]);
      RunKeepsSerialised(hash, Step(hash, true, w, actions[0]), actions[1..]);
    }
  }

  /** In every interleaving of transactions, the committed rows in id order are a chain that
      verification accepts. */
  lemma EveryInterleavingVerifies(hash: Hash, actions: seq<Action>)
    ensures Intact(hash, Run(hash, true, START, actions).committed)
    ensures InIdOrder(Run(hash, true, START, actions).committed)
  {
    var w := Run(hash, true, START, actions);
    RunKeepsSerialised(hash, START, actions);
    if w.holder.Some? {
      PrefixKeepsChain(hash, w.committed, w.At(w.holder.value).pending, w.nextId);
    }
  }

  lemma RunCons(hash: Hash, locking: bool, w: World, a: Action, more: seq<Action>)
    ensures Run(hash, locking, w, [a] + more) == Run(hash, locking, Step(hash, locking, w, a), more)
  {
    assert ([a] + more)[1..] == more;
  }

  /** Two writers that skip the lock fork the chain: both rows claim the genesis predecessor, and
      verification rejects the second unless the first one hashes to the genesis value. */
  lemma UnlockedWritersFork(hash: Hash, x: Entry, y: Entry)
    ensures var w := Run(hash, false, START, [TakeLock(1)] + [TakeLock(2)] + [ReadTail(1)] + [ReadTail(2)]
                                             + [Insert(1, x)] + [Insert(2, y)] + [Commit(1)] + [Commit(2)]);
            && |w.committed| == 2
            && w.committed[0].prevChecksum == w.committed[1].prevChecksum == GENESIS
            && (Intact(hash, w.committed) <==> hash(w.committed[0].Payload()) == GENESIS)
  {
    var r, s := Seal(hash, 1, x, GENESIS), Seal(hash, 2, y, GENESIS);
    var q := Session(HasRead(GENESIS), []);
    var w4 := World([], 1, None, map[1 := q, 2 := q]);
    var w6 := World([], 3, None, map[1 := Session(Holding, [] + [r]), 2 := Session(Holding, [] + [s])]);
    var before := [TakeLock(1)] + [TakeLock(2)] + ([ReadTail(1)] + [ReadTail(2)]);
    var inserts, commits := [Insert(1, x)] + [Insert(2, y)], [Commit(1)] + [Commit(2)];
    BothReadGenesis(hash);
    assert Run(hash, false, w4, inserts) == w6 by { RunTwice(hash, w4, Insert(1, x), Insert(2, y)); }
    assert Run(hash, false, w6, commits).committed == [r, s] by { RunTwice(hash, w6, Commit(1), Commit(2)); }
    RunConcat(hash, START, before, inserts);
    RunConcat(hash, START, before + inserts, commits);
    assert [TakeLock(1)] + [TakeLock(2)] + [ReadTail(1)] + [ReadTail(2)]
           + [Insert(1, x)] + [Insert(2, y)] + [Commit(1)] + [Commit(2)] == before + inserts + commits;
    ForkedPair(hash, r, s);
  }

  lemma BothReadGenesis(hash: Hash)
    ensures var q := Session(HasRead(GENESIS), []);
            Run(hash, false, START, [TakeLock(1)] + [TakeLock(2)] + ([ReadTail(1)] + [ReadTail(2)]))
            == World([], 1, None, map[1 := q, 2 := q])
  {
    var h, q := Session(Holding, []), Session(HasRead(GENESIS), []);
    var w2 := World([], 1, None, map[1 := h, 2 := h]);
    assert Run(hash, false, START, [TakeLock(1)] + [TakeLock(2)]) == w2 by {
      RunTwice(hash, START, TakeLock(1), TakeLock(2));
    }
    assert Run(hash, false, w2, [ReadTail(1)] + [ReadTail(2)]) == World([], 1, None, map[1 := q, 2 := q]) by {
      RunTwice(hash, w2, ReadTail(1), ReadTail(2));
    }
    RunConcat(hash, START, [TakeLock(1)] + [TakeLock(2)], [ReadTail(1)] + [ReadTail(2)]);
  }

  lemma ForkedPair(hash: Hash, r: AuditRow, s: AuditRow)
    requires Extends(hash, [], r) && Extends(hash, [], s)
    ensures Intact(hash, [r, s]) <==> hash(r.Payload()) == GENESIS
  {
    AppendKeepsVerdict(hash, [], r);
    AppendLinks(hash, [r], s);
    assert [] + [r] == [r] && [r] + [s] == [r, s];
    if Intact(hash, [r, s]) { assert Linked(hash, [r, s], 1); }
  }

  lemma RunTwice(hash: Hash, w: World, a: Action, b: Action)
    ensures Run(hash, false, w, [a] + [b]) == Step(hash, false, Step(hash, false, w, a), b)
  {
    RunCons(hash, false, w, a, [b]);
    assert [b][1..] == [];
  }

  lemma {:induction false} RunConcat(hash: Hash, w: World, a: seq<Action>, b: seq<Action>)
    ensures Run(hash, false, w, a + b) == Run(hash, false, Run(hash, false, w, a), b)
    decreases |a|
  {
    if a == [] {
      assert a + b == b;
    } else {
      assert (a + b)[1..] == a[1..] + b;
      RunConcat(hash, Step(hash, false, w, a[0]), a[1..], b);
    }
  }
}
