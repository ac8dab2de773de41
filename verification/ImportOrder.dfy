/** When the order of the rows in an import file matters. */
module ImportOrder {
  import opened Common
  import opened TraineeImport

  /** What one row does to the table, if it is the one of its kind that counts. */
  datatype Write = NewRow(t: Trainee) | Change(id: Id, t: Trainee)

  /** A row the plan accepts, as long as it repeats no earlier one. */
  predicate Acceptable(lines: Lines, rows: seq<Trainee>, x: Raw) {
    FieldErrors(lines, x) == CLEAN && Judge(rows, x).0 != Skip
  }

  /** Acceptable, yet too long for some column: storing it raises. */
  predicate Wide(lines: Lines, rows: seq<Trainee>, x: Raw) {
    Acceptable(lines, rows, x) && !Fits(Fresh(lines, x))
  }

  /** The write a row asks for on its own: none when it is not acceptable, does not fit, or repeats what the
      table already says. */
  function WriteOf(lines: Lines, rows: seq<Trainee>, x: Raw): Option<Write> {
    if !Acceptable(lines, rows, x) || Wide(lines, rows, x) then None
    else
      match Judge(rows, x).0
      case Skip => None
      case Create => Some(NewRow(Fresh(lines, x)))
      case Update(id) =>
        if id < |rows| && Overwritten(lines, x, rows[id]) != rows[id]
        then Some(Change(id, Overwritten(lines, x, rows[id]))) else None
  }

  /** Two rows repeat each other when they share an employee number or a phone. */
  predicate Repeats(x: Raw, y: Raw) {
    (Emp(x) != "" && Emp(x) == Emp(y)) || (Phone(x) != "" && Phone(x) == Phone(y))
  }

  ghost predicate RepeatsAgree(lines: Lines, rows: seq<Trainee>, csv: seq<Raw>) {
    forall x, y :: x in csv && y in csv && Repeats(x, y) ==> WriteOf(lines, rows, x) == WriteOf(lines, rows, y)
  }

  /** A group of wide rows that no row outside the group repeats: one of them is always stored first, and
      raises. */
  ghost predicate Doomed(lines: Lines, rows: seq<Trainee>, csv: seq<Raw>, group: set<Raw>) {
    && group != {}
    && (forall x :: x in group ==> x in csv && Wide(lines, rows, x))
    && (forall x, y :: x in group && y in csv && Repeats(x, y) ==> y in group)
  }

  ghost predicate AnyWide(lines: Lines, rows: seq<Trainee>, csv: seq<Raw>) {
    exists x :: x in csv && Wide(lines, rows, x)
  }

  /** The check a caller can make on the file. Without wide rows: rows that repeat each other ask for the same
      write. With wide rows: the file asks for no write at all, or is doomed. */
  ghost predicate OrderFree(lines: Lines, rows: seq<Trainee>, csv: seq<Raw>) {
    if !AnyWide(lines, rows, csv) then RepeatsAgree(lines, rows, csv)
    else
      || (forall x :: x in csv ==> WriteOf(lines, rows, x) == None)
      || (exists group :: Doomed(lines, rows, csv, group))
  }

  /** The table after planning and applying the file; an exception leaves it as it was. */
  function Final(lines: Lines, rows: seq<Trainee>, csv: seq<Raw>): seq<Trainee> {
    match Applied(lines, rows, Planned(lines, rows, csv, |csv|), |csv|)
    case Ok((after, _)) => after
    case Err(_) => rows
  }

  /** Equal existing rows, equal new rows; new rows may sit in another order. */
  ghost predicate SameDatabase(rows: seq<Trainee>, a: seq<Trainee>, b: seq<Trainee>) {
    && |rows| <= |a| && |rows| <= |b|
    && (forall i :: 0 <= i < |rows| ==> a[i] == b[i])
    && (forall t :: t in a[|rows|..] <==> t in b[|rows|..])
  }

  ghost predicate Reorders(csv: seq<Raw>, p: seq<Raw>) {
    multiset(p) == multiset(csv)
  }

  // ---------- The writes of a file ----------

  predicate First(csv: seq<Raw>, k: nat)
    requires k < |csv|
  {
    forall j :: 0 <= j < k ==> !Repeats(csv[j], csv[k])
  }

  /** Some accepted row is too wide, so the import raises and is undone. */
  ghost predicate Fails(lines: Lines, rows: seq<Trainee>, csv: seq<Raw>) {
    exists k :: 0 <= k < |csv| && First(csv, k) && Wide(lines, rows, csv[k])
  }

  ghost predicate Asks(lines: Lines, rows: seq<Trainee>, csv: seq<Raw>, w: Write) {
    exists k :: 0 <= k < |csv| && First(csv, k) && WriteOf(lines, rows, csv[k]) == Some(w)
  }

  ghost predicate Does(lines: Lines, rows: seq<Trainee>, csv: seq<Raw>, w: Write) {
    !Fails(lines, rows, csv) && Asks(lines, rows, csv, w)
  }

  lemma {:induction false} NothingEarlier(csv: seq<Raw>, n: nat, column: Column, value: string)
    requires n <= |csv| && forall j :: 0 <= j < n ==> Cell(csv[j], column) != value
    ensures FirstLine(csv, n, column, value) == None
  {
    if n == 0 {
    } else {
      NothingEarlier(csv, n - 1, column, value);
    }
  }

  /** A row is accepted exactly when it is clean, fits the table and repeats no earlier row. */
  lemma AcceptedIff(lines: Lines, rows: seq<Trainee>, csv: seq<Raw>, k: nat)
    requires k < |csv|
    ensures Accepted(PlanRow(lines, rows, csv, k)) <==>
              FieldErrors(lines, csv[k]) == CLEAN && First(csv, k) && Judge(rows, csv[k]).0 != Skip
    ensures Accepted(PlanRow(lines, rows, csv, k)) ==> PlanRow(lines, rows, csv, k).action == Judge(rows, csv[k]).0
  {
    var x := csv[k];
    if Accepted(PlanRow(lines, rows, csv, k)) {
      EarlyClean(lines, rows, csv, k);
      forall j | 0 <= j < k ensures !Repeats(csv[j], x) { AcceptedDiffer(lines, rows, csv, j, k); }
    } else if FieldErrors(lines, x) == CLEAN && First(csv, k) {
      CleanRow(lines, x);
      forall j | 0 <= j < k ensures Emp(csv[j]) != Emp(x) && Phone(csv[j]) != Phone(x) {
        assert !Repeats(csv[j], x);
      }
      NothingEarlier(csv, k, EmployeeNumber, Emp(x));
      NothingEarlier(csv, k, PhoneNumber, Phone(x));
      assert EarlyErrors(lines, csv, k) == CLEAN;
    }
  }

  ghost predicate Shows(rows: seq<Trainee>, after: seq<Trainee>, w: Write)
    requires |rows| <= |after|
  {
    match w
    case NewRow(t) => t in after[|rows|..]
    case Change(id, t) => id < |rows| && after[id] == t != rows[id]
  }

  /** The import raises exactly when an accepted row is too wide. */
  lemma FailsIffUnfit(lines: Lines, rows: seq<Trainee>, csv: seq<Raw>)
    ensures AllFit(lines, Planned(lines, rows, csv, |csv|), |csv|) <==> !Fails(lines, rows, csv)
  {
    var plan := Planned(lines, rows, csv, |csv|);
    forall k | 0 <= k < |csv|
      ensures RowFits(lines, plan[k]) <==> !(First(csv, k) && Wide(lines, rows, csv[k]))
    {
      PlannedAt(lines, rows, csv, |csv|, k);
      AcceptedIff(lines, rows, csv, k);
      assert plan[k].raw == csv[k];
    }
  }

  lemma FinalDecided(lines: Lines, rows: seq<Trainee>, csv: seq<Raw>)
    requires Unique(rows)
    ensures if Fails(lines, rows, csv) then Final(lines, rows, csv) == rows
            else Outcome(lines, rows, Planned(lines, rows, csv, |csv|), Final(lines, rows, csv))
  {
    var plan := Planned(lines, rows, csv, |csv|);
    ImportIsSafe(lines, rows, csv, |csv|);
    FailsIffUnfit(lines, rows, csv);
    if !Fails(lines, rows, csv) {
      var r := Applied(lines, rows, plan, |csv|).value;
      SoundIsOutcome(lines, rows, plan, r.0, r.1);
    }
  }

  lemma AskedIsAccepted(lines: Lines, rows: seq<Trainee>, csv: seq<Raw>, k: nat)
    requires k < |csv| && First(csv, k) && Acceptable(lines, rows, csv[k])
    ensures Accepts(Planned(lines, rows, csv, |csv|), csv[k], Judge(rows, csv[k]).0)
  {
    AcceptedIff(lines, rows, csv, k);
    PlannedAt(lines, rows, csv, |csv|, k);
    assert Planned(lines, rows, csv, |csv|)[k].raw == csv[k];
  }

  lemma AskedShows(lines: Lines, rows: seq<Trainee>, csv: seq<Raw>, after: seq<Trainee>, w: Write)
    requires Outcome(lines, rows, Planned(lines, rows, csv, |csv|), after) && Asks(lines, rows, csv, w)
    ensures Shows(rows, after, w)
  {
    var k :| 0 <= k < |csv| && First(csv, k) && WriteOf(lines, rows, csv[k]) == Some(w);
    AskedIsAccepted(lines, rows, csv, k);
    if w.Change? {
      PlansAreSafe(lines, rows, csv);
      UpdateShows(lines, rows, Planned(lines, rows, csv, |csv|), after, csv[k], w.id);
    }
  }

  lemma AcceptedRow(lines: Lines, rows: seq<Trainee>, csv: seq<Raw>, raw: Raw, action: Action) returns (k: nat)
    requires Accepts(Planned(lines, rows, csv, |csv|), raw, action)
    ensures k < |csv| && csv[k] == raw && First(csv, k) && Acceptable(lines, rows, raw)
    ensures action == Judge(rows, raw).0
  {
    var plan := Planned(lines, rows, csv, |csv|);
    k :| 0 <= k < |plan| && Accepted(plan[k]) && plan[k].raw == raw && plan[k].action == action;
    PlannedAt(lines, rows, csv, |csv|, k);
    AcceptedIff(lines, rows, csv, k);
    EarlyClean(lines, rows, csv, k);
  }

  lemma AcceptedIsAsked(lines: Lines, rows: seq<Trainee>, csv: seq<Raw>, raw: Raw, action: Action)
    requires Accepts(Planned(lines, rows, csv, |csv|), raw, action) && !Fails(lines, rows, csv)
    ensures action == Judge(rows, raw).0 && Acceptable(lines, rows, raw) && !Wide(lines, rows, raw)
    ensures WriteOf(lines, rows, raw).Some? ==> Asks(lines, rows, csv, WriteOf(lines, rows, raw).value)
  {
    var k := AcceptedRow(lines, rows, csv, raw, action);
  }

  lemma NewRowIsAsked(lines: Lines, rows: seq<Trainee>, csv: seq<Raw>, after: seq<Trainee>, t: Trainee)
    requires Outcome(lines, rows, Planned(lines, rows, csv, |csv|), after) && t in after[|rows|..]
    requires !Fails(lines, rows, csv)
    ensures Asks(lines, rows, csv, NewRow(t))
  {
    var raw :| Accepts(Planned(lines, rows, csv, |csv|), raw, Create) && t == Fresh(lines, raw);
    AcceptedIsAsked(lines, rows, csv, raw, Create);
  }

  lemma ChangeIsAsked(lines: Lines, rows: seq<Trainee>, csv: seq<Raw>, after: seq<Trainee>, id: Id)
    requires Outcome(lines, rows, Planned(lines, rows, csv, |csv|), after) && !Fails(lines, rows, csv)
    requires id < |rows| <= |after| && after[id] != rows[id]
    ensures Asks(lines, rows, csv, Change(id, after[id]))
  {
    var raw :| Accepts(Planned(lines, rows, csv, |csv|), raw, Update(id))
               && after[id] == Overwritten(lines, raw, rows[id]);
    AcceptedIsAsked(lines, rows, csv, raw, Update(id));
  }

  /** The final table shows exactly the writes the file does. */
  lemma ShowsIffDoes(lines: Lines, rows: seq<Trainee>, csv: seq<Raw>, w: Write)
    requires Unique(rows)
    ensures |rows| <= |Final(lines, rows, csv)|
    ensures Shows(rows, Final(lines, rows, csv), w) <==> Does(lines, rows, csv, w)
  {
    var after := Final(lines, rows, csv);
    FinalDecided(lines, rows, csv);
    if !Fails(lines, rows, csv) {
      if Asks(lines, rows, csv, w) { AskedShows(lines, rows, csv, after, w); }
      if Shows(rows, after, w) {
        match w
        case NewRow(t) => NewRowIsAsked(lines, rows, csv, after, t);
        case Change(id, _) => ChangeIsAsked(lines, rows, csv, after, id);
      }
    }
  }

  /** Two files end in the same database exactly when they do the same writes. */
  lemma SameDatabaseIff(lines: Lines, rows: seq<Trainee>, p: seq<Raw>, q: seq<Raw>)
    requires Unique(rows)
    ensures SameDatabase(rows, Final(lines, rows, p), Final(lines, rows, q)) <==>
              forall w :: Does(lines, rows, p, w) <==> Does(lines, rows, q, w)
  {
    var a, b := Final(lines, rows, p), Final(lines, rows, q);
    FinalDecided(lines, rows, p);
    FinalDecided(lines, rows, q);
    forall w
      ensures Shows(rows, a, w) <==> Does(lines, rows, p, w)
      ensures Shows(rows, b, w) <==> Does(lines, rows, q, w)
    {
      ShowsIffDoes(lines, rows, p, w);
      ShowsIffDoes(lines, rows, q, w);
    }
    if forall w :: Does(lines, rows, p, w) <==> Does(lines, rows, q, w) {
      SameWritesSameDatabase(lines, rows, a, b);
    }
  }

  lemma OneWriteTellsApart(lines: Lines, rows: seq<Trainee>, p: seq<Raw>, q: seq<Raw>, w: Write)
    requires Unique(rows) && Does(lines, rows, p, w) && !Does(lines, rows, q, w)
    ensures !SameDatabase(rows, Final(lines, rows, p), Final(lines, rows, q))
  {
    SameDatabaseIff(lines, rows, p, q);
  }

  lemma SameWritesSameDatabase(lines: Lines, rows: seq<Trainee>, a: seq<Trainee>, b: seq<Trainee>)
    requires |rows| <= |a| && |rows| <= |b| && forall w :: Shows(rows, a, w) <==> Shows(rows, b, w)
    ensures SameDatabase(rows, a, b)
  {
    forall i | 0 <= i < |rows| ensures a[i] == b[i] {
      assert Shows(rows, a, Change(i, a[i])) <==> Shows(rows, b, Change(i, a[i]));
      assert Shows(rows, a, Change(i, b[i])) <==> Shows(rows, b, Change(i, b[i]));
    }
    forall t ensures t in a[|rows|..] <==> t in b[|rows|..] {
      assert Shows(rows, a, NewRow(t)) <==> Shows(rows, b, NewRow(t));
    }
  }

  // ---------- Agreeing repeats: order does not matter ----------

  /** Rows asking for the same write carry the same employee number and phone. */
  lemma WriteNamesRow(lines: Lines, rows: seq<Trainee>, x: Raw, y: Raw)
    requires WriteOf(lines, rows, x).Some? && WriteOf(lines, rows, x) == WriteOf(lines, rows, y)
    ensures Emp(x) == Emp(y) != "" && Phone(x) == Phone(y) != ""
  {
    CleanRow(lines, x);
    CleanRow(lines, y);
    FindsFirst(rows, |rows|, Emp(x));
    FindsFirst(rows, |rows|, Emp(y));
  }

  lemma {:induction false} FirstRepeat(q: seq<Raw>, n: nat, x: Raw) returns (m: nat)
    requires n < |q| && Repeats(q[n], x)
    ensures m <= n && Repeats(q[m], x) && forall j :: 0 <= j < m ==> !Repeats(q[j], x)
  {
    if j :| 0 <= j < n && Repeats(q[j], x) {
      m := FirstRepeat(q, j, x);
    } else {
      m := n;
    }
  }

  lemma AgreeingWriteSurvives(lines: Lines, rows: seq<Trainee>, p: seq<Raw>, q: seq<Raw>, w: Write)
    requires RepeatsAgree(lines, rows, q) && Asks(lines, rows, p, w) && forall x :: x in p ==> x in q
    ensures Asks(lines, rows, q, w)
  {
    var k :| 0 <= k < |p| && First(p, k) && WriteOf(lines, rows, p[k]) == Some(w);
    var x := p[k];
    assert x in q;
    var n :| 0 <= n < |q| && q[n] == x;
    CleanRow(lines, x);
    var m := FirstRepeat(q, n, x);
    assert q[m] in q && WriteOf(lines, rows, q[m]) == Some(w);
    WriteNamesRow(lines, rows, x, q[m]);
    assert First(q, m);
  }

  lemma NoWideNoFailure(lines: Lines, rows: seq<Trainee>, csv: seq<Raw>, p: seq<Raw>)
    requires Reorders(csv, p) && !AnyWide(lines, rows, csv)
    ensures !Fails(lines, rows, p)
  {
    SameRows(csv, p);
  }

  // ---------- Disagreeing repeats: order matters ----------

  function Without(csv: seq<Raw>, x: Raw): seq<Raw> {
    if csv == [] then [] else if csv[0] == x then csv[1..] else [csv[0]] + Without(csv[1..], x)
  }

  lemma {:induction false} PutBack(csv: seq<Raw>, x: Raw)
    requires x in csv
    ensures multiset([x] + Without(csv, x)) == multiset(csv)
    ensures |Without(csv, x)| == |csv| - 1
  {
    assert csv == [csv[0]] + csv[1..];
    if csv[0] == x {
    } else {
      PutBack(csv[1..], x);
      assert [x] + ([csv[0]] + Without(csv[1..], x)) == [x] + [csv[0]] + Without(csv[1..], x);
    }
  }

  lemma BothFirst(csv: seq<Raw>, x: Raw, y: Raw) returns (rest: seq<Raw>)
    requires x in csv && y in csv && x != y
    ensures Reorders(csv, [x] + ([y] + rest)) && Reorders(csv, [y] + ([x] + rest))
  {
    PutBack(csv, x);
    var others := Without(csv, x);
    assert y in multiset([x] + others);
    assert y in others;
    PutBack(others, y);
    rest := Without(others, y);
  }

  /** A row that repeats an earlier one with another write is shut out, and nobody else asks for its write. */
  lemma ShutOut(lines: Lines, rows: seq<Trainee>, x: Raw, y: Raw, more: seq<Raw>, w: Write)
    requires WriteOf(lines, rows, x) == Some(w) && WriteOf(lines, rows, y) != Some(w) && Repeats(x, y)
    ensures !Asks(lines, rows, [y] + more, w)
  {
    var q := [y] + more;
    forall k | 0 <= k < |q| && WriteOf(lines, rows, q[k]) == Some(w) ensures !First(q, k) {
      WriteNamesRow(lines, rows, x, q[k]);
      assert q[0] == y && Repeats(y, q[k]);
    }
  }

  lemma LeadingRowAsks(lines: Lines, rows: seq<Trainee>, p: seq<Raw>, w: Write)
    requires p != [] && WriteOf(lines, rows, p[0]) == Some(w)
    ensures Asks(lines, rows, p, w)
  {
    assert First(p, 0);
  }

  lemma DisagreementShows(lines: Lines, rows: seq<Trainee>, csv: seq<Raw>, x: Raw, y: Raw)
    returns (p: seq<Raw>, q: seq<Raw>)
    requires Unique(rows) && x in csv && y in csv && Repeats(x, y) && !AnyWide(lines, rows, csv)
    requires WriteOf(lines, rows, x).Some? && WriteOf(lines, rows, x) != WriteOf(lines, rows, y)
    ensures Reorders(csv, p) && Reorders(csv, q)
    ensures !SameDatabase(rows, Final(lines, rows, p), Final(lines, rows, q))
  {
    var w := WriteOf(lines, rows, x).value;
    var rest := BothFirst(csv, x, y);
    p := [x] + ([y] + rest);
    q := [y] + ([x] + rest);
    NoWideNoFailure(lines, rows, csv, p);
    LeadingRowAsks(lines, rows, p, w);
    ShutOut(lines, rows, x, y, [x] + rest, w);
    OneWriteTellsApart(lines, rows, p, q, w);
  }

  lemma AgreeingOrders(lines: Lines, rows: seq<Trainee>, csv: seq<Raw>, p: seq<Raw>, q: seq<Raw>)
    requires Unique(rows) && RepeatsAgree(lines, rows, csv) && !AnyWide(lines, rows, csv)
    requires Reorders(csv, p) && Reorders(csv, q)
    ensures SameDatabase(rows, Final(lines, rows, p), Final(lines, rows, q))
  {
    SameRows(csv, p);
    SameRows(csv, q);
    NoWideNoFailure(lines, rows, csv, p);
    NoWideNoFailure(lines, rows, csv, q);
    forall w ensures Does(lines, rows, p, w) <==> Does(lines, rows, q, w) {
      if Asks(lines, rows, p, w) { AgreeingWriteSurvives(lines, rows, p, q, w); }
      if Asks(lines, rows, q, w) { AgreeingWriteSurvives(lines, rows, q, p, w); }
    }
    SameDatabaseIff(lines, rows, p, q);
  }

  // ---------- Wide rows: when every order raises or writes nothing ----------

  lemma {:induction false} FirstOfGroup(p: seq<Raw>, group: set<Raw>, n: nat) returns (m: nat)
    requires n < |p| && p[n] in group
    ensures m <= n && p[m] in group && forall j :: 0 <= j < m ==> p[j] !in group
  {
    if j :| 0 <= j < n && p[j] in group {
      m := FirstOfGroup(p, group, j);
    } else {
      m := n;
    }
  }

  lemma DoomedFails(lines: Lines, rows: seq<Trainee>, csv: seq<Raw>, group: set<Raw>, p: seq<Raw>)
    requires Doomed(lines, rows, csv, group) && Reorders(csv, p)
    ensures Fails(lines, rows, p)
  {
    SameRows(csv, p);
    var x :| x in group;
    var n :| 0 <= n < |p| && p[n] == x;
    var m := FirstOfGroup(p, group, n);
    forall j | 0 <= j < m ensures !Repeats(p[j], p[m]) {
      assert p[j] in csv && p[j] !in group;
      assert Repeats(p[j], p[m]) <==> Repeats(p[m], p[j]);
    }
    assert First(p, m);
  }

  lemma NothingAskedNothingDone(lines: Lines, rows: seq<Trainee>, csv: seq<Raw>, p: seq<Raw>, w: Write)
    requires Reorders(csv, p) && forall x :: x in csv ==> WriteOf(lines, rows, x) == None
    ensures !Does(lines, rows, p, w)
  {
    SameRows(csv, p);
  }

  // ---------- Wide rows: an order that goes through and writes ----------

  function Keep(csv: seq<Raw>, group: set<Raw>, inside: bool): seq<Raw> {
    if csv == [] then []
    else (if (csv[0] in group) == inside then [csv[0]] else []) + Keep(csv[1..], group, inside)
  }

  lemma {:induction false} KeepMembers(csv: seq<Raw>, group: set<Raw>, inside: bool)
    ensures forall x :: x in Keep(csv, group, inside) <==> x in csv && (x in group) == inside
  {
    if csv == [] {
    } else {
      KeepMembers(csv[1..], group, inside);
      assert csv == [csv[0]] + csv[1..];
    }
  }

  lemma {:induction false} KeepSplits(csv: seq<Raw>, group: set<Raw>)
    ensures multiset(Keep(csv, group, false)) + multiset(Keep(csv, group, true)) == multiset(csv)
  {
    if csv == [] {
    } else {
      KeepSplits(csv[1..], group);
      assert csv == [csv[0]] + csv[1..];
    }
  }

  /** Placing a wide row after a row that repeats it does no harm. */
  lemma BlockedRowIsHarmless(lines: Lines, rows: seq<Trainee>, done: seq<Raw>, x: Raw, y: Raw)
    requires !Fails(lines, rows, done) && y in done && Repeats(y, x)
    ensures !Fails(lines, rows, done + [x])
  {
    var all := done + [x];
    var j :| 0 <= j < |done| && done[j] == y;
    assert all[j] == y;
    forall k | 0 <= k < |all| && Wide(lines, rows, all[k]) ensures !First(all, k) {
      if k < |done| {
        assert !First(done, k);
        var i :| 0 <= i < k && Repeats(done[i], done[k]);
        assert all[i] == done[i] && all[k] == done[k];
      } else {
        assert Repeats(all[j], all[k]);
      }
    }
  }

  lemma MoveOne(csv: seq<Raw>, done: seq<Raw>, left: seq<Raw>, x: Raw)
    requires multiset(done) + multiset(left) == multiset(csv) && x in left
    ensures multiset(done + [x]) + multiset(Without(left, x)) == multiset(csv)
    ensures |Without(left, x)| < |left| && forall z :: z in Without(left, x) ==> z in left
  {
    PutBack(left, x);
    assert multiset([x] + Without(left, x)) == multiset{x} + multiset(Without(left, x));
    forall z | z in Without(left, x) ensures z in left {
      assert z in multiset([x] + Without(left, x));
    }
  }

  /** Outside a doomed file, wide rows can be placed one by one, each behind a row that repeats it. */
  lemma {:induction false} PlaceWideRows(lines: Lines, rows: seq<Trainee>, csv: seq<Raw>, done: seq<Raw>,
          left: seq<Raw>) returns (p: seq<Raw>)
    requires forall group :: !Doomed(lines, rows, csv, group)
    requires multiset(done) + multiset(left) == multiset(csv) && done != [] && !Fails(lines, rows, done)
    requires forall x :: x in left ==> Wide(lines, rows, x)
    ensures Reorders(csv, p) && p != [] && p[0] == done[0] && !Fails(lines, rows, p)
    decreases |left|
  {
    if left == [] {
      p := done;
    } else {
      var x, y := UnblockedRow(lines, rows, csv, done, left);
      BlockedRowIsHarmless(lines, rows, done, x, y);
      MoveOne(csv, done, left, x);
      p := PlaceWideRows(lines, rows, csv, done + [x], Without(left, x));
    }
  }

  /** Some row still to be placed is repeated by one already placed. */
  lemma UnblockedRow(lines: Lines, rows: seq<Trainee>, csv: seq<Raw>, done: seq<Raw>, left: seq<Raw>)
    returns (x: Raw, y: Raw)
    requires forall group :: !Doomed(lines, rows, csv, group)
    requires multiset(done) + multiset(left) == multiset(csv) && left != []
    requires forall z :: z in left ==> Wide(lines, rows, z)
    ensures x in left && y in done && Repeats(y, x)
  {
    var group := SetOf(left);
    assert left[0] in group;
    assert !Doomed(lines, rows, csv, group);
    forall z ensures z in csv <==> z in done || z in left { MemberOfEither(csv, done, left, z); }
    x, y :| x in group && y in csv && Repeats(x, y) && y !in group;
  }

  lemma MemberOfEither(csv: seq<Raw>, done: seq<Raw>, left: seq<Raw>, z: Raw)
    requires multiset(done) + multiset(left) == multiset(csv)
    ensures z in csv <==> z in done || z in left
  {
    assert z in csv <==> z in multiset(csv);
    assert z in done <==> z in multiset(done);
    assert z in left <==> z in multiset(left);
  }

  lemma FittingRowsPass(lines: Lines, rows: seq<Trainee>, done: seq<Raw>)
    requires forall z :: z in done ==> !Wide(lines, rows, z)
    ensures !Fails(lines, rows, done)
  {
  }

  /** `y` first, then the other fitting rows. */
  lemma FittingFirst(lines: Lines, rows: seq<Trainee>, csv: seq<Raw>, y: Raw) returns (more: seq<Raw>, wide: seq<Raw>)
    requires y in csv && !Wide(lines, rows, y)
    ensures multiset([y] + more) + multiset(wide) == multiset(csv) && !Fails(lines, rows, [y] + more)
    ensures forall z :: z in wide ==> Wide(lines, rows, z)
  {
    var group := set z | z in csv && Wide(lines, rows, z);
    var fitting := Keep(csv, group, false);
    wide := Keep(csv, group, true);
    KeepSplits(csv, group);
    KeepMembers(csv, group, false);
    KeepMembers(csv, group, true);
    PutBack(fitting, y);
    more := Without(fitting, y);
    forall z | z in [y] + more ensures !Wide(lines, rows, z) {
      assert z in multiset([y] + more);
      assert z in fitting;
    }
    FittingRowsPass(lines, rows, [y] + more);
  }

  lemma WritingOrder(lines: Lines, rows: seq<Trainee>, csv: seq<Raw>, y: Raw, w: Write) returns (p: seq<Raw>)
    requires forall group :: !Doomed(lines, rows, csv, group)
    requires y in csv && WriteOf(lines, rows, y) == Some(w)
    ensures Reorders(csv, p) && Does(lines, rows, p, w)
  {
    var more, wide := FittingFirst(lines, rows, csv, y);
    p := PlaceWideRows(lines, rows, csv, [y] + more, wide);
    LeadingRowAsks(lines, rows, p, w);
  }

  lemma RaisingOrder(lines: Lines, rows: seq<Trainee>, csv: seq<Raw>, x: Raw) returns (p: seq<Raw>)
    requires x in csv && Wide(lines, rows, x)
    ensures Reorders(csv, p) && Fails(lines, rows, p)
  {
    PutBack(csv, x);
    p := [x] + Without(csv, x);
    assert p[0] == x && First(p, 0);
  }

  // ---------- The exact condition ----------

  lemma OrderFreeSuffices(lines: Lines, rows: seq<Trainee>, csv: seq<Raw>, p: seq<Raw>, q: seq<Raw>)
    requires Unique(rows) && OrderFree(lines, rows, csv) && Reorders(csv, p) && Reorders(csv, q)
    ensures SameDatabase(rows, Final(lines, rows, p), Final(lines, rows, q))
  {
    if !AnyWide(lines, rows, csv) {
      AgreeingOrders(lines, rows, csv, p, q);
    } else {
      forall w ensures !Does(lines, rows, p, w) && !Does(lines, rows, q, w) {
        if group :| Doomed(lines, rows, csv, group) {
          DoomedFails(lines, rows, csv, group, p);
          DoomedFails(lines, rows, csv, group, q);
        } else {
          NothingAskedNothingDone(lines, rows, csv, p, w);
          NothingAskedNothingDone(lines, rows, csv, q, w);
        }
      }
      SameDatabaseIff(lines, rows, p, q);
    }
  }

  lemma OrderMatters(lines: Lines, rows: seq<Trainee>, csv: seq<Raw>) returns (p: seq<Raw>, q: seq<Raw>)
    requires Unique(rows) && !OrderFree(lines, rows, csv)
    ensures Reorders(csv, p) && Reorders(csv, q)
    ensures !SameDatabase(rows, Final(lines, rows, p), Final(lines, rows, q))
  {
    if !AnyWide(lines, rows, csv) {
      var x, y :| x in csv && y in csv && Repeats(x, y) && WriteOf(lines, rows, x) != WriteOf(lines, rows, y);
      if WriteOf(lines, rows, x).Some? {
        p, q := DisagreementShows(lines, rows, csv, x, y);
      } else {
        p, q := DisagreementShows(lines, rows, csv, y, x);
      }
    } else {
      var x :| x in csv && Wide(lines, rows, x);
      var y :| y in csv && WriteOf(lines, rows, y) != None;
      var w := WriteOf(lines, rows, y).value;
      p := WritingOrder(lines, rows, csv, y, w);
      q := RaisingOrder(lines, rows, csv, x);
      OneWriteTellsApart(lines, rows, p, q, w);
    }
  }

  /** All orders of a file lead to the same database, exceptions and their rollback included, if and only if
      it is order-free. */
  lemma OrderIsIrrelevantIff(lines: Lines, rows: seq<Trainee>, csv: seq<Raw>)
    requires Unique(rows)
    ensures OrderFree(lines, rows, csv) <==>
              forall p, q :: Reorders(csv, p) && Reorders(csv, q) ==>
                SameDatabase(rows, Final(lines, rows, p), Final(lines, rows, q))
  {
    if OrderFree(lines, rows, csv) {
      forall p, q | Reorders(csv, p) && Reorders(csv, q)
        ensures SameDatabase(rows, Final(lines, rows, p), Final(lines, rows, q))
      {
        OrderFreeSuffices(lines, rows, csv, p, q);
      }
    } else {
      var p, q := OrderMatters(lines, rows, csv);
    }
  }

  lemma SameRows(csv: seq<Raw>, p: seq<Raw>)
    requires Reorders(csv, p)
    ensures forall x :: x in p <==> x in csv
  {
    forall x ensures x in p <==> x in csv {
      assert x in p <==> x in multiset(p);
      assert x in csv <==> x in multiset(csv);
    }
  }

  // ---------- The import page ----------

  /** No two lines repeat each other. */
  ghost predicate NoRepeats(csv: seq<Raw>) {
    forall j, k :: 0 <= j < k < |csv| ==> !Repeats(csv[j], csv[k])
  }

  /** The import page applies a plan only when none of its rows has an error. */
  ghost predicate Importable(lines: Lines, rows: seq<Trainee>, csv: seq<Raw>) {
    forall k :: 0 <= k < |csv| ==> PlanRow(lines, rows, csv, k).errors == CLEAN
  }

  lemma ImportableIff(lines: Lines, rows: seq<Trainee>, csv: seq<Raw>)
    ensures Importable(lines, rows, csv) <==>
              NoRepeats(csv) && forall x :: x in csv ==> Acceptable(lines, rows, x)
  {
    forall k | 0 <= k < |csv|
      ensures PlanRow(lines, rows, csv, k).errors == CLEAN <==> First(csv, k) && Acceptable(lines, rows, csv[k])
    {
      AcceptedIff(lines, rows, csv, k);
    }
    if Importable(lines, rows, csv) {
      forall j, k | 0 <= j < k < |csv| ensures !Repeats(csv[j], csv[k]) { assert First(csv, k); }
    }
    if NoRepeats(csv) && forall x :: x in csv ==> Acceptable(lines, rows, x) {
      forall k | 0 <= k < |csv| ensures First(csv, k) && Acceptable(lines, rows, csv[k]) { assert csv[k] in csv; }
    }
  }

  lemma {:induction false} OnlyOnce(csv: seq<Raw>, x: Raw)
    requires NoRepeats(csv) && Repeats(x, x)
    ensures multiset(csv)[x] <= 1
  {
    if csv == [] {
    } else {
      var init := csv[..|csv| - 1];
      assert csv == init + [csv[|csv| - 1]];
      forall j, k | 0 <= j < k < |init| ensures !Repeats(init[j], init[k]) { assert !Repeats(csv[j], csv[k]); }
      OnlyOnce(init, x);
      forall j | 0 <= j < |init| && csv[|csv| - 1] == x ensures init[j] != x {
        assert !Repeats(csv[j], csv[|csv| - 1]);
      }
    }
  }

  lemma PlacedTwice(p: seq<Raw>, j: nat, k: nat)
    requires j < k < |p| && p[j] == p[k]
    ensures multiset(p)[p[k]] >= 2
  {
    assert p == p[..k] + [p[k]] + p[k + 1..];
    assert p[..k][j] == p[k];
    assert p[k] in multiset(p[..k]);
  }

  lemma NoRepeatsReorders(csv: seq<Raw>, p: seq<Raw>)
    requires NoRepeats(csv) && Reorders(csv, p) && forall x :: x in csv ==> Repeats(x, x)
    ensures NoRepeats(p)
  {
    SameRows(csv, p);
    forall j, k | 0 <= j < k < |p| ensures !Repeats(p[j], p[k]) {
      assert p[j] in csv && p[k] in csv;
      var a :| 0 <= a < |csv| && csv[a] == p[j];
      var b :| 0 <= b < |csv| && csv[b] == p[k];
      if p[j] == p[k] {
        OnlyOnce(csv, p[k]);
        PlacedTwice(p, j, k);
        assert false;
      } else if a < b {
        assert !Repeats(csv[a], csv[b]);
      } else {
        assert !Repeats(csv[b], csv[a]);
      }
    }
  }

  /** Whether the page accepts a file does not depend on the order of its lines. */
  lemma ImportableReorders(lines: Lines, rows: seq<Trainee>, csv: seq<Raw>, p: seq<Raw>)
    requires Reorders(csv, p)
    ensures Importable(lines, rows, csv) <==> Importable(lines, rows, p)
  {
    ImportableIff(lines, rows, csv);
    ImportableIff(lines, rows, p);
    SameRows(csv, p);
    if Importable(lines, rows, csv) {
      forall x | x in csv ensures Repeats(x, x) { CleanRow(lines, x); }
      NoRepeatsReorders(csv, p);
    }
    if Importable(lines, rows, p) {
      forall x | x in p ensures Repeats(x, x) { CleanRow(lines, x); }
      NoRepeatsReorders(p, csv);
    }
  }

  lemma SameLine(csv: seq<Raw>, x: Raw, y: Raw)
    requires NoRepeats(csv) && x in csv && y in csv && Repeats(x, y)
    ensures x == y
  {
    var j :| 0 <= j < |csv| && csv[j] == x;
    var k :| 0 <= k < |csv| && csv[k] == y;
    if j < k {
      assert false;
    } else if k < j {
      assert Repeats(csv[k], csv[j]);
    }
  }

  /** A file without repeats is order-free: any wide row alone is doomed. */
  lemma NoRepeatsOrderFree(lines: Lines, rows: seq<Trainee>, csv: seq<Raw>)
    requires NoRepeats(csv)
    ensures OrderFree(lines, rows, csv)
  {
    forall x, y | x in csv && y in csv && Repeats(x, y) ensures x == y { SameLine(csv, x, y); }
    if x :| x in csv && Wide(lines, rows, x) {
      assert Doomed(lines, rows, csv, {x});
    }
  }

  /** On the page the order of the lines never matters: every reordering of an importable file is importable
      and leads to the same database, a refused value included. */
  lemma PageImportsShuffle(lines: Lines, rows: seq<Trainee>, csv: seq<Raw>, p: seq<Raw>)
    requires Unique(rows) && Importable(lines, rows, csv) && Reorders(csv, p)
    ensures Importable(lines, rows, p)
    ensures SameDatabase(rows, Final(lines, rows, csv), Final(lines, rows, p))
  {
    ImportableReorders(lines, rows, csv, p);
    ImportableIff(lines, rows, csv);
    NoRepeatsOrderFree(lines, rows, csv);
    OrderFreeSuffices(lines, rows, csv, csv, p);
  }

  // ---------- Files whose order matters ----------

  function Line(emp: string, name: string, language: string): Raw {
    map[EmployeeNumber := emp, PhoneNumber := "600", FullName := name, RoleCode := "operator", Language := language]
  }

  lemma LineAccepted(emp: string, name: string, language: string)
    requires emp != "" && name != "" && language != ""
    ensures var x := Line(emp, name, language);
            && Acceptable(map[], [], x) && Judge([], x).0 == Create && Phone(x) == "600"
            && Fresh(map[], x) == Trainee(Some(emp), "600", None, name, "operator", None, language, "sms", true)
  {
    var x := Line(emp, name, language);
    assert Emp(x) == emp && Cell(x, FullName) == name && Cell(x, RoleCode) == "operator";
    assert Cell(x, Language) == language;
    assert Channel(x) == "sms" && Cell(x, LineCode) == "" && Cell(x, Email) == "";
    assert FieldErrors(map[], x) == CLEAN;
  }

  lemma LineWrites(emp: string, name: string)
    requires 0 < |emp| <= 32 && 0 < |name| <= 120
    ensures var x := Line(emp, name, "en");
            && WriteOf(map[], [], x) == Some(NewRow(Fresh(map[], x)))
            && Phone(x) == "600" && Fresh(map[], x).fullName == name
  {
    LineAccepted(emp, name, "en");
    assert Fits(Fresh(map[], Line(emp, name, "en")));
  }

  /** Two lines with one phone and two names, on an empty table: whichever comes first is created. */
  lemma OnePhoneTwoNames()
    ensures var x, y := Line("1", "Ann", "en"), Line("2", "Bob", "en");
            !SameDatabase([], Final(map[], [], [x, y]), Final(map[], [], [y, x]))
  {
    var x, y := Line("1", "Ann", "en"), Line("2", "Bob", "en");
    LineWrites("1", "Ann");
    LineWrites("2", "Bob");
    assert "Ann" != "Bob" by { assert "Ann"[0] != "Bob"[0]; }
    LeadingLineDecides(x, y, NewRow(Fresh(map[], x)));
  }

  /** A line that writes, before or after one that repeats it with another write or none. */
  lemma LeadingLineDecides(x: Raw, y: Raw, w: Write)
    requires WriteOf(map[], [], x) == Some(w) && WriteOf(map[], [], y) != Some(w) && Repeats(x, y)
    ensures !SameDatabase([], Final(map[], [], [x, y]), Final(map[], [], [y, x]))
  {
    assert [x] + [y] == [x, y] && [y] + [x] == [y, x];
    LeadingRowAsks(map[], [], [x, y], w);
    ShutOut(map[], [], x, y, [x], w);
    FittingRowsPass(map[], [], [x]);
    BlockedRowIsHarmless(map[], [], [x], y, x);
    OneWriteTellsApart(map[], [], [x, y], [y, x], w);
  }

  /** A fitting line and a too wide one with the same phone: the fitting one first is created, the wide one
      first undoes the import. */
  lemma WideRepeatMakesOrderMatter()
    ensures var x, y := Line("1", "Ann", "en"), Line("2", "Bob", "polish");
            !SameDatabase([], Final(map[], [], [x, y]), Final(map[], [], [y, x]))
  {
    var x, y := Line("1", "Ann", "en"), Line("2", "Bob", "polish");
    LineAccepted("2", "Bob", "polish");
    LineWrites("1", "Ann");
    assert Wide(map[], [], y);
    LeadingLineDecides(x, y, NewRow(Fresh(map[], x)));
  }
}
