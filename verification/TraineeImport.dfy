/** Two-pass CSV import of trainees: a plan computed against the database as it was, then applied row
    by row while the database changes.

    The table is a sequence whose positions are the primary keys. Cell values are already stripped. */
module TraineeImport {
  import opened Common

  type Id = nat

  datatype Column =
    | EmployeeNumber | PhoneNumber | Email | FullName | RoleCode | LineCode | Language | NotificationChannel | IsActive

  /** One CSV row; a column the file does not have is absent. */
  type Raw = map<Column, string>

  datatype Trainee = Trainee(employeeNumber: Option<string>, phone: string, email: Option<string>,
                             fullName: string, roleCode: string, lineId: Option<string>, language: string,
                             channel: string, isActive: bool)

  /** The table's columns are bounded; the flush of a record with a longer value raises. */
  predicate Fits(t: Trainee) {
    && (t.employeeNumber.Some? ==> |t.employeeNumber.value| <= 32)
    && |t.phone| <= 32
    && (t.email.Some? ==> |t.email.value| <= 255)
    && |t.fullName| <= 120
    && |t.roleCode| <= 32
    && (t.lineId.Some? ==> |t.lineId.value| <= 36)
    && |t.language| <= 2
    && |t.channel| <= 10
  }

  type Lines = map<string, string>  // production line code to id

  datatype Conflict = NoConflict | PhoneTaken | PhoneSwap

  /** The errors a row can collect, in the order they are reported; repeats carry the other line. */
  datatype Errors = Errors(noEmployeeNumber: bool, noPhone: bool, noFullName: bool, noRole: bool,
                           unknownChannel: bool, unknownLine: bool, noEmail: bool,
                           repeatedEmployeeNumber: Option<nat>, repeatedPhone: Option<nat>, conflict: Conflict)

  const CLEAN := Errors(false, false, false, false, false, false, false, None, None, NoConflict)

  datatype Action = Skip | Create | Update(id: Id)

  datatype RowResult = RowResult(lineNo: nat, raw: Raw, action: Action, errors: Errors)

  datatype TrainingError = FieldRequired | PhoneRegistered | ChannelUnknown | EmployeeNumberRegistered | ValueTooLong

  datatype Counts = Counts(created: nat, updated: nat, skipped: nat)

  function Cell(raw: Raw, column: Column): string {
    if column in raw then raw[column] else ""
  }

  function OrDefault(s: string, default: string): string {
    if s == "" then default else s
  }

  function Optional(s: string): Option<string> {
    if s == "" then None else Some(s)
  }

  function Emp(raw: Raw): string {
    Cell(raw, EmployeeNumber)
  }

  function Phone(raw: Raw): string {
    Cell(raw, PhoneNumber)
  }

  function Channel(raw: Raw): string {
    OrDefault(Cell(raw, NotificationChannel), "sms")
  }

  function LowerChar(c: char): char {
    if 'A' <= c <= 'Z' then (c as int + 32) as char else c
  }

  function Lower(s: string): string {
    if s == [] then [] else [LowerChar(s[0])] + Lower(s[1..])
  }

  predicate ActiveFlag(raw: Raw) {
    Lower(OrDefault(Cell(raw, IsActive), "true")) in {"true", "1", "yes", "y", "tak", "t"}
  }

  const CHANNELS := {"sms", "email", "both"}

  function LineId(lines: Lines, raw: Raw): Option<string> {
    var code := Cell(raw, LineCode);
    if code in lines then Optional(lines[code]) else None
  }

  /** The record a create row asks for: its activity flag is not consulted. */
  function Fresh(lines: Lines, raw: Raw): Trainee {
    Trainee(Optional(Emp(raw)), Phone(raw), Optional(Cell(raw, Email)), Cell(raw, FullName),
            Cell(raw, RoleCode), LineId(lines, raw), OrDefault(Cell(raw, Language), "en"), Channel(raw), true)
  }

  /** The record an update row turns `t` into: everything but the employee number is overwritten. */
  function Overwritten(lines: Lines, raw: Raw, t: Trainee): Trainee {
    Fresh(lines, raw).(employeeNumber := t.employeeNumber, isActive := ActiveFlag(raw))
  }

  /** Errors of a row on its own. */
  function FieldErrors(lines: Lines, raw: Raw): Errors {
    Errors(Emp(raw) == "", Phone(raw) == "", Cell(raw, FullName) == "", Cell(raw, RoleCode) == "",
           Channel(raw) !in CHANNELS, Cell(raw, LineCode) != "" && Cell(raw, LineCode) !in lines,
           Channel(raw) != "sms" && Cell(raw, Email) == "", None, None, NoConflict)
  }

  /** CSV line of the first of the first `n` rows holding `value` in `column`. */
  function FirstLine(csv: seq<Raw>, n: nat, column: Column, value: string): Option<nat>
    requires n <= |csv|
  {
    if n == 0 then None
    else
      var earlier := FirstLine(csv, n - 1, column, value);
      if earlier.Some? then earlier
      else if Cell(csv[n - 1], column) == value then Some(n - 1 + 2)
      else None
  }

  /** Errors that do not need the database: the row's own and repeats of an earlier row. */
  function EarlyErrors(lines: Lines, csv: seq<Raw>, k: nat): Errors
    requires k < |csv|
  {
    FieldErrors(lines, csv[k]).(
      repeatedEmployeeNumber := if Emp(csv[k]) == "" then None else FirstLine(csv, k, EmployeeNumber, Emp(csv[k])),
      repeatedPhone := if Phone(csv[k]) == "" then None else FirstLine(csv, k, PhoneNumber, Phone(csv[k])))
  }

  /** First of the first `n` trainees with this employee number. */
  function FindEmpIn(rows: seq<Trainee>, n: nat, emp: string): Option<Id>
    requires n <= |rows|
  {
    if n == 0 then None
    else
      var earlier := FindEmpIn(rows, n - 1, emp);
      if earlier.Some? then earlier
      else if rows[n - 1].employeeNumber == Some(emp) then Some(n - 1)
      else None
  }

  function FindEmp(rows: seq<Trainee>, emp: string): Option<Id> {
    FindEmpIn(rows, |rows|, emp)
  }

  lemma {:induction false} FindsFirst(rows: seq<Trainee>, n: nat, emp: string)
    requires n <= |rows|
    ensures var r := FindEmpIn(rows, n, emp);
            if r.Some? then r.value < n && rows[r.value].employeeNumber == Some(emp)
            else forall i :: 0 <= i < n ==> rows[i].employeeNumber != Some(emp)
  {
    if n == 0 {
    } else {
      FindsFirst(rows, n - 1, emp);
    }
  }

  predicate PhoneUsed(rows: seq<Trainee>, phone: string, except: Option<Id>) {
    exists i :: 0 <= i < |rows| && Some(i) != except && rows[i].phone == phone
  }

  /** What an error-free row will do, judged against the database before the import. */
  function Judge(rows: seq<Trainee>, raw: Raw): (Action, Conflict) {
    match FindEmp(rows, Emp(raw))
    case None => if PhoneUsed(rows, Phone(raw), None) then (Skip, PhoneTaken) else (Create, NoConflict)
    case Some(id) => if PhoneUsed(rows, Phone(raw), Some(id)) then (Skip, PhoneSwap) else (Update(id), NoConflict)
  }

  function PlanRow(lines: Lines, rows: seq<Trainee>, csv: seq<Raw>, k: nat): RowResult
    requires k < |csv|
  {
    var early := EarlyErrors(lines, csv, k);
    if early != CLEAN then RowResult(k + 2, csv[k], Skip, early)
    else RowResult(k + 2, csv[k], Judge(rows, csv[k]).0, CLEAN.(conflict := Judge(rows, csv[k]).1))
  }

  /** The whole plan for the first `n` rows. */
  function Planned(lines: Lines, rows: seq<Trainee>, csv: seq<Raw>, n: nat): (plan: seq<RowResult>)
    requires n <= |csv|
    ensures |plan| == n
  {
    if n == 0 then [] else Planned(lines, rows, csv, n - 1) + [PlanRow(lines, rows, csv, n - 1)]
  }

  lemma {:induction false} PlannedAt(lines: Lines, rows: seq<Trainee>, csv: seq<Raw>, n: nat, k: nat)
    requires k < n <= |csv|
    ensures Planned(lines, rows, csv, n)[k] == PlanRow(lines, rows, csv, k)
    decreases n
  {
    if k == n - 1 {
    } else {
      PlannedAt(lines, rows, csv, n - 1, k);
    }
  }

  /** `create_trainee` as a function of the table: its own checks, then the flush. */
  function Created(rows: seq<Trainee>, t: Trainee): Result<seq<Trainee>, TrainingError> {
    if t.phone == "" || t.fullName == "" || t.roleCode == "" then Err(FieldRequired)
    else if PhoneUsed(rows, t.phone, None) then Err(PhoneRegistered)
    else if t.channel !in CHANNELS then Err(ChannelUnknown)
    else if t.employeeNumber.Some? && FindEmp(rows, t.employeeNumber.value).Some? then Err(EmployeeNumberRegistered)
    else if !Fits(t) then Err(ValueTooLong)
    else Ok(rows + [t.(isActive := true)])
  }

  /** One row of the apply pass; Err where `create_trainee` or the flush of an update would raise. */
  function ApplyRow(lines: Lines, rows: seq<Trainee>, r: RowResult): Result<(seq<Trainee>, Counts), TrainingError> {
    if r.errors != CLEAN then Ok((rows, Counts(0, 0, 1)))
    else
      match r.action
      case Update(id) =>
        if |rows| <= id then Ok((rows, Counts(0, 0, 1)))
        else if !Fits(Overwritten(lines, r.raw, rows[id])) then Err(ValueTooLong)
        else Ok((rows[id := Overwritten(lines, r.raw, rows[id])], Counts(0, 1, 0)))
      case Create =>
        (match Created(rows, Fresh(lines, r.raw))
         case Ok(after) => Ok((after, Counts(1, 0, 0)))
         case Err(e) => Err(e))
      case Skip => Ok((rows, Counts(0, 0, 1)))
  }

  function Plus(a: Counts, b: Counts): Counts {
    Counts(a.created + b.created, a.updated + b.updated, a.skipped + b.skipped)
  }

  /** The table and the counts after the first `n` plan rows. */
  function Applied(lines: Lines, rows: seq<Trainee>, plan: seq<RowResult>, n: nat): Result<(seq<Trainee>, Counts),
          TrainingError>
    requires n <= |plan|
  {
    if n == 0 then Ok((rows, Counts(0, 0, 0)))
    else
      match Applied(lines, rows, plan, n - 1)
      case Err(e) => Err(e)
      case Ok((mid, counts)) =>
        match ApplyRow(lines, mid, plan[n - 1])
        case Err(e) => Err(e)
        case Ok((after, c)) => Ok((after, Plus(counts, c)))
  }

  class TraineeTable {
    const lines: Lines
    var rows: seq<Trainee>

    constructor (lines: Lines, rows: seq<Trainee>)
      ensures this.lines == lines && this.rows == rows
    {
      this.lines, this.rows := lines, rows;
    }

    /** A row without errors of its own is judged against the table. */
    method JudgeRow(k: nat, raw: Raw, errors: Errors) returns (result: RowResult)
      ensures result == if errors != CLEAN then RowResult(k + 2, raw, Skip, errors)
                        else RowResult(k + 2, raw, Judge(rows, raw).0, CLEAN.(conflict := Judge(rows, raw).1))
    {
      result := RowResult(k + 2, raw, Skip, errors);
      if errors == CLEAN {
        var judged := Judge(rows, raw);
        result := result.(action := judged.0, errors := errors.(conflict := judged.1));
      }
    }

    method PlanNextRow(seenEmp: map<string, nat>, seenPhone: map<string, nat>, csv: seq<Raw>, k: nat)
      returns (seenEmp': map<string, nat>, seenPhone': map<string, nat>, result: RowResult)
      requires k < |csv|
      requires Remembers(seenEmp, csv, k, EmployeeNumber) && Remembers(seenPhone, csv, k, PhoneNumber)
      ensures Remembers(seenEmp', csv, k + 1, EmployeeNumber) && Remembers(seenPhone', csv, k + 1, PhoneNumber)
      ensures result == PlanRow(lines, rows, csv, k)
    {
      var raw := csv[k];
      var errors := FieldErrors(lines, raw);
      var empRepeat, phoneRepeat;
      seenEmp', empRepeat := NoteValue(seenEmp, csv, k, EmployeeNumber);
      seenPhone', phoneRepeat := NoteValue(seenPhone, csv, k, PhoneNumber);
      errors := errors.(repeatedEmployeeNumber := empRepeat, repeatedPhone := phoneRepeat);
      assert errors == EarlyErrors(lines, csv, k);
      result := JudgeRow(k, raw, errors);
    }

    /** Validates every row without writing anything. */
    method PlanTraineesImport(csv: seq<Raw>) returns (plan: seq<RowResult>)
      ensures plan == Planned(lines, rows, csv, |csv|)
    {
      plan := [];
      var seenEmp: map<string, nat> := map[];
      var seenPhone: map<string, nat> := map[];
      var k := 0;
      while k < |csv|
        invariant 0 <= k <= |csv|
        invariant plan == Planned(lines, rows, csv, k)
        invariant Remembers(seenEmp, csv, k, EmployeeNumber)
        invariant Remembers(seenPhone, csv, k, PhoneNumber)
      {
        var result;
        seenEmp, seenPhone, result := PlanNextRow(seenEmp, seenPhone, csv, k);
        plan := plan + [result];
        k := k + 1;
      }
    }

    method CreateTrainee(t: Trainee) returns (result: Result<Id, TrainingError>)
      modifies this
      ensures match Created(old(rows), t)
              case Ok(after) => rows == after && result == Ok(|old(rows)|)
              case Err(e) => rows == old(rows) && result == Err(e)
    {
      if t.phone == "" || t.fullName == "" || t.roleCode == "" {
        return Err(FieldRequired);
      }
      if PhoneUsed(rows, t.phone, None) {
        return Err(PhoneRegistered);
      }
      if t.channel !in CHANNELS {
        return Err(ChannelUnknown);
      }
      if t.employeeNumber.Some? && FindEmp(rows, t.employeeNumber.value).Some? {
        return Err(EmployeeNumberRegistered);
      }
      if !Fits(t) {
        return Err(ValueTooLong);
      }
      rows := rows + [t.(isActive := true)];
      return Ok(|rows| - 1);
    }

    /** One plan row: what it adds to the counts, or the exception of writing it. The source sends updates to
        the database with the next query or at the end; either way a refused one undoes the whole import. */
    method ApplyPlanRow(r: RowResult) returns (result: Result<Counts, TrainingError>)
      modifies this
      ensures match ApplyRow(lines, old(rows), r)
              case Ok((after, counts)) => rows == after && result == Ok(counts)
              case Err(e) => rows == old(rows) && result == Err(e)
    {
      if r.errors != CLEAN || r.action == Skip {
        return Ok(Counts(0, 0, 1));
      }
      if r.action == Create {
        var created := CreateTrainee(Fresh(lines, r.raw));
        return if created.Ok? then Ok(Counts(1, 0, 0)) else Err(created.error);
      }
      if |rows| <= r.action.id {
        return Ok(Counts(0, 0, 1));
      }
      var updated := Overwritten(lines, r.raw, rows[r.action.id]);
      if !Fits(updated) {
        return Err(ValueTooLong);
      }
      rows := rows[r.action.id := updated];
      return Ok(Counts(0, 1, 0));
    }

    /** Applies every error-free row; an exception rolls the whole import back. */
    method ApplyTraineesPlan(plan: seq<RowResult>) returns (result: Result<Counts, TrainingError>)
      modifies this
      ensures match Applied(lines, old(rows), plan, |plan|)
              case Ok((after, counts)) => rows == after && result == Ok(counts)
              case Err(e) => rows == old(rows) && result == Err(e)
    {
      var before := rows;
      var counts := Counts(0, 0, 0);
      var n := 0;
      while n < |plan|
        invariant 0 <= n <= |plan| && before == old(rows)
        invariant Applied(lines, before, plan, n) == Ok((rows, counts))
      {
        AppliedNext(lines, before, plan, n, n + 1);
        var applied := ApplyPlanRow(plan[n]);
        n := n + 1;
        if applied.Err? {
          rows := before;
          ErrStays(lines, before, plan, n, |plan|);
          return Err(applied.error);
        }
        counts := Plus(counts, applied.value);
      }
      result := Ok(counts);
    }
  }

  /** Looks a cell up among the values met so far and remembers it if it is new. */
  method NoteValue(seen: map<string, nat>, csv: seq<Raw>, k: nat, column: Column)
    returns (next: map<string, nat>, repeat: Option<nat>)
    requires k < |csv| && Remembers(seen, csv, k, column)
    ensures Remembers(next, csv, k + 1, column)
    ensures repeat == if Cell(csv[k], column) == "" then None else FirstLine(csv, k, column, Cell(csv[k], column))
  {
    next, repeat := seen, None;
    var value := Cell(csv[k], column);
    assert Known(seen, csv, k, column, value) && Known(seen, csv, k, column, "");
    if value != "" {
      if value in seen {
        repeat := Some(seen[value]);
      } else {
        next := seen[value := k + 2];
      }
    }
    RememberNext(seen, csv, k, k + 1, column);
  }

  /** `seen` records the first line of every non-empty value met so far. */
  ghost predicate Remembers(seen: map<string, nat>, csv: seq<Raw>, n: nat, column: Column)
    requires n <= |csv|
  {
    forall v :: Known(seen, csv, n, column, v)
  }

  ghost predicate Known(seen: map<string, nat>, csv: seq<Raw>, n: nat, column: Column, v: string)
    requires n <= |csv|
  {
    (v in seen <==> v != "" && FirstLine(csv, n, column, v).Some?)
    && (v in seen ==> FirstLine(csv, n, column, v) == Some(seen[v]))
  }

  lemma RememberNext(seen: map<string, nat>, csv: seq<Raw>, k: nat, n: nat, column: Column)
    requires n == k + 1 <= |csv| && Remembers(seen, csv, k, column)
    ensures var v := Cell(csv[k], column);
            Remembers(if v == "" || v in seen then seen else seen[v := k + 2], csv, n, column)
  {
    var v := Cell(csv[k], column);
    var next := if v == "" || v in seen then seen else seen[v := k + 2];
    forall u ensures Known(next, csv, n, column, u) {
      assert Known(seen, csv, k, column, u) && Known(seen, csv, k, column, v);
    }
  }

  lemma AppliedNext(lines: Lines, rows: seq<Trainee>, plan: seq<RowResult>, m: nat, n: nat)
    requires n == m + 1 <= |plan| && Applied(lines, rows, plan, m).Ok?
    ensures var (mid, counts) := Applied(lines, rows, plan, m).value;
            Applied(lines, rows, plan, n) ==
            match ApplyRow(lines, mid, plan[m])
            case Err(e) => Err(e)
            case Ok((after, c)) => Ok((after, Plus(counts, c)))
  {
  }

  lemma {:induction false} ErrStays(lines: Lines, rows: seq<Trainee>, plan: seq<RowResult>, m: nat, n: nat)
    requires m <= n <= |plan| && Applied(lines, rows, plan, m).Err?
    ensures Applied(lines, rows, plan, n) == Applied(lines, rows, plan, m)
    decreases n
  {
    if m == n {
    } else {
      ErrStays(lines, rows, plan, m, n - 1);
    }
  }

  // ---------- Safety of a plan under row-by-row mutation ----------

  ghost predicate Unique(rows: seq<Trainee>) {
    forall i, j :: 0 <= i < j < |rows| ==>
      rows[i].phone != rows[j].phone
      && (rows[i].employeeNumber == None || rows[i].employeeNumber != rows[j].employeeNumber)
  }

  ghost predicate Accepted(r: RowResult) {
    r.errors == CLEAN && r.action != Skip
  }

  /** One accepted row is sound with respect to the database before the import. */
  ghost predicate SoundRow(lines: Lines, rows: seq<Trainee>, r: RowResult) {
    && FieldErrors(lines, r.raw) == CLEAN
    && match r.action
       case Skip => true
       case Create => FindEmp(rows, Emp(r.raw)) == None && !PhoneUsed(rows, Phone(r.raw), None)
       case Update(id) => FindEmp(rows, Emp(r.raw)) == Some(id) && !PhoneUsed(rows, Phone(r.raw), Some(id))
  }

  /** Accepted rows are sound and no two of them name the same employee or the same phone. */
  ghost predicate SafePlan(lines: Lines, rows: seq<Trainee>, plan: seq<RowResult>) {
    && (forall k :: 0 <= k < |plan| && Accepted(plan[k]) ==> SoundRow(lines, rows, plan[k]))
    && (forall j, k :: 0 <= j < k < |plan| && Accepted(plan[j]) && Accepted(plan[k]) ==>
          Emp(plan[j].raw) != Emp(plan[k].raw) && Phone(plan[j].raw) != Phone(plan[k].raw))
  }

  lemma {:induction false} FirstLineSees(csv: seq<Raw>, j: nat, n: nat, column: Column)
    requires j < n <= |csv|
    ensures FirstLine(csv, n, column, Cell(csv[j], column)).Some?
    decreases n
  {
    if j == n - 1 {
    } else {
      FirstLineSees(csv, j, n - 1, column);
    }
  }

  lemma CleanRow(lines: Lines, raw: Raw)
    requires FieldErrors(lines, raw) == CLEAN
    ensures Emp(raw) != "" && Phone(raw) != "" && Cell(raw, FullName) != "" && Cell(raw, RoleCode) != ""
    ensures Channel(raw) in CHANNELS
  {
  }

  lemma EarlyClean(lines: Lines, rows: seq<Trainee>, csv: seq<Raw>, k: nat)
    requires k < |csv| && Accepted(PlanRow(lines, rows, csv, k))
    ensures FieldErrors(lines, csv[k]) == CLEAN && EarlyErrors(lines, csv, k) == CLEAN
    ensures PlanRow(lines, rows, csv, k) == RowResult(k + 2, csv[k], Judge(rows, csv[k]).0, CLEAN)
  {
  }

  /** A computed plan is safe: its accepted rows neither clash with one another nor with the
      database the plan was computed from. */
  lemma PlansAreSafe(lines: Lines, rows: seq<Trainee>, csv: seq<Raw>)
    ensures SafePlan(lines, rows, Planned(lines, rows, csv, |csv|))
  {
    var plan := Planned(lines, rows, csv, |csv|);
    forall k | 0 <= k < |plan| && Accepted(plan[k]) ensures SoundRow(lines, rows, plan[k]) {
      PlannedAt(lines, rows, csv, |csv|, k);
      EarlyClean(lines, rows, csv, k);
    }
    forall j, k | 0 <= j < k < |plan| && Accepted(plan[j]) && Accepted(plan[k])
      ensures Emp(plan[j].raw) != Emp(plan[k].raw) && Phone(plan[j].raw) != Phone(plan[k].raw)
    {
      PlannedAt(lines, rows, csv, |csv|, j);
      PlannedAt(lines, rows, csv, |csv|, k);
      AcceptedDiffer(lines, rows, csv, j, k);
    }
  }

  lemma AcceptedDiffer(lines: Lines, rows: seq<Trainee>, csv: seq<Raw>, j: nat, k: nat)
    requires j < k < |csv| && Accepted(PlanRow(lines, rows, csv, k))
    ensures Emp(csv[j]) != Emp(csv[k]) && Phone(csv[j]) != Phone(csv[k])
  {
    EarlyClean(lines, rows, csv, k);
    CleanRow(lines, csv[k]);
    FirstLineSees(csv, j, k, EmployeeNumber);
    FirstLineSees(csv, j, k, PhoneNumber);
  }

  /** Row `i` of the table after `n` plan rows is what it was, or was written by one of those rows. */
  ghost predicate Origin(lines: Lines, rows: seq<Trainee>, plan: seq<RowResult>, n: nat, now: seq<Trainee>, i: nat)
    requires n <= |plan| && i < |now|
  {
    || (i < |rows| && now[i] == rows[i])
    || exists k :: 0 <= k < n && Wrote(lines, rows, plan[k], now, i)
  }

  ghost predicate Wrote(lines: Lines, rows: seq<Trainee>, r: RowResult, now: seq<Trainee>, i: nat)
    requires i < |now|
  {
    Accepted(r)
    && if i < |rows| then r.action == Update(i) && now[i] == Overwritten(lines, r.raw, rows[i])
       else r.action == Create && now[i] == Fresh(lines, r.raw)
  }

  ghost predicate Recorded(lines: Lines, rows: seq<Trainee>, r: RowResult, now: seq<Trainee>) {
    exists i :: 0 <= i < |now| && Wrote(lines, rows, r, now, i)
  }

  /** Everything the apply pass guarantees after each single row. */
  ghost predicate Sound(lines: Lines, rows: seq<Trainee>, plan: seq<RowResult>, n: nat, now: seq<Trainee>,
                        counts: Counts)
    requires n <= |plan|
  {
    && |rows| <= |now|
    && Unique(now)
    && (forall i :: 0 <= i < |now| ==> Origin(lines, rows, plan, n, now, i))
    && (forall k :: 0 <= k < n && Accepted(plan[k]) ==> Recorded(lines, rows, plan[k], now))
    && counts.created + counts.updated + counts.skipped == n
    && counts.created == |now| - |rows|
  }

  /** The phone and employee number of accepted row `n` clash with no row of the current table, except
      the one it is going to overwrite. */
  lemma NoClash(lines: Lines, rows: seq<Trainee>, plan: seq<RowResult>, n: nat, now: seq<Trainee>, counts: Counts,
                i: nat)
    requires Unique(rows) && n < |plan| && SafePlan(lines, rows, plan) && Sound(lines, rows, plan, n, now, counts)
    requires Accepted(plan[n]) && i < |now| && plan[n].action != Update(i)
    ensures now[i].phone != Phone(plan[n].raw) && now[i].employeeNumber != Some(Emp(plan[n].raw))
  {
    var r := plan[n];
    FindsFirst(rows, |rows|, Emp(r.raw));
    assert SoundRow(lines, rows, r);
    assert Origin(lines, rows, plan, n, now, i);
    if i < |rows| {
      assert now[i].employeeNumber == rows[i].employeeNumber;
    }
    if i < |rows| && now[i] == rows[i] {
      assert now[i].phone == rows[i].phone;
    } else {
      var k :| 0 <= k < n && Wrote(lines, rows, plan[k], now, i);
      assert now[i].phone == Phone(plan[k].raw);
    }
  }

  lemma OriginSurvives(lines: Lines, rows: seq<Trainee>, plan: seq<RowResult>, n: nat, m: nat, now: seq<Trainee>,
                       later: seq<Trainee>, i: nat)
    requires n <= m <= |plan| && i < |now| && i < |later| && later[i] == now[i]
    requires Origin(lines, rows, plan, n, now, i)
    ensures Origin(lines, rows, plan, m, later, i)
  {
    if !(i < |rows| && now[i] == rows[i]) {
      var k :| 0 <= k < n && Wrote(lines, rows, plan[k], now, i);
      assert Wrote(lines, rows, plan[k], later, i);
    }
  }

  lemma WritersSurvive(lines: Lines, rows: seq<Trainee>, plan: seq<RowResult>, n: nat, now: seq<Trainee>,
                       later: seq<Trainee>, counts: Counts, k: nat)
    requires k < n < |plan| && SafePlan(lines, rows, plan) && Sound(lines, rows, plan, n, now, counts)
    requires Accepted(plan[k]) && |now| <= |later|
    requires forall i :: 0 <= i < |now| && (Accepted(plan[n]) ==> plan[n].action != Update(i)) ==> later[i] == now[i]
    ensures Recorded(lines, rows, plan[k], later)
  {
    var i :| 0 <= i < |now| && Wrote(lines, rows, plan[k], now, i);
    if Accepted(plan[n]) && plan[n].action == Update(i) {
      assert SoundRow(lines, rows, plan[n]) && SoundRow(lines, rows, plan[k]);
      FindsFirst(rows, |rows|, Emp(plan[n].raw));
      FindsFirst(rows, |rows|, Emp(plan[k].raw));
      assert false;
    }
    assert Wrote(lines, rows, plan[k], later, i);
  }

  /** Whatever the next row does, earlier origins and earlier writes survive it. */
  lemma HistorySurvives(lines: Lines, rows: seq<Trainee>, plan: seq<RowResult>, n: nat, m: nat, now: seq<Trainee>,
                        later: seq<Trainee>, counts: Counts)
    requires n + 1 == m <= |plan| && SafePlan(lines, rows, plan) && Sound(lines, rows, plan, n, now, counts)
    requires |now| <= |later| && Unique(later)
    requires forall i :: 0 <= i < |now| && (Accepted(plan[n]) ==> plan[n].action != Update(i)) ==> later[i] == now[i]
    requires forall i :: 0 <= i < |later| && (i < |now| ==> later[i] != now[i]) ==>
               Wrote(lines, rows, plan[n], later, i)
    requires Accepted(plan[n]) ==> Recorded(lines, rows, plan[n], later)
    ensures forall i :: 0 <= i < |later| ==> Origin(lines, rows, plan, m, later, i)
    ensures forall k :: 0 <= k < m && Accepted(plan[k]) ==> Recorded(lines, rows, plan[k], later)
  {
    forall i | 0 <= i < |later| ensures Origin(lines, rows, plan, m, later, i) {
      if i < |now| && later[i] == now[i] {
        OriginSurvives(lines, rows, plan, n, m, now, later, i);
      } else {
        assert Wrote(lines, rows, plan[n], later, i);
      }
    }
    forall k | 0 <= k < m && Accepted(plan[k]) ensures Recorded(lines, rows, plan[k], later) {
      if k < n { WritersSurvive(lines, rows, plan, n, now, later, counts, k); }
    }
  }

  lemma CreateDecided(lines: Lines, rows: seq<Trainee>, plan: seq<RowResult>, n: nat, now: seq<Trainee>,
                      counts: Counts)
    requires n < |plan| && Unique(rows) && SafePlan(lines, rows, plan) && Sound(lines, rows, plan, n, now, counts)
    requires Accepted(plan[n]) && plan[n].action == Create
    ensures var t := Fresh(lines, plan[n].raw);
            ApplyRow(lines, now, plan[n]) == if Fits(t) then Ok((now + [t], Counts(1, 0, 0))) else Err(ValueTooLong)
    ensures forall i :: 0 <= i < |now| ==>
              now[i].phone != Phone(plan[n].raw) && now[i].employeeNumber != Some(Emp(plan[n].raw))
  {
    var r := plan[n];
    assert SoundRow(lines, rows, r);
    CleanRow(lines, r.raw);
    FindsFirst(now, |now|, Emp(r.raw));
    forall i | 0 <= i < |now| ensures now[i].phone != Phone(r.raw) && now[i].employeeNumber != Some(Emp(r.raw)) {
      NoClash(lines, rows, plan, n, now, counts, i);
    }
  }

  lemma SoundCreate(lines: Lines, rows: seq<Trainee>, plan: seq<RowResult>, n: nat, now: seq<Trainee>, counts: Counts)
    requires n < |plan| && Unique(rows) && SafePlan(lines, rows, plan) && Sound(lines, rows, plan, n, now, counts)
    requires Accepted(plan[n]) && plan[n].action == Create
    ensures Sound(lines, rows, plan, n + 1, now + [Fresh(lines, plan[n].raw)], Plus(counts, Counts(1, 0, 0)))
  {
    var r := plan[n];
    CreateDecided(lines, rows, plan, n, now, counts);
    var later := now + [Fresh(lines, r.raw)];
    assert SoundRow(lines, rows, r);
    CleanRow(lines, r.raw);
    assert Wrote(lines, rows, r, later, |now|);
    HistorySurvives(lines, rows, plan, n, n + 1, now, later, counts);
  }

  lemma UpdateDecided(lines: Lines, rows: seq<Trainee>, plan: seq<RowResult>, n: nat, now: seq<Trainee>,
                      counts: Counts, id: Id)
    requires n < |plan| && Unique(rows) && SafePlan(lines, rows, plan) && Sound(lines, rows, plan, n, now, counts)
    requires Accepted(plan[n]) && plan[n].action == Update(id)
    ensures id < |rows| <= |now| && now[id].employeeNumber == rows[id].employeeNumber == Some(Emp(plan[n].raw))
    ensures var t := Overwritten(lines, plan[n].raw, now[id]);
            && ApplyRow(lines, now, plan[n])
               == (if Fits(Fresh(lines, plan[n].raw)) then Ok((now[id := t], Counts(0, 1, 0))) else Err(ValueTooLong))
            && t == Overwritten(lines, plan[n].raw, rows[id])
  {
    var r := plan[n];
    assert SoundRow(lines, rows, r);
    CleanRow(lines, r.raw);
    FindsFirst(rows, |rows|, Emp(r.raw));
    KeepsEmployeeNumber(lines, rows, plan, n, now, id);
  }

  lemma SoundUpdate(lines: Lines, rows: seq<Trainee>, plan: seq<RowResult>, n: nat, now: seq<Trainee>, counts: Counts,
                    id: Id)
    requires n < |plan| && Unique(rows) && SafePlan(lines, rows, plan) && Sound(lines, rows, plan, n, now, counts)
    requires Accepted(plan[n]) && plan[n].action == Update(id) && id < |now|
    ensures Sound(lines, rows, plan, n + 1, now[id := Overwritten(lines, plan[n].raw, now[id])],
                  Plus(counts, Counts(0, 1, 0)))
  {
    var r := plan[n];
    UpdateDecided(lines, rows, plan, n, now, counts, id);
    forall i | 0 <= i < |now| && i != id ensures now[i].phone != Phone(r.raw) {
      NoClash(lines, rows, plan, n, now, counts, i);
    }
    var later := now[id := Overwritten(lines, r.raw, now[id])];
    assert Wrote(lines, rows, r, later, id);
    HistorySurvives(lines, rows, plan, n, n + 1, now, later, counts);
  }

  /** An accepted row whose values fit their columns, or a row that writes nothing. */
  predicate RowFits(lines: Lines, r: RowResult) {
    r.errors == CLEAN && r.action != Skip ==> Fits(Fresh(lines, r.raw))
  }

  /** Applying one more row of a safe plan raises exactly when its values do not fit, and otherwise keeps
      every guarantee. */
  lemma SoundStep(lines: Lines, rows: seq<Trainee>, plan: seq<RowResult>, n: nat, now: seq<Trainee>, counts: Counts)
    requires n < |plan| && Unique(rows) && SafePlan(lines, rows, plan) && Sound(lines, rows, plan, n, now, counts)
    ensures !RowFits(lines, plan[n]) ==> ApplyRow(lines, now, plan[n]) == Err(ValueTooLong)
    ensures RowFits(lines, plan[n]) ==>
              && ApplyRow(lines, now, plan[n]).Ok?
              && Sound(lines, rows, plan, n + 1, ApplyRow(lines, now, plan[n]).value.0,
                       Plus(counts, ApplyRow(lines, now, plan[n]).value.1))
  {
    if !Accepted(plan[n]) {
      HistorySurvives(lines, rows, plan, n, n + 1, now, now, counts);
    } else if plan[n].action == Create {
      CreateDecided(lines, rows, plan, n, now, counts);
      SoundCreate(lines, rows, plan, n, now, counts);
    } else {
      UpdateDecided(lines, rows, plan, n, now, counts, plan[n].action.id);
      SoundUpdate(lines, rows, plan, n, now, counts, plan[n].action.id);
    }
  }

  lemma KeepsEmployeeNumber(lines: Lines, rows: seq<Trainee>, plan: seq<RowResult>, n: nat, now: seq<Trainee>, i: nat)
    requires n <= |plan| && i < |rows| && i < |now| && Origin(lines, rows, plan, n, now, i)
    ensures now[i].employeeNumber == rows[i].employeeNumber
    ensures forall raw :: Overwritten(lines, raw, now[i]) == Overwritten(lines, raw, rows[i])
  {
  }

  ghost predicate AllFit(lines: Lines, plan: seq<RowResult>, n: nat)
    requires n <= |plan|
  {
    forall k :: 0 <= k < n ==> RowFits(lines, plan[k])
  }

  /** What applying the first `n` rows of a plan promises. */
  ghost predicate AppliesSafely(lines: Lines, rows: seq<Trainee>, plan: seq<RowResult>, n: nat)
    requires n <= |plan|
  {
    var applied := Applied(lines, rows, plan, n);
    if AllFit(lines, plan, n)
    then applied.Ok? && Sound(lines, rows, plan, n, applied.value.0, applied.value.1)
    else applied == Err(ValueTooLong)
  }

  lemma {:induction false} SafePlansApply(lines: Lines, rows: seq<Trainee>, plan: seq<RowResult>, n: nat)
    requires Unique(rows) && n <= |plan| && SafePlan(lines, rows, plan)
    ensures AppliesSafely(lines, rows, plan, n)
  {
    if n == 0 {
      assert forall i :: 0 <= i < |rows| ==> Origin(lines, rows, plan, 0, rows, i);
    } else {
      SafePlansApply(lines, rows, plan, n - 1);
      if AllFit(lines, plan, n - 1) {
        SafeStep(lines, rows, plan, n - 1, n);
      } else {
        ErrStays(lines, rows, plan, n - 1, n);
      }
    }
  }

  /** For any rows and any database with unique phones and employee numbers: applying the plan raises if and
      only if some accepted row holds a value too long for its column, and then for no other reason. As long
      as none has been met, phones and employee numbers are unique after every single row, every CSV row is
      counted exactly once and every record is an old one or the work of an accepted row. */
  lemma ImportIsSafe(lines: Lines, rows: seq<Trainee>, csv: seq<Raw>, n: nat)
    requires Unique(rows) && n <= |csv|
    ensures AppliesSafely(lines, rows, Planned(lines, rows, csv, |csv|), n)
  {
    PlansAreSafe(lines, rows, csv);
    SafePlansApply(lines, rows, Planned(lines, rows, csv, |csv|), n);
  }

  lemma SafeStep(lines: Lines, rows: seq<Trainee>, plan: seq<RowResult>, m: nat, n: nat)
    requires n == m + 1 && n <= |plan| && Unique(rows) && SafePlan(lines, rows, plan)
    requires Applied(lines, rows, plan, m).Ok?
    requires Sound(lines, rows, plan, m, Applied(lines, rows, plan, m).value.0, Applied(lines, rows, plan, m).value.1)
    ensures !RowFits(lines, plan[m]) ==> Applied(lines, rows, plan, n) == Err(ValueTooLong)
    ensures RowFits(lines, plan[m]) ==>
              && Applied(lines, rows, plan, n).Ok?
              && Sound(lines, rows, plan, n, Applied(lines, rows, plan, n).value.0,
                       Applied(lines, rows, plan, n).value.1)
  {
    var before := Applied(lines, rows, plan, m).value;
    SoundStep(lines, rows, plan, m, before.0, before.1);
    AppliedNext(lines, rows, plan, m, n);
  }

  /** A row that passes every check of the plan and yet cannot be stored: its language has six letters. */
  lemma WideRowFails(lines: Lines)
    ensures var x: Raw := map[EmployeeNumber := "1", PhoneNumber := "600", FullName := "Ann", RoleCode := "operator",
                              Language := "polish"];
            && Planned(lines, [], [x], 1) == [RowResult(2, x, Create, CLEAN)]
            && Applied(lines, [], Planned(lines, [], [x], 1), 1) == Err(ValueTooLong)
  {
    var x: Raw := map[EmployeeNumber := "1", PhoneNumber := "600", FullName := "Ann", RoleCode := "operator",
                      Language := "polish"];
    assert Emp(x) == "1" && Phone(x) == "600" && Channel(x) == "sms" && Cell(x, LineCode) == "";
    assert EarlyErrors(lines, [x], 0) == CLEAN;
    assert PlanRow(lines, [], [x], 0) == RowResult(2, x, Create, CLEAN);
    var plan := Planned(lines, [], [x], 1);
    assert plan == Planned(lines, [], [x], 0) + [PlanRow(lines, [], [x], 0)];
    assert Fresh(lines, x).language == "polish";
    ImportIsSafe(lines, [], [x], 1);
    assert !RowFits(lines, plan[0]);
  }

  // ---------- The outcome, told from the accepted rows ----------

  ghost predicate Accepts(plan: seq<RowResult>, raw: Raw, action: Action) {
    exists k :: 0 <= k < |plan| && Accepted(plan[k]) && plan[k].raw == raw && plan[k].action == action
  }

  /** What the table looks like afterwards, told from the accepted rows alone. */
  ghost predicate Outcome(lines: Lines, rows: seq<Trainee>, plan: seq<RowResult>, after: seq<Trainee>) {
    && |rows| <= |after|
    && (forall i :: 0 <= i < |rows| ==>
          || (after[i] == rows[i] && forall raw :: !Accepts(plan, raw, Update(i)))
          || exists raw :: Accepts(plan, raw, Update(i)) && after[i] == Overwritten(lines, raw, rows[i]))
    && (forall t :: t in after[|rows|..] <==> exists raw :: Accepts(plan, raw, Create) && t == Fresh(lines, raw))
  }

  lemma SoundIsOutcome(lines: Lines, rows: seq<Trainee>, plan: seq<RowResult>, after: seq<Trainee>, counts: Counts)
    requires Sound(lines, rows, plan, |plan|, after, counts)
    ensures Outcome(lines, rows, plan, after)
  {
    forall i | 0 <= i < |rows|
      ensures (after[i] == rows[i] && forall raw :: !Accepts(plan, raw, Update(i)))
              || exists raw :: Accepts(plan, raw, Update(i)) && after[i] == Overwritten(lines, raw, rows[i])
    {
      if raw :| Accepts(plan, raw, Update(i)) {
        var k :| 0 <= k < |plan| && Accepted(plan[k]) && plan[k].raw == raw && plan[k].action == Update(i);
        var j :| 0 <= j < |after| && Wrote(lines, rows, plan[k], after, j);
        assert j == i;
      } else {
        assert Origin(lines, rows, plan, |plan|, after, i);
        if after[i] != rows[i] {
          var k :| 0 <= k < |plan| && Wrote(lines, rows, plan[k], after, i);
          assert Accepts(plan, plan[k].raw, Update(i));
        }
      }
    }
    forall t | t in after[|rows|..] ensures exists raw :: Accepts(plan, raw, Create) && t == Fresh(lines, raw) {
      var i :| |rows| <= i < |after| && after[i] == t;
      assert Origin(lines, rows, plan, |plan|, after, i);
      var k :| 0 <= k < |plan| && Wrote(lines, rows, plan[k], after, i);
      assert Accepts(plan, plan[k].raw, Create);
    }
    forall raw | Accepts(plan, raw, Create) ensures Fresh(lines, raw) in after[|rows|..] {
      var k :| 0 <= k < |plan| && Accepted(plan[k]) && plan[k].raw == raw && plan[k].action == Create;
      var j :| 0 <= j < |after| && Wrote(lines, rows, plan[k], after, j);
      assert after[|rows|..][j - |rows|] == after[j];
    }
  }

  lemma UpdatesAgree(lines: Lines, rows: seq<Trainee>, plan: seq<RowResult>, i: nat, a: Raw, b: Raw)
    requires SafePlan(lines, rows, plan) && i < |rows|
    requires Accepts(plan, a, Update(i)) && Accepts(plan, b, Update(i))
    ensures a == b
  {
    var j :| 0 <= j < |plan| && Accepted(plan[j]) && plan[j].raw == a && plan[j].action == Update(i);
    var k :| 0 <= k < |plan| && Accepted(plan[k]) && plan[k].raw == b && plan[k].action == Update(i);
    assert SoundRow(lines, rows, plan[j]) && SoundRow(lines, rows, plan[k]);
    FindsFirst(rows, |rows|, Emp(a));
    FindsFirst(rows, |rows|, Emp(b));
    assert Emp(a) == Emp(b);
  }

  lemma UpdateShows(lines: Lines, rows: seq<Trainee>, plan: seq<RowResult>, after: seq<Trainee>, x: Raw, id: Id)
    requires SafePlan(lines, rows, plan) && Outcome(lines, rows, plan, after) && id < |rows|
    requires Accepts(plan, x, Update(id))
    ensures after[id] == Overwritten(lines, x, rows[id])
  {
    var raw :| Accepts(plan, raw, Update(id)) && after[id] == Overwritten(lines, raw, rows[id]);
    UpdatesAgree(lines, rows, plan, id, raw, x);
  }
}
