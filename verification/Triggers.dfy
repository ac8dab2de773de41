/** Evaluating every trigger against one incoming payload. */
module Triggers {
  import opened Common
  import opened TriggerState

  datatype Value = Null | Number(r: real) | Text(s: string)

  type Payload = map<string, Value>

  datatype Condition = Condition(metric: Option<string>, operator: Option<string>, value: Value,
                                 durationSeconds: int)

  datatype Trigger = Trigger(id: string, scope: Option<string>, condition: Condition, isActive: bool, dryRun: bool)

  function PayloadScope(payload: Payload): Option<string> {
    if "scope" in payload && payload["scope"].Text? then Some(payload["scope"].s) else None
  }

  predicate ScopeMatches(triggerScope: Option<string>, payloadScope: Option<string>) {
    triggerScope.None? || triggerScope.value == "" || triggerScope == payloadScope
  }

  /** Ordering of two values; None where the comparison would raise a type error. */
  function Less(a: Value, b: Value): Option<bool> {
    match (a, b)
    case (Number(x), Number(y)) => Some(x < y)
    case (Text(x), Text(y)) => Some(StringLess(x, y))
    case _ => None
  }

  function Compare(operator: string, a: Value, b: Value): Option<bool> {
    if operator == "==" then Some(a == b)
    else if operator == "!=" then Some(a != b)
    else if operator == "<" then Less(a, b)
    else if operator == ">" then Less(b, a)
    else if operator == "<=" then (if Less(b, a).Some? then Some(!Less(b, a).value) else None)
    else if operator == ">=" then (if Less(a, b).Some? then Some(!Less(a, b).value) else None)
    else None
  }

  predicate EvaluateCondition(c: Condition, payload: Payload) {
    && c.metric.Some? && c.operator.Some?
    && c.metric.value in payload
    && Compare(c.operator.value, payload[c.metric.value], c.value) == Some(true)
  }

  /** The reading a payload is for one trigger's gate. */
  function GateKey(t: Trigger, payload: Payload): string {
    Key(t.id, PayloadScope(payload))
  }

  predicate Considered(t: Trigger, payload: Payload) {
    t.isActive && ScopeMatches(t.scope, PayloadScope(payload))
  }

  predicate Gated(t: Trigger, payload: Payload) {
    Considered(t, payload) && t.condition.durationSeconds > 0
  }

  /** Whether this payload makes the trigger go off, given the timers before the evaluation. */
  predicate GoesOff(keys: map<string, Timer>, t: Trigger, payload: Payload, now: int) {
    Considered(t, payload)
    && if t.condition.durationSeconds > 0
       then GateStep(Stored(keys, GateKey(t, payload)), EvaluateCondition(t.condition, payload),
                     t.condition.durationSeconds, now).1
       else EvaluateCondition(t.condition, payload)
  }

  /** Ids of the triggers in `ts` that go off, dry runs or real ones, in table order. */
  function GoingOff(keys: map<string, Timer>, ts: seq<Trigger>, payload: Payload, now: int, dryRun: bool): seq<string> {
    if ts == [] then []
    else
      var t := ts[|ts| - 1];
      GoingOff(keys, ts[..|ts| - 1], payload, now, dryRun)
      + if GoesOff(keys, t, payload, now) && t.dryRun == dryRun then [t.id] else []
  }

  /** Trigger ids are distinct UUIDs. */
  ghost predicate WellKeyed(ts: seq<Trigger>) {
    && (forall i :: 0 <= i < |ts| ==> ':' !in ts[i].id)
    && (forall i, j :: 0 <= i < j < |ts| ==> ts[i].id != ts[j].id)
  }

  /** The timers after one evaluation: each gated trigger has stepped its own timer once, every other
      key is untouched. */
  ghost predicate EachTimerSteppedOnce(before: map<string, Timer>, after: map<string, Timer>, ts: seq<Trigger>,
                                       payload: Payload, now: int)
  {
    && (forall i :: 0 <= i < |ts| && Gated(ts[i], payload) ==>
          Stored(after, GateKey(ts[i], payload))
          == GateStep(Stored(before, GateKey(ts[i], payload)), EvaluateCondition(ts[i].condition, payload),
                      ts[i].condition.durationSeconds, now).0)
    && (forall key :: (forall i :: 0 <= i < |ts| && Gated(ts[i], payload) ==> GateKey(ts[i], payload) != key) ==>
          Stored(after, key) == Stored(before, key))
  }

  lemma StepsExtend(before: map<string, Timer>, mid: map<string, Timer>, after: map<string, Timer>,
                    ts: seq<Trigger>, t: Trigger, payload: Payload, now: int)
    requires WellKeyed(ts + [t]) && EachTimerSteppedOnce(before, mid, ts, payload, now)
    requires if Gated(t, payload)
             then after == Store(mid, GateKey(t, payload),
                                 GateStep(Stored(mid, GateKey(t, payload)), EvaluateCondition(t.condition, payload),
                                          t.condition.durationSeconds, now).0)
             else after == mid
    ensures Stored(mid, GateKey(t, payload)) == Stored(before, GateKey(t, payload))
    ensures EachTimerSteppedOnce(before, after, ts + [t], payload, now)
  {
    var key := GateKey(t, payload);
    forall i | 0 <= i < |ts| ensures GateKey(ts[i], payload) != key {
      assert (ts + [t])[i] == ts[i] && (ts + [t])[|ts|] == t;
      KeyIdentifies(ts[i].id, PayloadScope(payload), t.id, PayloadScope(payload));
    }
    forall k | forall i :: 0 <= i < |ts + [t]| && Gated((ts + [t])[i], payload) ==> GateKey((ts + [t])[i], payload) != k
      ensures Stored(after, k) == Stored(before, k)
    {
      assert (ts + [t])[|ts|] == t;
      forall i | 0 <= i < |ts| && Gated(ts[i], payload) ensures GateKey(ts[i], payload) != k {
        assert (ts + [t])[i] == ts[i];
      }
    }
    forall i | 0 <= i < |ts + [t]| && Gated((ts + [t])[i], payload)
      ensures Stored(after, GateKey((ts + [t])[i], payload))
           == GateStep(Stored(before, GateKey((ts + [t])[i], payload)),
                       EvaluateCondition((ts + [t])[i].condition, payload),
                       (ts + [t])[i].condition.durationSeconds, now).0
    {
      if i < |ts| { assert (ts + [t])[i] == ts[i]; }
    }
  }

  class TriggerEngine {
    const gate: GateStore
    var triggers: seq<Trigger>

    constructor (gate: GateStore, triggers: seq<Trigger>)
      ensures this.gate == gate && this.triggers == triggers
    {
      this.gate, this.triggers := gate, triggers;
    }

    /** One trigger: its condition, and its gate when it has a duration. */
    method EvaluateOne(trigger: Trigger, payload: Payload, now: int) returns (goesOff: bool)
      modifies gate
      ensures goesOff == GoesOff(old(gate.keys), trigger, payload, now)
      ensures gate.keys == if Gated(trigger, payload)
                           then Store(old(gate.keys), GateKey(trigger, payload),
                                      GateStep(Stored(old(gate.keys), GateKey(trigger, payload)),
                                               EvaluateCondition(trigger.condition, payload),
                                               trigger.condition.durationSeconds, now).0)
                           else old(gate.keys)
    {
      var payloadScope := PayloadScope(payload);
      if !trigger.isActive || !ScopeMatches(trigger.scope, payloadScope) {
        return false;
      }
      var conditionTrue := EvaluateCondition(trigger.condition, payload);
      var duration := trigger.condition.durationSeconds;
      if duration <= 0 {
        return conditionTrue;
      }
      if !conditionTrue {
        gate.ResetDurationState(trigger.id, payloadScope);
        return false;
      }
      goesOff := gate.ShouldFireWithDuration(trigger.id, payloadScope, duration, now);
    }

    /** Evaluates every active trigger and returns the ids fired for real and those only dry-run.
        Each outcome depends on the timers as they were before the call, not on the other triggers. */
    method Evaluate(payload: Payload, now: int) returns (fired: seq<string>, dryRuns: seq<string>)
      requires WellKeyed(triggers)
      modifies gate
      ensures fired == GoingOff(old(gate.keys), triggers, payload, now, false)
      ensures dryRuns == GoingOff(old(gate.keys), triggers, payload, now, true)
      ensures EachTimerSteppedOnce(old(gate.keys), gate.keys, triggers, payload, now)
    {
      fired, dryRuns := [], [];
      ghost var before := gate.keys;
      var i := 0;
      while i < |triggers|
        invariant 0 <= i <= |triggers|
        invariant fired == GoingOff(before, triggers[..i], payload, now, false)
        invariant dryRuns == GoingOff(before, triggers[..i], payload, now, true)
        invariant EachTimerSteppedOnce(before, gate.keys, triggers[..i], payload, now)
      {
        var trigger := triggers[i];
        ghost var mid := gate.keys;
        assert triggers[..i + 1] == triggers[..i] + [trigger];
        i := i + 1;
        var goesOff := EvaluateOne(trigger, payload, now);
        if goesOff {
          if trigger.dryRun {
            dryRuns := dryRuns + [trigger.id];
          } else {
            fired := fired + [trigger.id];
          }
        }
        StepsExtend(before, mid, gate.keys, triggers[..i - 1], trigger, payload, now);
        assert triggers[..i][..i - 1] == triggers[..i - 1];
      }
      assert triggers[..i] == triggers;
    }
  }

  /** A payload without the metric is a false reading: it resets the timer of every gated trigger
      whose scope it matches, so the next violation is timed from scratch. */
  lemma MissingMetricResets(keys: map<string, Timer>, after: map<string, Timer>, ts: seq<Trigger>, i: nat,
                            payload: Payload, now: int)
    requires i < |ts| && Gated(ts[i], payload)
    requires ts[i].condition.metric.Some? && ts[i].condition.metric.value !in payload
    requires EachTimerSteppedOnce(keys, after, ts, payload, now)
    ensures GateKey(ts[i], payload) !in after
    ensures !GoesOff(keys, ts[i], payload, now)
  {
    assert !EvaluateCondition(ts[i].condition, payload);
    assert Stored(after, GateKey(ts[i], payload)) == None;
  }

  // ---------- Runs of evaluations ----------

  /** One evaluation: the trigger table as it stood then, the payload and the instant. Triggers are edited and
      switched on and off between calls, which leaves their timers alone. */
  datatype Call = Call(triggers: seq<Trigger>, payload: Payload, at: int)

  function RowOf(ts: seq<Trigger>, id: string): (r: Option<Trigger>)
    ensures r.Some? ==> r.value in ts && r.value.id == id
    ensures r.None? ==> forall t :: t in ts ==> t.id != id
  {
    if ts == [] then None
    else if ts[|ts| - 1].id == id then Some(ts[|ts| - 1])
    else RowOf(ts[..|ts| - 1], id)
  }

  /** The trigger as the call saw it, if the call is a reading of its gate. */
  function GatedRow(c: Call, id: string): Option<Trigger> {
    var row := RowOf(c.triggers, id);
    if row.Some? && Gated(row.value, c.payload) then row else None
  }

  /** The call as a reading of the trigger's gate: one that does not concern the gate reads no timer. */
  function AsReading(c: Call, id: string): Reading {
    var row := GatedRow(c, id);
    if row.Some?
    then Reading(Key(id, PayloadScope(c.payload)), EvaluateCondition(row.value.condition, c.payload),
                 row.value.condition.durationSeconds, c.at)
    else Reading("", false, 0, c.at)
  }

  function Readings(calls: seq<Call>, id: string): (rs: seq<Reading>)
    ensures |rs| == |calls|
    ensures forall n :: 0 <= n < |calls| ==> rs[n] == AsReading(calls[n], id)
  {
    if calls == [] then []
    else Readings(calls[..|calls| - 1], id) + [AsReading(calls[|calls| - 1], id)]
  }

  /** `keys[n]` are the stored timers after the first `n` calls. */
  ghost predicate EvaluationRun(calls: seq<Call>, keys: seq<map<string, Timer>>) {
    && |keys| == |calls| + 1 && keys[0] == map[]
    && forall n :: 0 <= n < |calls| ==> Evaluates(calls[n], keys[n], keys[n + 1])
  }

  ghost predicate Evaluates(c: Call, before: map<string, Timer>, after: map<string, Timer>) {
    WellKeyed(c.triggers) && EachTimerSteppedOnce(before, after, c.triggers, c.payload, c.at)
  }

  /** One evaluation steps the timer under `key` exactly as the one reading of trigger `id` does. */
  lemma EvaluationIsReading(c: Call, before: map<string, Timer>, after: map<string, Timer>, id: string,
                            scope: Option<string>)
    requires Evaluates(c, before, after) && ':' !in id
    ensures var key, r := Key(id, scope), AsReading(c, id);
            Stored(after, key) ==
            if r.key == key then GateStep(Stored(before, key), r.holds, r.duration, r.at).0 else Stored(before, key)
  {
    var ts, key := c.triggers, Key(id, scope);
    assert |key| > 0;
    forall k | 0 <= k < |ts| && Gated(ts[k], c.payload) && GateKey(ts[k], c.payload) == key
      ensures GatedRow(c, id) == Some(ts[k])
    {
      KeyIdentifies(ts[k].id, PayloadScope(c.payload), id, scope);
      RowIsTheOne(ts, k);
    }
    if GatedRow(c, id).Some? {
      var k :| 0 <= k < |ts| && ts[k] == GatedRow(c, id).value;
      assert GateKey(ts[k], c.payload) == AsReading(c, id).key;
    }
  }

  lemma RowIsTheOne(ts: seq<Trigger>, k: nat)
    requires WellKeyed(ts) && k < |ts|
    ensures RowOf(ts, ts[k].id) == Some(ts[k])
  {
    var row := RowOf(ts, ts[k].id);
    assert ts[k] in ts;
    var j :| 0 <= j < |ts| && ts[j] == row.value;
  }

  lemma {:induction false} RunsAreTraces(calls: seq<Call>, keys: seq<map<string, Timer>>, n: nat, id: string,
                                         scope: Option<string>)
    requires EvaluationRun(calls, keys) && n <= |calls| && ':' !in id
    ensures Stored(keys[n], Key(id, scope)) == TimerAfter(Readings(calls, id), n, Key(id, scope))
  {
    if n == 0 {
    } else {
      RunsAreTraces(calls, keys, n - 1, id, scope);
      assert Evaluates(calls[n - 1], keys[n - 1], keys[n - 1 + 1]);
      EvaluationIsReading(calls[n - 1], keys[n - 1], keys[n], id, scope);
      assert Readings(calls, id)[n - 1] == AsReading(calls[n - 1], id);
    }
  }

  /** The call is a reading of the trigger's gate for this scope. */
  predicate Concerns(c: Call, id: string, scope: Option<string>) {
    GatedRow(c, id).Some? && ScopeName(PayloadScope(c.payload)) == ScopeName(scope)
  }

  /** The payload meets the trigger's condition as it stood then. */
  predicate Meets(c: Call, id: string) {
    RowOf(c.triggers, id).Some? && EvaluateCondition(RowOf(c.triggers, id).value.condition, c.payload)
  }

  /** The trigger's duration as it stood then. */
  function Duration(c: Call, id: string): int {
    if RowOf(c.triggers, id).Some? then RowOf(c.triggers, id).value.condition.durationSeconds else 0
  }

  /** The call makes the trigger go off, given the timers before it. */
  predicate SetsOff(keys: map<string, Timer>, c: Call, id: string) {
    RowOf(c.triggers, id).Some? && GoesOff(keys, RowOf(c.triggers, id).value, c.payload, c.at)
  }

  lemma ConcernsIsKey(calls: seq<Call>, n: nat, id: string, scope: Option<string>)
    requires n < |calls| && ':' !in id
    ensures Readings(calls, id)[n].key == Key(id, scope) <==> Concerns(calls[n], id, scope)
    ensures Concerns(calls[n], id, scope) ==>
              && Readings(calls, id)[n].holds == Meets(calls[n], id)
              && Readings(calls, id)[n].duration == Duration(calls[n], id) > 0
    ensures Readings(calls, id)[n].at == calls[n].at
  {
    assert Readings(calls, id)[n] == AsReading(calls[n], id);
    if GatedRow(calls[n], id).Some? {
      KeyIdentifies(id, PayloadScope(calls[n].payload), id, scope);
    } else {
      assert |Key(id, scope)| > 0;
    }
  }

  lemma GoingOffIsFiring(calls: seq<Call>, keys: seq<map<string, Timer>>, n: nat, id: string)
    requires EvaluationRun(calls, keys) && n < |calls| && ':' !in id && GatedRow(calls[n], id).Some?
    ensures Fires(Readings(calls, id), n) <==> SetsOff(keys[n], calls[n], id)
  {
    RunsAreTraces(calls, keys, n, id, PayloadScope(calls[n].payload));
    assert Readings(calls, id)[n] == AsReading(calls[n], id);
  }

  lemma NoColon(calls: seq<Call>, keys: seq<map<string, Timer>>, n: nat, id: string)
    requires EvaluationRun(calls, keys) && n < |calls| && GatedRow(calls[n], id).Some?
    ensures ':' !in id
  {
    assert Evaluates(calls[n], keys[n], keys[n + 1]);
    var row := GatedRow(calls[n], id).value;
    assert row in calls[n].triggers && row.id == id;
  }

  ghost predicate InOrder(calls: seq<Call>) {
    forall i, j :: 0 <= i < j < |calls| ==> calls[i].at <= calls[j].at
  }

  lemma ReadingsInOrder(calls: seq<Call>, id: string)
    requires InOrder(calls)
    ensures Chronological(Readings(calls, id))
  {
    var rs := Readings(calls, id);
    assert forall n :: 0 <= n < |calls| ==> rs[n].at == AsReading(calls[n], id).at == calls[n].at;
  }

  /** From call `m` up to call `n`, every payload of this gate and scope met the condition of its time and none
      made the trigger go off. */
  ghost predicate Sustained(calls: seq<Call>, keys: seq<map<string, Timer>>, m: nat, n: nat, id: string,
                            scope: Option<string>)
    requires n <= |calls| <= |keys|
  {
    forall j :: m <= j < n && Concerns(calls[j], id, scope) ==>
      Meets(calls[j], id) && !SetsOff(keys[j], calls[j], id)
  }

  lemma QuietIsSustained(calls: seq<Call>, keys: seq<map<string, Timer>>, m: nat, n: nat, id: string,
                         scope: Option<string>)
    requires EvaluationRun(calls, keys) && n <= |calls| && ':' !in id
    requires QuietlyTrue(Readings(calls, id), m, n, Key(id, scope))
    ensures Sustained(calls, keys, m, n, id, scope)
  {
    forall j | m <= j < n && Concerns(calls[j], id, scope)
      ensures Meets(calls[j], id) && !SetsOff(keys[j], calls[j], id)
    {
      ConcernsIsKey(calls, j, id, scope);
      GoingOffIsFiring(calls, keys, j, id);
    }
  }

  /** End to end: when a call makes a gated trigger go off, some earlier call of the same scope, at least the
      present duration before, started a stretch in which every payload that concerned this gate met the
      condition of its time and none made it go off. */
  lemma GoingOffIsEarned(calls: seq<Call>, keys: seq<map<string, Timer>>, n: nat, id: string) returns (m: nat)
    requires EvaluationRun(calls, keys) && n < |calls|
    requires GatedRow(calls[n], id).Some? && SetsOff(keys[n], calls[n], id)
    ensures m < n && Concerns(calls[m], id, PayloadScope(calls[n].payload))
    ensures calls[m].at + Duration(calls[n], id) * SECOND <= calls[n].at
    ensures Sustained(calls, keys, m, n, id, PayloadScope(calls[n].payload))
    ensures Meets(calls[n], id)
  {
    var scope := PayloadScope(calls[n].payload);
    NoColon(calls, keys, n, id);
    GoingOffIsFiring(calls, keys, n, id);
    ConcernsIsKey(calls, n, id, scope);
    m := FireIsEarned(Readings(calls, id), n);
    ConcernsIsKey(calls, m, id, scope);
    QuietIsSustained(calls, keys, m, n, id, scope);
  }

  /** A trigger that goes off twice for one scope does so at least the duration of the second time apart. */
  lemma GoingOffIsSpaced(calls: seq<Call>, keys: seq<map<string, Timer>>, n: nat, k: nat, id: string)
    requires EvaluationRun(calls, keys) && InOrder(calls) && n < k < |calls|
    requires GatedRow(calls[n], id).Some? && SetsOff(keys[n], calls[n], id)
    requires Concerns(calls[k], id, PayloadScope(calls[n].payload)) && SetsOff(keys[k], calls[k], id)
    ensures calls[n].at + Duration(calls[k], id) * SECOND <= calls[k].at
  {
    var scope := PayloadScope(calls[n].payload);
    NoColon(calls, keys, n, id);
    GoingOffIsFiring(calls, keys, n, id);
    GoingOffIsFiring(calls, keys, k, id);
    ConcernsIsKey(calls, n, id, scope);
    ConcernsIsKey(calls, k, id, scope);
    ReadingsInOrder(calls, id);
    FiresAreSpaced(Readings(calls, id), n, k);
  }

  /** Neighbouring calls of this gate and scope within `a..=z` are at most `gap` apart. */
  ghost predicate DenseCalls(calls: seq<Call>, a: nat, z: nat, id: string, scope: Option<string>, gap: int)
    requires z < |calls|
  {
    forall p, q :: a <= p < q <= z && Concerns(calls[p], id, scope) && Concerns(calls[q], id, scope)
                   && (forall k :: p < k < q ==> !Concerns(calls[k], id, scope)) ==>
      calls[q].at <= calls[p].at + gap
  }

  lemma DenseReadings(calls: seq<Call>, a: nat, z: nat, id: string, scope: Option<string>, gap: int)
    requires z < |calls| && ':' !in id && DenseCalls(calls, a, z, id, scope, gap)
    ensures Dense(Readings(calls, id), a, z, Key(id, scope), gap)
  {
    var rs, key := Readings(calls, id), Key(id, scope);
    forall n | 0 <= n < |calls| ensures rs[n].key == key <==> Concerns(calls[n], id, scope) {
      ConcernsIsKey(calls, n, id, scope);
    }
    forall p, q | a <= p < q <= z && Consecutive(rs, p, q, key) ensures rs[q].at <= rs[p].at + gap {
      ConcernsIsKey(calls, p, id, scope);
      ConcernsIsKey(calls, q, id, scope);
    }
  }

  /** Completeness end to end: a condition that every payload of a scope meets from call `a` on, where no timer
      is running, with calls dense enough and spanning a full duration that is not edited meanwhile, makes the
      trigger go off at the first call past the duration, less than one gap late. */
  lemma SteadyConditionGoesOff(calls: seq<Call>, keys: seq<map<string, Timer>>, a: nat, z: nat, id: string,
                               scope: Option<string>, d: int, gap: int) returns (b: nat)
    requires EvaluationRun(calls, keys) && InOrder(calls) && a < z < |calls|
    requires Concerns(calls[a], id, scope) && Concerns(calls[z], id, scope)
    requires Live(Stored(keys[a], Key(id, scope)), calls[a].at).None?
    requires forall j :: a <= j <= z && Concerns(calls[j], id, scope) ==>
               Meets(calls[j], id) && Duration(calls[j], id) == d
    requires DenseCalls(calls, a, z, id, scope, gap)
    requires gap <= Ttl(d) - d * SECOND && calls[a].at + d * SECOND <= calls[z].at
    ensures a < b <= z && Concerns(calls[b], id, scope) && SetsOff(keys[b], calls[b], id)
    ensures Sustained(calls, keys, a, b, id, scope)
    ensures calls[a].at + d * SECOND <= calls[b].at < calls[a].at + d * SECOND + gap
  {
    var rs, key := Readings(calls, id), Key(id, scope);
    NoColon(calls, keys, a, id);
    forall n | 0 <= n < |calls|
      ensures rs[n].key == key <==> Concerns(calls[n], id, scope)
      ensures rs[n].at == calls[n].at
      ensures Concerns(calls[n], id, scope) ==>
                rs[n].holds == Meets(calls[n], id) && rs[n].duration == Duration(calls[n], id) > 0
    {
      ConcernsIsKey(calls, n, id, scope);
    }
    ReadingsInOrder(calls, id);
    DenseReadings(calls, a, z, id, scope, gap);
    RunsAreTraces(calls, keys, a, id, scope);
    b := SteadyReadingsFire(rs, a, z, key, d, gap);
    GoingOffIsFiring(calls, keys, b, id);
    QuietIsSustained(calls, keys, a, b, id, scope);
  }

  // ---------- A trigger that is switched off ----------

  /** Too warm for a minute. */
  function TooWarm(active: bool): Trigger {
    Trigger("t", None, Condition(Some("temperature"), Some(">"), Number(5.0), 60), active, false)
  }

  function Reads(degrees: real, active: bool, at: int): Call {
    Call([TooWarm(active)], map["temperature" := Number(degrees)], at)
  }

  /** Switching a trigger off neither stops nor clears its timer: warm, then cold while switched off, then warm a
      minute later makes it go off although no minute was warm throughout. */
  lemma SwitchedOffKeepsTimer()
    ensures var calls := [Reads(9.0, true, 0), Reads(1.0, false, 30 * SECOND), Reads(9.0, true, 60 * SECOND)];
            var running := map[Key("t", None) := Timer(0, Ttl(60))];
            var keys := [map[], running, running, map[]];
            && EvaluationRun(calls, keys) && InOrder(calls)
            && !Meets(calls[1], "t") && SetsOff(keys[2], calls[2], "t")
  {
    var key := Key("t", None);
    var running := map[key := Timer(0, Ttl(60))];
    OneTriggerEvaluates(Reads(9.0, true, 0), map[], running);
    OneTriggerEvaluates(Reads(1.0, false, 30 * SECOND), running, running);
    OneTriggerEvaluates(Reads(9.0, true, 60 * SECOND), running, map[]);
  }

  lemma OneTriggerEvaluates(c: Call, before: map<string, Timer>, after: map<string, Timer>)
    requires |c.triggers| == 1 && ':' !in c.triggers[0].id
    requires var t, key := c.triggers[0], GateKey(c.triggers[0], c.payload);
             after == if Gated(t, c.payload)
                      then Store(before, key, GateStep(Stored(before, key), EvaluateCondition(t.condition, c.payload),
                                                       t.condition.durationSeconds, c.at).0)
                      else before
    ensures Evaluates(c, before, after)
  {
  }
}
