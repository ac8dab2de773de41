/** Duration gate: a trigger fires only after its condition has been continuously true long enough.

    The gate is a timer with an expiry in a key-value store. It is checked here against whole traces
    of readings. Instants are microseconds on one monotone clock shared with the store. */
module TriggerState {
  import opened Common
  import opened Decimal

  const SECOND := 1_000_000

  /** Stored first-true instant and the instant at which the store drops the key. */
  datatype Timer = Timer(firstTrue: int, expiresAt: int)

  function Ttl(duration: int): int {
    Max(duration * 3, 60) * SECOND
  }

  function ScopeName(scope: Option<string>): string {
    if scope.None? || scope.value == "" then "global" else scope.value
  }

  function Key(triggerId: string, scope: Option<string>): string {
    "trigger_state:" + triggerId + ":" + ScopeName(scope) + ":first_true"
  }

  /** What the store answers at `now`: an expired key is gone. */
  function Live(timer: Option<Timer>, now: int): Option<Timer> {
    if timer.Some? && timer.value.expiresAt <= now then None else timer
  }

  /** New timer and verdict of one evaluation. */
  function GateStep(timer: Option<Timer>, holds: bool, duration: int, now: int): (Option<Timer>, bool) {
    if !holds then (None, false)
    else
      match Live(timer, now)
      case None => (Some(Timer(now, now + Ttl(duration))), false)
      case Some(t) => if now - t.firstTrue >= duration * SECOND then (None, true) else (Some(t), false)
  }

  function Store(keys: map<string, Timer>, key: string, timer: Option<Timer>): map<string, Timer> {
    if timer.Some? then keys[key := timer.value] else keys - {key}
  }

  function Stored(keys: map<string, Timer>, key: string): Option<Timer> {
    if key in keys then Some(keys[key]) else None
  }

  class GateStore {
    var keys: map<string, Timer>

    constructor ()
      ensures keys == map[]
    {
      keys := map[];
    }

    /** Called only when the condition is true now. */
    method ShouldFireWithDuration(triggerId: string, scope: Option<string>, duration: int, now: int)
      returns (fire: bool)
      modifies this
      ensures var key := Key(triggerId, scope);
              var (timer, verdict) := GateStep(Stored(old(keys), key), true, duration, now);
              fire == verdict && keys == Store(old(keys), key, timer)
    {
      var key := Key(triggerId, scope);
      if key !in keys || keys[key].expiresAt <= now {
        keys := keys[key := Timer(now, now + Max(duration * 3, 60) * SECOND)];
        return false;
      }
      var elapsed := now - keys[key].firstTrue;
      if elapsed >= duration * SECOND {
        keys := keys - {key};
        return true;
      }
      return false;
    }

    /** Called when the condition is false. */
    method ResetDurationState(triggerId: string, scope: Option<string>)
      modifies this
      ensures keys == Store(old(keys), Key(triggerId, scope), None)
    {
      keys := keys - {Key(triggerId, scope)};
    }
  }

  // ---------- Keys ----------

  /** Trigger ids are UUIDs, so they hold no colon, and then distinct (trigger, scope) pairs never
      share a key; only the missing, the empty and the literal "global" scope coincide. */
  lemma KeyIdentifies(t: string, s: Option<string>, t': string, s': Option<string>)
    requires ':' !in t && ':' !in t'
    ensures Key(t, s) == Key(t', s') <==> t == t' && ScopeName(s) == ScopeName(s')
  {
    if Key(t, s) == Key(t', s') {
      KeyShape(t, s);
      KeyShape(t', s');
      SplitFirst(':', t, ScopeName(s) + ":first_true", t', ScopeName(s') + ":first_true");
      SameTail(ScopeName(s), ScopeName(s'), ":first_true");
    }
  }

  lemma KeyShape(t: string, s: Option<string>)
    ensures Key(t, s)[|"trigger_state:"|..] == t + ([':'] + (ScopeName(s) + ":first_true"))
  {
    assert Key(t, s) == "trigger_state:" + (t + ([':'] + (ScopeName(s) + ":first_true")));
  }

  lemma SameTail(a: string, b: string, tail: string)
    requires a + tail == b + tail
    ensures a == b
  {
    assert |a| == |b|;
    assert a == (a + tail)[..|a|] && b == (b + tail)[..|b|];
  }

  // ---------- Whole traces ----------

  /** One gated evaluation: which timer it concerns, whether the condition held, when. */
  datatype Reading = Reading(key: string, holds: bool, duration: int, at: int)

  ghost predicate Chronological(rs: seq<Reading>) {
    forall i, j :: 0 <= i < j < |rs| ==> rs[i].at <= rs[j].at
  }

  /** The timer of `key` after the first `n` readings of a run that starts with no timers. */
  function TimerAfter(rs: seq<Reading>, n: nat, key: string): Option<Timer>
    requires n <= |rs|
  {
    if n == 0 then None
    else
      var before := TimerAfter(rs, n - 1, key);
      var r := rs[n - 1];
      if r.key == key then GateStep(before, r.holds, r.duration, r.at).0 else before
  }

  predicate Fires(rs: seq<Reading>, i: nat)
    requires i < |rs|
  {
    GateStep(TimerAfter(rs, i, rs[i].key), rs[i].holds, rs[i].duration, rs[i].at).1
  }

  /** Between `s` and `n` every reading of `key` held and none fired. */
  ghost predicate QuietlyTrue(rs: seq<Reading>, s: nat, n: nat, key: string)
    requires n <= |rs|
  {
    forall j :: s <= j < n && rs[j].key == key ==> rs[j].holds && !Fires(rs, j)
  }

  /** A running timer was started by an earlier reading, and nothing has interrupted it since. */
  lemma {:induction false} TimerOrigin(rs: seq<Reading>, n: nat, key: string) returns (s: nat)
    requires n <= |rs| && TimerAfter(rs, n, key).Some?
    ensures s < n && rs[s].key == key && rs[s].at == TimerAfter(rs, n, key).value.firstTrue
    ensures QuietlyTrue(rs, s, n, key)
  {
    var r := rs[n - 1];
    var before := TimerAfter(rs, n - 1, key);
    if r.key == key && Live(before, r.at).None? {
      s := n - 1;
    } else {
      s := TimerOrigin(rs, n - 1, key);
    }
  }

  /** Soundness: a fire at `i` is preceded, at least `duration` earlier, by a reading of the same
      timer since which every reading was true and none fired. */
  lemma FireIsEarned(rs: seq<Reading>, i: nat) returns (s: nat)
    requires i < |rs| && Fires(rs, i)
    ensures s < i && rs[s].key == rs[i].key
    ensures rs[s].at + rs[i].duration * SECOND <= rs[i].at
    ensures QuietlyTrue(rs, s, i, rs[i].key) && rs[i].holds
  {
    s := TimerOrigin(rs, i, rs[i].key);
  }

  /** Successive fires of one timer are at least a full duration apart. */
  lemma FiresAreSpaced(rs: seq<Reading>, i: nat, k: nat)
    requires Chronological(rs) && i < k < |rs| && rs[i].key == rs[k].key
    requires Fires(rs, i) && Fires(rs, k)
    ensures rs[i].at + rs[k].duration * SECOND <= rs[k].at
  {
    var s := FireIsEarned(rs, k);
    assert i < s;
  }

  lemma {:induction false} TimerKeepsRunning(rs: seq<Reading>, a: nat, n: nat, key: string, d: int)
    requires Chronological(rs) && a < n <= |rs| && d > 0
    requires rs[a].key == key && Live(TimerAfter(rs, a, key), rs[a].at).None?
    requires forall j :: a <= j < n && rs[j].key == key ==>
               rs[j].holds && rs[j].duration == d && rs[j].at < rs[a].at + d * SECOND
    ensures TimerAfter(rs, n, key) == Some(Timer(rs[a].at, rs[a].at + Ttl(d)))
    ensures QuietlyTrue(rs, a, n, key)
  {
    if n == a + 1 {
    } else {
      TimerKeepsRunning(rs, a, n - 1, key, d);
    }
  }

  lemma {:induction false} LastBefore(rs: seq<Reading>, a: nat, b: nat, key: string) returns (p: nat)
    requires a < b <= |rs| && rs[a].key == key
    ensures a <= p < b && rs[p].key == key && forall j :: p < j < b ==> rs[j].key != key
  {
    if rs[b - 1].key == key {
      p := b - 1;
    } else {
      p := LastBefore(rs, a, b - 1, key);
    }
  }

  /** Consecutive readings of `key` within `a..=b` are at most `gap` apart. */
  ghost predicate Dense(rs: seq<Reading>, a: nat, b: nat, key: string, gap: int)
    requires b < |rs|
  {
    forall i, j :: a <= i < j <= b && Consecutive(rs, i, j, key) ==> rs[j].at <= rs[i].at + gap
  }

  ghost predicate Consecutive(rs: seq<Reading>, i: nat, j: nat, key: string)
    requires i < j < |rs|
  {
    rs[i].key == key && rs[j].key == key && forall k :: i < k < j ==> rs[k].key != key
  }

  lemma {:induction false} FirstAtOrAfter(rs: seq<Reading>, a: nat, z: nat, key: string, t: int) returns (b: nat)
    requires a < z < |rs| && rs[z].key == key && t <= rs[z].at
    ensures a < b <= z && rs[b].key == key && t <= rs[b].at
    ensures forall j :: a < j < b && rs[j].key == key ==> rs[j].at < t
    decreases z
  {
    if exists j :: a < j < z && rs[j].key == key && t <= rs[j].at {
      var j :| a < j < z && rs[j].key == key && t <= rs[j].at;
      b := FirstAtOrAfter(rs, a, j, key, t);
    } else {
      b := z;
    }
  }

  /** Completeness: readings of one timer that stay true from `a` on, at most `gap` apart, and that
      reach a full duration, make the gate fire at the first reading past that duration, less than
      one gap late. The never-refreshed expiry cannot lose the timer under this gap. */
  lemma SteadyReadingsFire(rs: seq<Reading>, a: nat, z: nat, key: string, d: int, gap: int) returns (b: nat)
    requires Chronological(rs) && a < z < |rs| && d > 0
    requires rs[a].key == key && rs[z].key == key
    requires Live(TimerAfter(rs, a, key), rs[a].at).None?
    requires forall j :: a <= j <= z && rs[j].key == key ==> rs[j].holds && rs[j].duration == d
    requires Dense(rs, a, z, key, gap) && gap <= Ttl(d) - d * SECOND
    requires rs[a].at + d * SECOND <= rs[z].at
    ensures a < b <= z && rs[b].key == key && Fires(rs, b) && QuietlyTrue(rs, a, b, key)
    ensures rs[a].at + d * SECOND <= rs[b].at < rs[a].at + d * SECOND + gap
    ensures forall j :: a <= j < b && rs[j].key == key ==> rs[j].at < rs[a].at + d * SECOND
  {
    b := FirstAtOrAfter(rs, a, z, key, rs[a].at + d * SECOND);
    TimerKeepsRunning(rs, a, b, key, d);
    var p := LastBefore(rs, a, b, key);
    assert Consecutive(rs, p, b, key);
  }

  /** The gap bound is exact: one microsecond more and a condition that was true throughout can let
      the timer expire unseen. */
  lemma GapBoundIsTight(d: int)
    requires d > 0
    ensures var gap := Ttl(d) - d * SECOND + 1;
            var rs := [Reading("k", true, d, 0), Reading("k", true, d, d * SECOND - 1),
                       Reading("k", true, d, d * SECOND - 1 + gap)];
            Chronological(rs) && Dense(rs, 0, 2, "k", gap) && rs[2].at >= d * SECOND
            && !Fires(rs, 0) && !Fires(rs, 1) && !Fires(rs, 2)
  {
    var gap := Ttl(d) - d * SECOND + 1;
    var rs := [Reading("k", true, d, 0), Reading("k", true, d, d * SECOND - 1),
               Reading("k", true, d, d * SECOND - 1 + gap)];
    assert TimerAfter(rs, 0, "k") == None;
    assert TimerAfter(rs, 1, "k") == Some(Timer(0, Ttl(d)));
    assert TimerAfter(rs, 2, "k") == Some(Timer(0, Ttl(d)));
  }

  function Only(rs: seq<Reading>, key: string): seq<Reading> {
    if rs == [] then []
    else
      var rest := Only(rs[..|rs| - 1], key);
      if rs[|rs| - 1].key == key then rest + [rs[|rs| - 1]] else rest
  }

  lemma {:induction false} PrefixDecides(rs: seq<Reading>, n: nat, m: nat, key: string)
    requires m <= n <= |rs|
    ensures TimerAfter(rs[..n], m, key) == TimerAfter(rs, m, key)
    decreases m
  {
    if m == 0 {
    } else {
      PrefixDecides(rs, n, m - 1, key);
    }
  }

  /** Isolation: a timer behaves as if the readings of every other trigger and scope were not there. */
  lemma {:induction false} OthersDoNotMatter(rs: seq<Reading>, key: string)
    ensures TimerAfter(rs, |rs|, key) == TimerAfter(Only(rs, key), |Only(rs, key)|, key)
    decreases |rs|
  {
    if rs == [] {
    } else {
      var init := rs[..|rs| - 1];
      OthersDoNotMatter(init, key);
      PrefixDecides(rs, |rs| - 1, |rs| - 1, key);
      assert init[..|init|] == init;
      if rs[|rs| - 1].key == key {
        var all, rest := Only(rs, key), Only(init, key);
        assert all[..|rest|] == rest;
        PrefixDecides(all, |rest|, |rest|, key);
      }
    }
  }
}
