/** Fixed-window request counters with an expiring key per window.

    Instants are milliseconds on one monotone clock shared with the store; the window index is taken
    from whole seconds, as the service does. */
module RateLimit {
  import opened Common
  import opened Decimal

  const MS := 1000

  datatype Counter = Counter(count: nat, expiresAt: int)

  function WindowOf(at: nat, window: nat): nat
    requires window > 0
  {
    at / MS / window
  }

  function Key(prefix: string, bucket: string, ident: string, index: nat): string {
    prefix + ":ratelimit:" + bucket + ":" + ident + ":" + Print(index)
  }

  function Live(c: Option<Counter>, now: int): Option<Counter> {
    if c.Some? && c.value.expiresAt <= now then None else c
  }

  /** One increment; the expiry is set by the first request only and never refreshed. */
  function Bump(c: Option<Counter>, window: nat, now: int): Counter {
    match Live(c, now)
    case None => Counter(1, now + window * MS)
    case Some(k) => Counter(k.count + 1, k.expiresAt)
  }

  function Lookup(counters: map<string, Counter>, key: string): Option<Counter> {
    if key in counters then Some(counters[key]) else None
  }

  class Limiter {
    const prefix: string
    var counters: map<string, Counter>

    constructor (prefix: string)
      ensures this.prefix == prefix && counters == map[]
    {
      this.prefix := prefix;
      counters := map[];
    }

    /** Counts the request in the current window; the wait it quotes ends exactly at the next one. */
    method Check(bucket: string, ident: string, maxRequests: int, window: nat, at: nat)
      returns (allowed: bool, remaining: nat, retryAfter: int)
      requires window > 0
      modifies `counters
      ensures var key := Key(prefix, bucket, ident, WindowOf(at, window));
              var bumped := Bump(Lookup(old(counters), key), window, at);
              && counters == old(counters)[key := bumped]
              && (allowed <==> bumped.count <= maxRequests)
              && remaining == Max(0, maxRequests - bumped.count)
      ensures 1 <= retryAfter <= window
      ensures WindowOf((at / MS + retryAfter) * MS, window) == WindowOf(at, window) + 1
      ensures (at / MS + retryAfter) % window == 0
    {
      var now := at / MS;
      var windowIndex := now / window;
      var key := Key(prefix, bucket, ident, windowIndex);
      var count := 1;
      var expiresAt := at + window * MS;
      if key in counters && at < counters[key].expiresAt {
        count := counters[key].count + 1;
        expiresAt := counters[key].expiresAt;
      }
      counters := counters[key := Counter(count, expiresAt)];
      allowed := count <= maxRequests;
      remaining := Max(0, maxRequests - count);
      retryAfter := (windowIndex + 1) * window - now;
      NextWindow(now, window);
    }
  }

  lemma NextWindow(now: nat, window: nat)
    requires window > 0
    ensures var next := (now / window + 1) * window;
            1 <= next - now <= window && next % window == 0 && next / window == now / window + 1
            && next * MS / MS == next
  {
    var q := now / window;
    assert now == q * window + now % window;
    assert (q + 1) * window == q * window + window;
    MultipleDivides(q + 1, window);
  }

  lemma MultipleDivides(q: nat, w: nat)
    requires w > 0
    ensures q * w / w == q && q * w % w == 0
  {
    var d, m := q * w / w, q * w % w;
    assert q * w == d * w + m;
    if d < q { Scale(d + 1, q, w); }
    if q < d { Scale(q + 1, d, w); }
  }

  /** Buckets are fixed names without a colon; client identities may hold any character. */
  lemma KeyIdentifies(prefix: string, b: string, c: string, i: nat, b': string, c': string, i': nat)
    requires ':' !in b && ':' !in b'
    ensures Key(prefix, b, c, i) == Key(prefix, b', c', i') <==> b == b' && c == c' && i == i'
  {
    if Key(prefix, b, c, i) == Key(prefix, b', c', i') {
      var head := prefix + ":ratelimit:";
      assert Key(prefix, b, c, i) == head + (b + ([':'] + (c + ([':'] + Print(i)))));
      assert Key(prefix, b', c', i') == head + (b' + ([':'] + (c' + ([':'] + Print(i')))));
      var x, y := b + ([':'] + (c + ([':'] + Print(i)))), b' + ([':'] + (c' + ([':'] + Print(i'))));
      assert x == (head + x)[|head|..] && y == (head + y)[|head|..];
      SplitFirst(':', b, c + ([':'] + Print(i)), b', c' + ([':'] + Print(i')));
      SplitLast(':', c, Print(i), c', Print(i'));
      PrintInjective(i, i');
    }
  }

  // ---------- Whole traces ----------

  datatype Request = Request(bucket: string, ident: string, window: nat, max: nat, at: nat)

  /** Every request of this client is limited by the same window and maximum. */
  ghost predicate Uniform(rs: seq<Request>, bucket: string, ident: string, window: nat, max: nat) {
    && window > 0
    && (forall i :: 0 <= i < |rs| ==> rs[i].window > 0 && Plain(rs[i].bucket))
    && (forall i :: 0 <= i < |rs| && Mine(rs[i], bucket, ident) ==> rs[i].window == window && rs[i].max == max)
    && (forall i, j :: 0 <= i < j < |rs| ==> rs[i].at <= rs[j].at)
  }

  predicate Plain(bucket: string) {
    ':' !in bucket
  }

  predicate Mine(r: Request, bucket: string, ident: string) {
    r.bucket == bucket && r.ident == ident
  }

  function KeyOf(prefix: string, r: Request): string
    requires r.window > 0
  {
    Key(prefix, r.bucket, r.ident, WindowOf(r.at, r.window))
  }

  function CounterAfter(prefix: string, rs: seq<Request>, n: nat, key: string): Option<Counter>
    requires n <= |rs| && forall i :: 0 <= i < |rs| ==> rs[i].window > 0
  {
    if n == 0 then None
    else
      var r, before := rs[n - 1], CounterAfter(prefix, rs, n - 1, key);
      if KeyOf(prefix, r) == key then Some(Bump(before, r.window, r.at)) else before
  }

  predicate Allowed(prefix: string, rs: seq<Request>, i: nat)
    requires i < |rs| && forall i :: 0 <= i < |rs| ==> rs[i].window > 0
  {
    Bump(CounterAfter(prefix, rs, i, KeyOf(prefix, rs[i])), rs[i].window, rs[i].at).count <= rs[i].max
  }

  /** `counters[n]` is what a limiter holds after checking the first `n` requests, one `Check` each. */
  ghost predicate Served(prefix: string, rs: seq<Request>, counters: seq<map<string, Counter>>) {
    && |counters| == |rs| + 1 && counters[0] == map[]
    && (forall i :: 0 <= i < |rs| ==> rs[i].window > 0)
    && (forall n :: 0 <= n < |rs| ==> counters[n + 1] == Checked(prefix, counters[n], rs[n]))
  }

  function Checked(prefix: string, counters: map<string, Counter>, r: Request): map<string, Counter>
    requires r.window > 0
  {
    counters[KeyOf(prefix, r) := Bump(Lookup(counters, KeyOf(prefix, r)), r.window, r.at)]
  }

  /** The stored counters of a served run are the ones the trace computes. */
  lemma {:induction false} ServedIsTrace(prefix: string, rs: seq<Request>, counters: seq<map<string, Counter>>, n: nat,
                                         key: string)
    requires Served(prefix, rs, counters) && n <= |rs|
    ensures Lookup(counters[n], key) == CounterAfter(prefix, rs, n, key)
  {
    if n == 0 {
      assert Lookup(counters[0], key) == None;
    } else {
      ServedIsTrace(prefix, rs, counters, n - 1, key);
      assert counters[n - 1 + 1] == Checked(prefix, counters[n - 1], rs[n - 1]);
    }
  }

  /** So a check answers "allowed" exactly where the trace does. */
  lemma CheckAllowsIff(prefix: string, rs: seq<Request>, counters: seq<map<string, Counter>>, n: nat)
    requires Served(prefix, rs, counters) && n < |rs|
    ensures Checked(prefix, counters[n], rs[n])[KeyOf(prefix, rs[n])].count <= rs[n].max <==> Allowed(prefix, rs, n)
  {
    ServedIsTrace(prefix, rs, counters, n, KeyOf(prefix, rs[n]));
  }

  /** Requests of this client among the first `n` that fall into window `index`. */
  function HitsIn(rs: seq<Request>, n: nat, bucket: string, ident: string, window: nat, index: nat): nat
    requires n <= |rs| && window > 0
  {
    if n == 0 then 0
    else HitsIn(rs, n - 1, bucket, ident, window, index)
         + if Mine(rs[n - 1], bucket, ident) && WindowOf(rs[n - 1].at, window) == index then 1 else 0
  }

  lemma WindowBounds(at: nat, window: nat)
    requires window > 0
    ensures WindowOf(at, window) * (window * MS) <= at < (WindowOf(at, window) + 1) * (window * MS)
  {
    var s := at / MS;
    var q := s / window;
    assert s == q * window + s % window;
    assert at == s * MS + at % MS;
    assert q * (window * MS) == (q * window) * MS;
    assert (q + 1) * (window * MS) == (q * window + window) * MS;
  }

  lemma WindowUnique(at: nat, window: nat, index: nat)
    requires window > 0 && index * (window * MS) <= at < (index + 1) * (window * MS)
    ensures WindowOf(at, window) == index
  {
    WindowBounds(at, window);
    var w, L := WindowOf(at, window), window * MS;
    if w < index { Scale(w + 1, index, L); }
    if index < w { Scale(index + 1, w, L); }
  }

  lemma Scale(a: nat, b: nat, c: nat)
    requires a <= b
    ensures a * c <= b * c
  {
  }

  /** A counter that outlives its window is still there for every request of the window. */
  lemma BumpCounts(c: Option<Counter>, at: nat, window: nat, index: nat)
    requires window > 0 && WindowOf(at, window) == index
    requires c.Some? ==> (index + 1) * (window * MS) <= c.value.expiresAt
    ensures Bump(c, window, at).count == (if c.Some? then c.value.count else 0) + 1
    ensures (index + 1) * (window * MS) <= Bump(c, window, at).expiresAt
  {
    WindowBounds(at, window);
    assert (index + 1) * (window * MS) == index * (window * MS) + window * MS;
  }

  /** The stored counter is the number of requests in its window, and it outlives that window. */
  lemma {:induction false} CounterCounts(prefix: string, rs: seq<Request>, n: nat, bucket: string, ident: string,
          window: nat, max: nat, index: nat)
    requires n <= |rs| && Uniform(rs, bucket, ident, window, max) && Plain(bucket)
    ensures var c := CounterAfter(prefix, rs, n, Key(prefix, bucket, ident, index));
            var hits := HitsIn(rs, n, bucket, ident, window, index);
            if hits == 0 then c == None
            else c.Some? && c.value.count == hits && (index + 1) * (window * MS) <= c.value.expiresAt
  {
    if n == 0 {
    } else {
      var r := rs[n - 1];
      CounterCounts(prefix, rs, n - 1, bucket, ident, window, max, index);
      KeyIdentifies(prefix, r.bucket, r.ident, WindowOf(r.at, r.window), bucket, ident, index);
      if Mine(r, bucket, ident) && WindowOf(r.at, window) == index {
        BumpCounts(CounterAfter(prefix, rs, n - 1, Key(prefix, bucket, ident, index)), r.at, window, index);
      }
    }
  }

  /** Exactly the first `max` requests of each client in each window are let through. */
  lemma AllowedIffWithinBudget(prefix: string, rs: seq<Request>, i: nat, window: nat, max: nat)
    requires i < |rs| && Uniform(rs, rs[i].bucket, rs[i].ident, window, max)
    ensures Allowed(prefix, rs, i) <==>
              HitsIn(rs, i, rs[i].bucket, rs[i].ident, window, WindowOf(rs[i].at, window)) < max
  {
    var index := WindowOf(rs[i].at, window);
    CounterCounts(prefix, rs, i, rs[i].bucket, rs[i].ident, window, max, index);
    BumpCounts(CounterAfter(prefix, rs, i, KeyOf(prefix, rs[i])), rs[i].at, window, index);
  }

  /** Requests of this client among the first `n` that were let through at an instant in `lo..hi`. */
  function AllowedIn(prefix: string, rs: seq<Request>, n: nat, bucket: string, ident: string, lo: int, hi: int): nat
    requires n <= |rs| && forall i :: 0 <= i < |rs| ==> rs[i].window > 0
  {
    if n == 0 then 0
    else AllowedIn(prefix, rs, n - 1, bucket, ident, lo, hi)
         + if Mine(rs[n - 1], bucket, ident) && lo <= rs[n - 1].at < hi && Allowed(prefix, rs, n - 1) then 1 else 0
  }

  lemma {:induction false} OneWindow(prefix: string, rs: seq<Request>, n: nat, bucket: string, ident: string,
          window: nat, max: nat,
                                     index: nat)
    requires n <= |rs| && Uniform(rs, bucket, ident, window, max)
    ensures var a := AllowedIn(prefix, rs, n, bucket, ident, index * (window * MS), (index + 1) * (window * MS));
            a <= max && a <= HitsIn(rs, n, bucket, ident, window, index)
  {
    if n == 0 {
    } else {
      var r := rs[n - 1];
      OneWindow(prefix, rs, n - 1, bucket, ident, window, max, index);
      if Mine(r, bucket, ident) && index * (window * MS) <= r.at < (index + 1) * (window * MS) {
        WindowUnique(r.at, window, index);
        AllowedIffWithinBudget(prefix, rs, n - 1, window, max);
      }
    }
  }

  lemma {:induction false} AllowedAdds(prefix: string, rs: seq<Request>, n: nat, bucket: string, ident: string,
          lo: int, mid: int, hi: int)
    requires n <= |rs| && (forall i :: 0 <= i < |rs| ==> rs[i].window > 0) && lo <= mid <= hi
    ensures AllowedIn(prefix, rs, n, bucket, ident, lo, hi)
         == AllowedIn(prefix, rs, n, bucket, ident, lo, mid) + AllowedIn(prefix, rs, n, bucket, ident, mid, hi)
  {
    if n == 0 {
    } else {
      AllowedAdds(prefix, rs, n - 1, bucket, ident, lo, mid, hi);
    }
  }

  lemma {:induction false} ManyWindows(prefix: string, rs: seq<Request>, bucket: string, ident: string,
          window: nat, max: nat, index: nat, k: nat)
    requires Uniform(rs, bucket, ident, window, max)
    ensures AllowedIn(prefix, rs, |rs|, bucket, ident, index * (window * MS), (index + k) * (window * MS)) <= k * max
  {
    var L := window * MS;
    if k == 0 {
      NoneInEmpty(prefix, rs, |rs|, bucket, ident, index * L);
    } else {
      ManyWindows(prefix, rs, bucket, ident, window, max, index, k - 1);
      OneWindow(prefix, rs, |rs|, bucket, ident, window, max, index + k - 1);
      Scale(index, index + k - 1, L);
      Scale(index + k - 1, index + k, L);
      AllowedAdds(prefix, rs, |rs|, bucket, ident, index * L, (index + k - 1) * L, (index + k) * L);
      assert k * max == (k - 1) * max + max;
    }
  }

  lemma {:induction false} NoneInEmpty(prefix: string, rs: seq<Request>, n: nat, bucket: string, ident: string, t: int)
    requires n <= |rs| && forall i :: 0 <= i < |rs| ==> rs[i].window > 0
    ensures AllowedIn(prefix, rs, n, bucket, ident, t, t) == 0
  {
    if n == 0 {
    } else {
      NoneInEmpty(prefix, rs, n - 1, bucket, ident, t);
    }
  }

  /** A stretch of `k` windows meets at most `k + 1` of them. */
  lemma CoveringWindows(start: nat, window: nat, k: nat)
    requires window > 0
    ensures var w := WindowOf(start, window);
            w * (window * MS) <= start <= start + k * (window * MS) <= (w + (k + 1)) * (window * MS)
  {
    WindowBounds(start, window);
    var w, L := WindowOf(start, window), window * MS;
    assert (w + (k + 1)) * L == (w + 1) * L + k * L;
    Scale(0, k, L);
  }

  /** Over every trace, any stretch as long as `k` windows lets at most `(k + 1) * max` requests of a
      client through. */
  lemma SlidingBound(prefix: string, rs: seq<Request>, bucket: string, ident: string, window: nat, max: nat,
          start: nat, k: nat)
    requires Uniform(rs, bucket, ident, window, max)
    ensures AllowedIn(prefix, rs, |rs|, bucket, ident, start, start + k * (window * MS)) <= (k + 1) * max
  {
    var w := WindowOf(start, window);
    var lo, hi := w * (window * MS), (w + (k + 1)) * (window * MS);
    CoveringWindows(start, window, k);
    ManyWindows(prefix, rs, bucket, ident, window, max, w, k + 1);
    AllowedAdds(prefix, rs, |rs|, bucket, ident, lo, start, hi);
    AllowedAdds(prefix, rs, |rs|, bucket, ident, start, start + k * (window * MS), hi);
  }

  // ---------- The bound is reached ----------

  /** `max` requests in the last millisecond of a window, then `max` in the first of the next. */
  function Burst(window: nat, max: nat, n: nat): (rs: seq<Request>)
    requires window > 0
    ensures |rs| == n
    ensures forall i :: 0 <= i < n ==>
              rs[i] == Request("login", "client", window, max, if i < max then window * MS - 1 else window * MS)
  {
    if n == 0 then []
    else Burst(window, max, n - 1)
         + [Request("login", "client", window, max, if n - 1 < max then window * MS - 1 else window * MS)]
  }

  lemma {:induction false} BurstHits(rs: seq<Request>, window: nat, max: nat, n: nat)
    requires window > 0 && n <= 2 * max && rs == Burst(window, max, 2 * max)
    ensures HitsIn(rs, n, "login", "client", window, 0) == Min(n, max)
    ensures HitsIn(rs, n, "login", "client", window, 1) == Max(0, n - max)
  {
    if n == 0 {
    } else {
      BurstHits(rs, window, max, n - 1);
      WindowUnique(window * MS - 1, window, 0);
      WindowUnique(window * MS, window, 1);
    }
  }

  lemma BurstStep(prefix: string, rs: seq<Request>, window: nat, max: nat, i: nat)
    requires window > 0 && i < 2 * max && rs == Burst(window, max, 2 * max)
    ensures Allowed(prefix, rs, i)
  {
    BurstHits(rs, window, max, i);
    WindowUnique(window * MS - 1, window, 0);
    WindowUnique(window * MS, window, 1);
    BurstIsUniform(window, max, 2 * max);
    AllowedIffWithinBudget(prefix, rs, i, window, max);
  }

  lemma {:induction false} BurstAllowed(prefix: string, rs: seq<Request>, window: nat, max: nat, n: nat)
    requires window > 0 && n <= 2 * max && rs == Burst(window, max, 2 * max)
    ensures AllowedIn(prefix, rs, n, "login", "client", window * MS - 1, 2 * (window * MS) - 1) == n
  {
    if n == 0 {
    } else {
      BurstAllowed(prefix, rs, window, max, n - 1);
      BurstStep(prefix, rs, window, max, n - 1);
    }
  }

  lemma BurstIsUniform(window: nat, max: nat, n: nat)
    requires window > 0
    ensures Uniform(Burst(window, max, n), "login", "client", window, max)
  {
    assert Plain("login");
  }

  /** Twice the configured rate within one window length does happen. */
  lemma BoundIsTight(prefix: string, window: nat, max: nat)
    requires window > 0
    ensures var rs := Burst(window, max, 2 * max);
            && Uniform(rs, "login", "client", window, max)
            && AllowedIn(prefix, rs, |rs|, "login", "client", window * MS - 1, (window * MS - 1) + window * MS)
               == 2 * max
  {
    BurstIsUniform(window, max, 2 * max);
    BurstAllowed(prefix, Burst(window, max, 2 * max), window, max, 2 * max);
  }
}
