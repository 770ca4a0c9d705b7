/**
The in-memory sliding-window limiter: `checkRateLimitInMemory` and its sweeper in
src/middleware/rateLimiter.ts, and the same algorithm with fixed constants in
src/middleware/permissionAdminRateLimiter.ts. Times are milliseconds.
*/
module SlidingWindow {
  type Key = string

  /** The timestamps still inside the window of length `window` that ends now. */
  function Prune(ts: seq<int>, now: int, window: int): (r: seq<int>)
    ensures |r| <= |ts|
  {
    if ts == [] then []
    else (if now - ts[0] < window then [ts[0]] else []) + Prune(ts[1..], now, window)
  }

  function Stored(store: map<Key, seq<int>>, key: Key): seq<int> {
    if key in store then store[key] else []
  }

  datatype Decision = Decision(count: int, oldestTs: int, allowed: bool)

  /** What one key's list looks like after a request. */
  function AfterRequest(ts: seq<int>, now: int, limit: int, window: int): seq<int> {
    var live := Prune(ts, now, window);
    if |live| >= limit then live else live + [now]
  }

  class InMemoryLimiter {
    var store: map<Key, seq<int>>

    constructor ()
      ensures store == map[]
    {
      store := map[];
    }

    method Check(key: Key, limit: int, windowMs: int, now: int) returns (d: Decision)
      modifies this
      ensures store == old(store)[key := AfterRequest(Stored(old(store), key), now, limit, windowMs)]
      ensures var live := Prune(Stored(old(store), key), now, windowMs);
              && (d.allowed <==> |live| < limit)
              && d.count == |live| + (if d.allowed then 1 else 0)
              && d.oldestTs == if live == [] then now else live[0]
    {
      if key !in store {
        store := store[key := []];
      }
      var live := Prune(store[key], now, windowMs);
      store := store[key := live];
      var count := |live|;
      var oldestTs := if |live| > 0 then live[0] else now;
      if count >= limit {
        return Decision(count, oldestTs, false);
      }
      store := store[key := live + [now]];
      return Decision(count + 1, oldestTs, true);
    }

    /** The periodic clean-up: prune every list, drop the empty ones. */
    method Sweep(windowMs: int, now: int)
      modifies this
      ensures store.Keys <= old(store).Keys
      ensures forall key :: key in old(store) ==> SweptKey(store, key, Prune(old(store)[key], now, windowMs))
      ensures Swept(old(store), store, windowMs, now)
    {
      var keys := store.Keys;
      while keys != {}
        invariant PartlySwept(old(store), store, keys, windowMs, now)
        decreases |keys|
      {
        var key :| key in keys;
        SweepOne(old(store), store, keys, key, windowMs, now);
        keys := keys - {key};
        var live := Prune(store[key], now, windowMs);
        store := store[key := live];
        if live == [] {
          store := store - {key};
        }
      }
      EverySwept(old(store), store, windowMs, now);
    }
  }

  /** All keys have been swept but those of `keys`, which are as they were. */
  ghost predicate PartlySwept(store: map<Key, seq<int>>, partly: map<Key, seq<int>>, keys: set<Key>, windowMs: int, now: int) {
    && keys <= store.Keys && partly.Keys <= store.Keys
    && (forall key :: key in keys ==> key in partly && partly[key] == store[key])
    && (forall key :: key in store.Keys && key !in keys ==> SweptKey(partly, key, Prune(store[key], now, windowMs)))
  }

  lemma SweepOne(store: map<Key, seq<int>>, partly: map<Key, seq<int>>, keys: set<Key>, key: Key, windowMs: int, now: int)
    requires PartlySwept(store, partly, keys, windowMs, now) && key in keys
    ensures key in partly && partly[key] == store[key]
    ensures var live := Prune(store[key], now, windowMs);
            && (live == [] ==> PartlySwept(store, partly[key := live] - {key}, keys - {key}, windowMs, now))
            && (live != [] ==> PartlySwept(store, partly[key := live], keys - {key}, windowMs, now))
  {
    var live := Prune(store[key], now, windowMs);
    var after := if live == [] then partly[key := live] - {key} else partly[key := live];
    forall k | k in store.Keys && k !in keys - {key}
      ensures SweptKey(after, k, Prune(store[k], now, windowMs))
    {
      assert k != key ==> SweptKey(partly, k, Prune(store[k], now, windowMs));
    }
  }

  /** A swept key is gone if nothing of it is left, and otherwise holds what is left. */
  predicate SweptKey(store: map<Key, seq<int>>, key: Key, live: seq<int>) {
    if live == [] then key !in store else key in store && store[key] == live
  }

  ghost predicate Swept(store: map<Key, seq<int>>, store': map<Key, seq<int>>, sweepWindow: int, now: int) {
    forall key :: Stored(store', key) == Prune(Stored(store, key), now, sweepWindow)
  }

  lemma EverySwept(store: map<Key, seq<int>>, store': map<Key, seq<int>>, sweepWindow: int, now: int)
    requires store'.Keys <= store.Keys
    requires forall key :: key in store ==> SweptKey(store', key, Prune(store[key], now, sweepWindow))
    ensures Swept(store, store', sweepWindow, now)
  {
    forall key
      ensures Stored(store', key) == Prune(Stored(store, key), now, sweepWindow)
    {
      assert key in store ==> SweptKey(store', key, Prune(store[key], now, sweepWindow));
    }
  }

  // ---------------------------------------------------------------- runs

  /** One limit and one window for each key. */
  datatype Config = Config(limit: Key -> int, window: Key -> int)

  datatype Event = Request(key: Key, at: int) | Sweep(at: int)

  /** The store, and beside it every admission there ever was, key by key. */
  datatype State = State(store: map<Key, seq<int>>, log: map<Key, seq<int>>)

  predicate Admits(ts: seq<int>, now: int, limit: int, window: int) {
    |Prune(ts, now, window)| < limit
  }

  /** One event; the log is written exactly when the limiter admits. */
  ghost predicate Step(cfg: Config, sweepWindow: int, s: State, e: Event, s': State) {
    match e
    case Request(key, at) =>
      var ts := Stored(s.store, key);
      && s'.store == s.store[key := AfterRequest(ts, at, cfg.limit(key), cfg.window(key))]
      && s'.log == if Admits(ts, at, cfg.limit(key), cfg.window(key)) then s.log[key := Stored(s.log, key) + [at]] else s.log
    case Sweep(at) =>
      Swept(s.store, s'.store, sweepWindow, at) && s'.log == s.log
  }

  /** A run from the empty store with a clock that never goes back. */
  ghost predicate Run(cfg: Config, sweepWindow: int, states: seq<State>, events: seq<Event>) {
    && |states| == |events| + 1
    && states[0] == State(map[], map[])
    && (forall i :: 0 <= i < |events| ==> Step(cfg, sweepWindow, states[i], events[i], states[i + 1]))
    && (forall i, j :: 0 <= i < j < |events| ==> events[i].at <= events[j].at)
  }

  ghost predicate Sorted(ts: seq<int>) {
    forall i, j :: 0 <= i < j < |ts| ==> ts[i] <= ts[j]
  }

  /** `limit` or more admissions apart, at least a window apart. */
  ghost predicate Spaced(ts: seq<int>, limit: int, window: int) {
    forall i, j :: 0 <= i <= j < |ts| && i + limit <= j ==> ts[j] - ts[i] >= window
  }

  /** What holds of one key once the clock has reached `now`. */
  ghost predicate KeyInv(cfg: Config, s: State, key: Key, now: int) {
    ListInv(Stored(s.store, key), Stored(s.log, key), cfg.limit(key), cfg.window(key), now)
  }

  ghost predicate ListInv(ts: seq<int>, log: seq<int>, limit: int, window: int, now: int) {
    && LogInv(log, limit, window, now)
    && |ts| <= (if limit > 0 then limit else 0)
    && Remembers(ts, log, window, now)
  }

  ghost predicate LogInv(log: seq<int>, limit: int, window: int, now: int) {
    && Sorted(log)
    && (forall i :: 0 <= i < |log| ==> log[i] <= now)
    && Spaced(log, limit, window)
    && (log != [] ==> limit > 0)
  }

  /** The list has forgotten only a front part of the log, all of it expired. */
  ghost predicate Remembers(ts: seq<int>, log: seq<int>, window: int, now: int) {
    Suffix(ts, log) && forall i :: 0 <= i < |log| - |ts| ==> now - log[i] >= window
  }

  ghost predicate Suffix(ts: seq<int>, log: seq<int>) {
    |ts| <= |log| && ts == log[|log| - |ts|..]
  }

  lemma {:induction false} PruneKeepsLive(ts: seq<int>, now: int, window: int)
    requires forall i :: 0 <= i < |ts| ==> now - ts[i] < window
    ensures Prune(ts, now, window) == ts
  {
    if ts != [] {
      PruneKeepsLive(ts[1..], now, window);
    }
  }

  /** On a sorted list pruning cuts off a front part: what is cut has expired, what is left has not. */
  lemma {:induction false} PruneIsSuffix(ts: seq<int>, now: int, window: int)
    requires Sorted(ts)
    ensures Suffix(Prune(ts, now, window), ts)
    ensures forall i :: 0 <= i < |ts| - |Prune(ts, now, window)| ==> now - ts[i] >= window
    ensures forall i :: |ts| - |Prune(ts, now, window)| <= i < |ts| ==> now - ts[i] < window
  {
    if ts != [] {
      if now - ts[0] < window {
        PruneKeepsLive(ts, now, window);
      } else {
        var rest := ts[1..];
        PruneIsSuffix(rest, now, window);
        assert forall i :: 0 < i < |ts| ==> ts[i] == rest[i - 1];
      }
    }
  }

  /** Having forgotten expired timestamps at the front makes no difference to pruning. */
  lemma {:induction false} PruneForgets(ts: seq<int>, log: seq<int>, now: int, window: int)
    requires Remembers(ts, log, window, now)
    ensures Prune(ts, now, window) == Prune(log, now, window)
    decreases |log|
  {
    if |ts| < |log| {
      PruneForgets(ts, log[1..], now, window);
    }
  }

  lemma SpacedExtends(log: seq<int>, now: int, limit: int, window: int)
    requires Sorted(log) && Spaced(log, limit, window)
    requires |Prune(log, now, window)| < limit
    ensures Spaced(log + [now], limit, window)
  {
    PruneIsSuffix(log, now, window);
    var log' := log + [now];
    forall i, j | 0 <= i <= j < |log'| && i + limit <= j
      ensures log'[j] - log'[i] >= window
    {
      if j == |log| {
        assert i < |log| - |Prune(log, now, window)|;
      }
    }
  }

  lemma KeyInvLater(cfg: Config, s: State, key: Key, now: int, now': int)
    requires KeyInv(cfg, s, key, now) && now <= now'
    ensures KeyInv(cfg, s, key, now')
  {
  }

  lemma LogAdmits(log: seq<int>, limit: int, window: int, now: int)
    requires LogInv(log, limit, window, now) && |Prune(log, now, window)| < limit
    ensures LogInv(log + [now], limit, window, now)
  {
    SpacedExtends(log, now, limit, window);
  }

  lemma RemembersLive(log: seq<int>, window: int, now: int)
    requires Sorted(log)
    ensures Remembers(Prune(log, now, window), log, window, now)
    ensures Remembers(Prune(log, now, window) + [now], log + [now], window, now)
  {
    PruneIsSuffix(log, now, window);
    var live := Prune(log, now, window);
    assert log + [now] == log[..|log| - |live|] + (live + [now]);
    assert forall i :: 0 <= i < |log| - |live| ==> (log + [now])[i] == log[i];
  }

  /** A request on one key's list. */
  lemma RequestKeepsListInv(ts: seq<int>, log: seq<int>, limit: int, window: int, now: int)
    requires ListInv(ts, log, limit, window, now)
    ensures var ts' := AfterRequest(ts, now, limit, window);
            ListInv(ts', if Admits(ts, now, limit, window) then log + [now] else log, limit, window, now)
  {
    PruneForgets(ts, log, now, window);
    RemembersLive(log, window, now);
    if Admits(ts, now, limit, window) {
      LogAdmits(log, limit, window, now);
    }
  }

  lemma RequestKeepsKeyInv(cfg: Config, s: State, e: Event, s': State)
    requires e.Request? && Step(cfg, 0, s, e, s')
    requires KeyInv(cfg, s, e.key, e.at)
    ensures KeyInv(cfg, s', e.key, e.at)
  {
    RequestKeepsListInv(Stored(s.store, e.key), Stored(s.log, e.key), cfg.limit(e.key), cfg.window(e.key), e.at);
  }

  /** Sweeping forgets nothing but expired timestamps. */
  lemma SweepRemembers(ts: seq<int>, log: seq<int>, window: int, now: int, sweepWindow: int)
    requires Sorted(log) && Remembers(ts, log, window, now) && sweepWindow >= window
    ensures Remembers(Prune(ts, now, sweepWindow), log, window, now)
  {
    var d := |log| - |ts|;
    assert forall i :: d <= i < |log| ==> log[i] == ts[i - d];
    PruneIsSuffix(ts, now, sweepWindow);
    var live := Prune(ts, now, sweepWindow);
    assert ts[|ts| - |live|..] == log[|log| - |live|..];
  }

  lemma SweepKeepsKeyInv(cfg: Config, sweepWindow: int, s: State, e: Event, s': State, key: Key)
    requires e.Sweep? && Step(cfg, sweepWindow, s, e, s')
    requires KeyInv(cfg, s, key, e.at) && sweepWindow >= cfg.window(key)
    ensures KeyInv(cfg, s', key, e.at)
  {
    SweepRemembers(Stored(s.store, key), Stored(s.log, key), cfg.window(key), e.at, sweepWindow);
  }

  /** The clock after `n` events. */
  ghost function Clock(events: seq<Event>, n: nat): int
    requires 0 < n <= |events|
  {
    events[n - 1].at
  }

  lemma {:induction false} RunKeepsKeyInv(
    cfg: Config, sweepWindow: int, states: seq<State>, events: seq<Event>, n: nat, key: Key, now: int)
    requires Run(cfg, sweepWindow, states, events) && n <= |events|
    requires sweepWindow >= cfg.window(key)
    requires n > 0 ==> Clock(events, n) <= now
    ensures KeyInv(cfg, states[n], key, now)
    decreases n
  {
    if n > 0 {
      var e := events[n - 1];
      assert n > 1 ==> events[n - 2].at <= e.at;
      RunKeepsKeyInv(cfg, sweepWindow, states, events, n - 1, key, e.at);
      assert Step(cfg, sweepWindow, states[n - 1], e, states[n]);
      if e.Sweep? {
        SweepKeepsKeyInv(cfg, sweepWindow, states[n - 1], e, states[n], key);
      } else if e.key == key {
        RequestKeepsKeyInv(cfg, states[n - 1], e, states[n]);
      }
      KeyInvLater(cfg, states[n], key, e.at, now);
    }
  }

  // ---------------------------------------------------------------- the bound

  /** How many of the admissions fall in the half-open interval that starts at `from`. */
  function CountIn(ts: seq<int>, from: int, window: int): nat {
    if ts == [] then 0
    else CountIn(ts[..|ts| - 1], from, window) + if from <= ts[|ts| - 1] < from + window then 1 else 0
  }

  /** A sorted list has its members of an interval side by side. */
  lemma {:induction false} CountedTogether(ts: seq<int>, from: int, window: int)
    requires Sorted(ts) && CountIn(ts, from, window) > 0
    ensures exists i :: 0 <= i <= |ts| - CountIn(ts, from, window) && InInterval(ts, i, from, window)
  {
    var front, last := ts[..|ts| - 1], ts[|ts| - 1];
    var k := CountIn(front, from, window);
    if k > 0 {
      CountedTogether(front, from, window);
      var i :| 0 <= i <= |front| - k && InInterval(front, i, from, window);
      if from <= last < from + window && i + k < |front| {
        SpanReaches(ts, i, k, from, window);
        assert InInterval(ts, |front| - k, from, window);
      } else {
        assert InInterval(ts, i, from, window);
      }
    } else {
      assert InInterval(ts, |front|, from, window);
    }
  }

  /** Entries `i` up to `i + CountIn` lie in the interval. */
  ghost predicate InInterval(ts: seq<int>, i: int, from: int, window: int) {
    && 0 <= i <= |ts| - CountIn(ts, from, window)
    && forall j :: i <= j < i + CountIn(ts, from, window) ==> from <= ts[j] < from + window
  }

  lemma SpanReaches(ts: seq<int>, i: nat, k: nat, from: int, window: int)
    requires Sorted(ts) && 0 < |ts| && i + k <= |ts| - 1 && from <= ts[|ts| - 1] < from + window
    requires k > 0 && from <= ts[i]
    ensures forall j :: i <= j < |ts| ==> from <= ts[j] < from + window
  {
  }

  /**
  In every run with a clock that never goes back, whatever the sweeps in between: the limiter
  admits at most `limit` requests of a key in any half-open interval of one window length.
  */
  lemma NeverAboveLimit(
    cfg: Config, sweepWindow: int, states: seq<State>, events: seq<Event>, n: nat, key: Key, from: int)
    requires Run(cfg, sweepWindow, states, events) && n <= |events|
    requires sweepWindow >= cfg.window(key) && cfg.limit(key) >= 0
    ensures CountIn(Stored(states[n].log, key), from, cfg.window(key)) <= cfg.limit(key)
  {
    RunKeepsKeyInv(cfg, sweepWindow, states, events, n, key, if n > 0 then Clock(events, n) else 0);
    SpacedIsBounded(Stored(states[n].log, key), cfg.limit(key), cfg.window(key), from);
  }

  lemma SpacedIsBounded(log: seq<int>, limit: nat, window: int, from: int)
    requires Sorted(log) && Spaced(log, limit, window)
    ensures CountIn(log, from, window) <= limit
  {
    var k := CountIn(log, from, window);
    if k > 0 {
      CountedTogether(log, from, window);
      var i :| 0 <= i <= |log| - k && InInterval(log, i, from, window);
      assert log[i + k - 1] - log[i] < window;
    }
  }

  /**
  The limiter decides as one that remembered every admission for ever would: for every key and
  every time from now on, the store and the full log admit the same requests.
  */
  lemma DecidesLikeFullHistory(
    cfg: Config, sweepWindow: int, states: seq<State>, events: seq<Event>, n: nat, key: Key, now: int)
    requires Run(cfg, sweepWindow, states, events) && n <= |events|
    requires sweepWindow >= cfg.window(key)
    requires n > 0 ==> Clock(events, n) <= now
    ensures Prune(Stored(states[n].store, key), now, cfg.window(key))
            == Prune(Stored(states[n].log, key), now, cfg.window(key))
    ensures Admits(Stored(states[n].store, key), now, cfg.limit(key), cfg.window(key))
            <==> Admits(Stored(states[n].log, key), now, cfg.limit(key), cfg.window(key))
  {
    RunKeepsKeyInv(cfg, sweepWindow, states, events, n, key, now);
    PruneForgets(Stored(states[n].store, key), Stored(states[n].log, key), now, cfg.window(key));
  }

  lemma {:induction false} PruneCounts(ts: seq<int>, now: int, window: int)
    requires forall i :: 0 <= i < |ts| ==> ts[i] <= now
    ensures |Prune(ts, now, window)| == CountIn(ts, now - window + 1, window)
    decreases |ts|
  {
    if ts != [] {
      var front, last := ts[..|ts| - 1], ts[|ts| - 1];
      PruneCounts(front, now, window);
      PruneAtEnd(front, last, now, window);
      assert ts == front + [last];
    }
  }

  lemma {:induction false} PruneAtEnd(ts: seq<int>, last: int, now: int, window: int)
    ensures Prune(ts + [last], now, window) == Prune(ts, now, window) + if now - last < window then [last] else []
  {
    if ts == [] {
      assert [last][1..] == [] && ts + [last] == [last];
    } else {
      var first, rest := if now - ts[0] < window then [ts[0]] else [], ts[1..];
      PruneAtEnd(rest, last, now, window);
      assert (ts + [last])[0] == ts[0] && (ts + [last])[1..] == rest + [last];
      Associates(first, Prune(rest, now, window), if now - last < window then [last] else []);
    }
  }

  lemma Associates(a: seq<int>, b: seq<int>, c: seq<int>)
    ensures (a + b) + c == a + (b + c)
  {
  }

  lemma RoomInLog(
    cfg: Config, sweepWindow: int, states: seq<State>, events: seq<Event>, n: nat, key: Key, now: int)
    requires Run(cfg, sweepWindow, states, events) && n <= |events|
    requires sweepWindow >= cfg.window(key)
    requires n > 0 ==> Clock(events, n) <= now
    ensures |Prune(Stored(states[n].log, key), now, cfg.window(key))|
            == CountIn(Stored(states[n].log, key), now - cfg.window(key) + 1, cfg.window(key))
  {
    RunKeepsKeyInv(cfg, sweepWindow, states, events, n, key, now);
    LogIsPast(cfg, states[n], key, now);
    PruneCounts(Stored(states[n].log, key), now, cfg.window(key));
  }

  lemma LogIsPast(cfg: Config, s: State, key: Key, now: int)
    requires KeyInv(cfg, s, key, now)
    ensures forall i :: 0 <= i < |Stored(s.log, key)| ==> Stored(s.log, key)[i] <= now
  {
  }

  /** A request is admitted exactly when fewer than `limit` have been in the window of whole milliseconds that ends with it. */
  lemma AdmittedIffRoom(
    cfg: Config, sweepWindow: int, states: seq<State>, events: seq<Event>, n: nat, key: Key, now: int)
    requires Run(cfg, sweepWindow, states, events) && n <= |events|
    requires sweepWindow >= cfg.window(key)
    requires n > 0 ==> Clock(events, n) <= now
    ensures Admits(Stored(states[n].store, key), now, cfg.limit(key), cfg.window(key))
            <==> CountIn(Stored(states[n].log, key), now - cfg.window(key) + 1, cfg.window(key)) < cfg.limit(key)
  {
    DecidesLikeFullHistory(cfg, sweepWindow, states, events, n, key, now);
    RoomInLog(cfg, sweepWindow, states, events, n, key, now);
  }

  // ---------------------------------------------------------------- when sweeps are invisible

  ghost predicate Reached(cfg: Config, sweepWindow: int, states: seq<State>, events: seq<Event>, n: nat, now: int) {
    Run(cfg, sweepWindow, states, events) && n <= |events| && (n > 0 ==> Clock(events, n) <= now)
  }

  ghost predicate SameDecision(cfg: Config, s: State, key: Key, now: int) {
    Admits(Stored(s.store, key), now, cfg.limit(key), cfg.window(key))
    <==> Admits(Stored(s.log, key), now, cfg.limit(key), cfg.window(key))
  }

  /** In every run and at every time, the store decides for the key as the full log does. */
  ghost predicate SweepsInvisible(cfg: Config, sweepWindow: int, key: Key) {
    forall states, events, n: nat, now: int ::
      Reached(cfg, sweepWindow, states, events, n, now) ==> SameDecision(cfg, states[n], key, now)
  }

  ghost predicate Past(ts: seq<int>, now: int) {
    forall i :: 0 <= i < |ts| ==> ts[i] <= now
  }

  lemma {:induction false} PruneOfPast(ts: seq<int>, now: int, window: int, later: int)
    requires Past(ts, later)
    ensures Past(Prune(ts, now, window), later)
    ensures window <= 0 && later <= now ==> Prune(ts, now, window) == []
  {
    if ts != [] {
      PruneOfPast(ts[1..], now, window, later);
    }
  }

  lemma {:induction false} RunIsPast(
    cfg: Config, sweepWindow: int, states: seq<State>, events: seq<Event>, n: nat, key: Key, now: int)
    requires Reached(cfg, sweepWindow, states, events, n, now)
    ensures Past(Stored(states[n].store, key), now) && Past(Stored(states[n].log, key), now)
    decreases n
  {
    if n > 0 {
      var e, s := events[n - 1], states[n - 1];
      assert n > 1 ==> events[n - 2].at <= e.at;
      RunIsPast(cfg, sweepWindow, states, events, n - 1, key, e.at);
      StepIsPast(cfg, sweepWindow, s, e, states[n], key);
    }
  }

  lemma StepIsPast(cfg: Config, sweepWindow: int, s: State, e: Event, s': State, key: Key)
    requires Step(cfg, sweepWindow, s, e, s')
    requires Past(Stored(s.store, key), e.at) && Past(Stored(s.log, key), e.at)
    ensures Past(Stored(s'.store, key), e.at) && Past(Stored(s'.log, key), e.at)
  {
    if e.Sweep? {
      PruneOfPast(Stored(s.store, key), e.at, sweepWindow, e.at);
      assert Stored(s'.store, key) == Prune(Stored(s.store, key), e.at, sweepWindow);
    } else if e.key == key {
      var ts, live := Stored(s.store, key), Prune(Stored(s.store, key), e.at, cfg.window(key));
      PruneOfPast(ts, e.at, cfg.window(key), e.at);
      PastWithNow(live, e.at);
      PastWithNow(Stored(s.log, key), e.at);
      assert Stored(s'.store, key) in {live, live + [e.at]};
      assert Stored(s'.log, key) in {Stored(s.log, key), Stored(s.log, key) + [e.at]};
    } else {
      assert Stored(s'.store, key) == Stored(s.store, key) && Stored(s'.log, key) == Stored(s.log, key);
    }
  }

  lemma PastWithNow(ts: seq<int>, now: int)
    requires Past(ts, now)
    ensures Past(ts + [now], now)
  {
  }

  function Zeros(n: nat): (z: seq<int>)
    ensures |z| == n && forall i :: 0 <= i < n ==> z[i] == 0
  {
    seq(n, i => 0)
  }

  lemma PruneZeros(n: nat, now: int, window: int)
    ensures Prune(Zeros(n), now, window) == if now < window then Zeros(n) else []
    decreases n
  {
    if now < window {
      PruneKeepsLive(Zeros(n), now, window);
    } else if n > 0 {
      assert Zeros(n)[1..] == Zeros(n - 1);
      PruneZeros(n - 1, now, window);
    }
  }

  /** After `i` requests at time 0, none of them rejected. */
  function Admitted(key: Key, i: nat): State {
    if i == 0 then State(map[], map[]) else State(map[key := Zeros(i)], map[key := Zeros(i)])
  }

  lemma AdmittedStep(cfg: Config, sweepWindow: int, key: Key, i: nat)
    requires i < cfg.limit(key) && cfg.window(key) > 0
    ensures Step(cfg, sweepWindow, Admitted(key, i), Request(key, 0), Admitted(key, i + 1))
  {
    assert Stored(Admitted(key, i).store, key) == Zeros(i) == Stored(Admitted(key, i).log, key);
    PruneZeros(i, 0, cfg.window(key));
    assert Zeros(i) + [0] == Zeros(i + 1);
  }

  lemma SweepForgetsAll(cfg: Config, sweepWindow: int, key: Key, i: nat, at: int)
    requires at >= sweepWindow
    ensures Step(cfg, sweepWindow, Admitted(key, i), Sweep(at), State(map[], Admitted(key, i).log))
  {
    forall k
      ensures Stored(map[], k) == Prune(Stored(Admitted(key, i).store, k), at, sweepWindow)
    {
      PruneZeros(i, at, sweepWindow);
    }
  }

  /**
  With a shorter sweep window, `limit` requests at time 0 and a sweep before they have left the
  key's window make room for one request too many.
  */
  lemma ShortSweepForgets(cfg: Config, sweepWindow: int, key: Key)
    requires sweepWindow < cfg.window(key) && cfg.window(key) > 0 && cfg.limit(key) > 0
    ensures !SweepsInvisible(cfg, sweepWindow, key)
  {
    var limit, at := cfg.limit(key), if sweepWindow > 0 then sweepWindow else 0;
    var events := seq(limit, i => Request(key, 0)) + [Sweep(at)];
    var last := State(map[], Admitted(key, limit).log);
    var states := seq(limit + 1, i requires 0 <= i <= limit => Admitted(key, i)) + [last];
    forall i | 0 <= i < |events|
      ensures Step(cfg, sweepWindow, states[i], events[i], states[i + 1])
    {
      if i < limit {
        AdmittedStep(cfg, sweepWindow, key, i);
      } else {
        SweepForgetsAll(cfg, sweepWindow, key, limit, at);
      }
    }
    assert Run(cfg, sweepWindow, states, events);
    assert Reached(cfg, sweepWindow, states, events, limit + 1, at);
    PruneZeros(limit, at, cfg.window(key));
    assert Stored(last.log, key) == Zeros(limit) && Stored(last.store, key) == [];
    assert !SameDecision(cfg, states[limit + 1], key, at);
  }

  /**
  Sweeps are invisible for a key exactly when they use a window no shorter than the key's, or
  the key's window or limit lets nothing or everything through anyway.
  */
  lemma SweepsInvisibleIff(cfg: Config, sweepWindow: int, key: Key)
    ensures SweepsInvisible(cfg, sweepWindow, key)
            <==> sweepWindow >= cfg.window(key) || cfg.window(key) <= 0 || cfg.limit(key) <= 0
  {
    if sweepWindow >= cfg.window(key) || cfg.window(key) <= 0 || cfg.limit(key) <= 0 {
      forall states: seq<State>, events, n: nat, now: int | Reached(cfg, sweepWindow, states, events, n, now)
        ensures SameDecision(cfg, states[n], key, now)
      {
        if sweepWindow >= cfg.window(key) {
          DecidesLikeFullHistory(cfg, sweepWindow, states, events, n, key, now);
        } else if cfg.window(key) <= 0 {
          RunIsPast(cfg, sweepWindow, states, events, n, key, now);
          PruneOfPast(Stored(states[n].store, key), now, cfg.window(key), now);
          PruneOfPast(Stored(states[n].log, key), now, cfg.window(key), now);
        }
      }
    } else {
      ShortSweepForgets(cfg, sweepWindow, key);
    }
  }

  // ---------------------------------------------------------------- Retry-After

  /** `Math.ceil(x / 1000)` */
  function CeilSeconds(x: int): int {
    (x + 999) / 1000
  }

  function RetryAfterSeconds(oldestTs: int, windowMs: int, now: int): int {
    var s := CeilSeconds(oldestTs + windowMs - now);
    if s < 1 then 1 else s
  }

  lemma SuffixOfSorted(ts: seq<int>, log: seq<int>)
    requires Suffix(ts, log) && Sorted(log)
    ensures Sorted(ts)
  {
    var d := |log| - |ts|;
    assert forall i :: 0 <= i < |ts| ==> ts[i] == log[d + i];
  }

  /** A full list lets a request in again exactly when its oldest timestamp has expired. */
  lemma OldestDecides(live: seq<int>, limit: int, window: int, later: int)
    requires Sorted(live) && live != [] && |live| == limit
    ensures Admits(live, later, limit, window) <==> later >= live[0] + window
  {
    PruneIsSuffix(live, later, window);
    var rest := Prune(live, later, window);
    assert 0 < |live| - |rest| ==> later - live[0] >= window;
    assert |live| - |rest| <= 0 ==> later - live[0] < window;
  }

  /**
  A caller rejected in a run is admitted at a later time exactly when the oldest admission of
  its window has left it, provided no other request of the key comes first.
  */
  lemma AdmittedWhenOldestLeaves(
    cfg: Config, sweepWindow: int, states: seq<State>, events: seq<Event>, n: nat, key: Key, now: int, later: int)
    requires Run(cfg, sweepWindow, states, events) && n <= |events|
    requires sweepWindow >= cfg.window(key) && cfg.limit(key) > 0
    requires (n > 0 ==> Clock(events, n) <= now) && now <= later
    requires !Admits(Stored(states[n].store, key), now, cfg.limit(key), cfg.window(key))
    ensures var live := Prune(Stored(states[n].store, key), now, cfg.window(key));
            live != [] &&
            (Admits(live, later, cfg.limit(key), cfg.window(key)) <==> later >= live[0] + cfg.window(key))
  {
    RunKeepsKeyInv(cfg, sweepWindow, states, events, n, key, now);
    var ts, log, window := Stored(states[n].store, key), Stored(states[n].log, key), cfg.window(key);
    SuffixOfSorted(ts, log);
    PruneIsSuffix(ts, now, window);
    var live := Prune(ts, now, window);
    SuffixOfSorted(live, ts);
    OldestDecides(live, cfg.limit(key), window, later);
  }

  /**
  Retry-After is enough, and no whole number of seconds less (other than none) would be: it
  is computed at `headerTime`, a clock reading after the decision.
  */
  lemma RetryAfterIsExact(oldestTs: int, windowMs: int, headerTime: int)
    ensures var s := RetryAfterSeconds(oldestTs, windowMs, headerTime);
            && headerTime + 1000 * s >= oldestTs + windowMs
            && forall k :: 1 <= k < s ==> headerTime + 1000 * k < oldestTs + windowMs
  {
  }

  /** A rejected caller that waits as long as Retry-After says is admitted, if no other request of its key comes first. */
  lemma RetryAfterAdmits(
    cfg: Config, sweepWindow: int, states: seq<State>, events: seq<Event>, n: nat, key: Key, now: int, headerTime: int)
    requires Run(cfg, sweepWindow, states, events) && n <= |events|
    requires sweepWindow >= cfg.window(key) && cfg.limit(key) > 0
    requires (n > 0 ==> Clock(events, n) <= now) && now <= headerTime
    requires !Admits(Stored(states[n].store, key), now, cfg.limit(key), cfg.window(key))
    ensures var live := AfterRequest(Stored(states[n].store, key), now, cfg.limit(key), cfg.window(key));
            live != [] &&
            var s := RetryAfterSeconds(live[0], cfg.window(key), headerTime);
            Admits(live, headerTime + 1000 * s, cfg.limit(key), cfg.window(key)) &&
            forall k :: 1 <= k < s ==> !Admits(live, headerTime + 1000 * k, cfg.limit(key), cfg.window(key))
  {
    var live := Prune(Stored(states[n].store, key), now, cfg.window(key));
    AdmittedWhenOldestLeaves(cfg, sweepWindow, states, events, n, key, now, now);
    var s := RetryAfterSeconds(live[0], cfg.window(key), headerTime);
    RetryAfterIsExact(live[0], cfg.window(key), headerTime);
    AdmittedWhenOldestLeaves(cfg, sweepWindow, states, events, n, key, now, headerTime + 1000 * s);
    forall k | 1 <= k < s
      ensures !Admits(live, headerTime + 1000 * k, cfg.limit(key), cfg.window(key))
    {
      AdmittedWhenOldestLeaves(cfg, sweepWindow, states, events, n, key, now, headerTime + 1000 * k);
    }
  }

  /** The permission administration limiter: 100 requests in any 15 minutes, sweeping with the same window. */
  const PERMISSION_LIMIT := 100
  const PERMISSION_WINDOW_MS := 15 * 60 * 1000

  lemma PermissionAdminBound(states: seq<State>, events: seq<Event>, n: nat, key: Key, from: int)
    requires Run(Config(k => PERMISSION_LIMIT, k => PERMISSION_WINDOW_MS), PERMISSION_WINDOW_MS, states, events)
    requires n <= |events|
    ensures CountIn(Stored(states[n].log, key), from, 900_000) <= 100
  {
    NeverAboveLimit(
      Config(k => PERMISSION_LIMIT, k => PERMISSION_WINDOW_MS), PERMISSION_WINDOW_MS, states, events, n, key, from);
  }
}
