/**
The reconnecting Redis connection of src/cache/redisManager.ts. Each handler is one step; an
attempt to connect is in flight between the call of `createConnection` and the moment its
promise settles, a disconnect between the call of `quit` and its answer.
*/
module RedisConnection {
  import opened Common

  datatype Status = Disconnected | Connecting | Connected | Degraded

  /** The options, in milliseconds. */
  datatype Options = Options(reconnectInterval: nat, maxReconnectAttempts: nat, maxBackoffMs: nat)

  /**
  The fields of the manager; the timer is the delay it was set with. Clients are numbered as
  they are made, and `open` are those that nobody has told to disconnect or quit.
  */
  datatype Fields = Fields(
    status: Status, client: Option<nat>, attempts: nat, timer: Option<nat>, made: nat, open: set<nat>)

  function Pow2(n: nat): (p: nat)
    ensures p >= 1
  {
    if n == 0 then 1 else 2 * Pow2(n - 1)
  }

  function Min(a: nat, b: nat): nat {
    if a <= b then a else b
  }

  /** The delay before the next attempt, when `attempts` have been made. */
  function Delay(o: Options, attempts: nat): nat {
    if attempts >= o.maxReconnectAttempts then
      Min(o.maxBackoffMs, o.reconnectInterval * Pow2(attempts - o.maxReconnectAttempts + 1))
    else o.reconnectInterval
  }

  function Scheduled(o: Options, f: Fields): Fields {
    if f.timer.Some? then f else f.(timer := Some(Delay(o, f.attempts)))
  }

  /** A live connection is lost; any other status is left alone. */
  function Lost(o: Options, f: Fields): Fields {
    if f.status.Connected? then Scheduled(o, f.(status := Degraded)) else f
  }

  /** `disconnect` on the current client, if there is one. */
  function CurrentClosed(f: Fields): Fields {
    if f.client.Some? then f.(open := f.open - {f.client.value}) else f
  }

  /** A new client in place of the current one. */
  function Created(f: Fields): Fields {
    var c := CurrentClosed(f);
    c.(client := Some(f.made), made := f.made + 1, open := c.open + {f.made})
  }

  function Started(f: Fields): Fields { Created(f.(status := Connecting)) }

  function ConnectedNow(f: Fields): Fields { f.(status := Connected, attempts := 0, timer := None) }

  function AttemptLost(o: Options, f: Fields): Fields { Scheduled(o, f.(status := Degraded)) }

  /** The timer's callback up to its await. */
  function Retried(f: Fields): Fields { Created(f.(timer := None, attempts := f.attempts + 1)) }

  /** `disconnect` up to its await; without a client there is none, and it is over. */
  function DisconnectBegun(f: Fields): Fields {
    if f.client.Some? then f.(timer := None) else f.(timer := None, status := Disconnected)
  }

  /**
  The rest of `disconnect`, when `quit` on client `c` has succeeded or not. It drops the client
  that is then the current one; after a failure it must disconnect that client first, and throws
  when there is none.
  */
  function DisconnectEnded(f: Fields, c: nat, ok: bool): Fields {
    if ok then f.(open := f.open - {c}, client := None, status := Disconnected)
    else if f.client.Some? then CurrentClosed(f).(client := None, status := Disconnected)
    else f
  }

  class RedisManager {
    const options: Options
    const hasUrl: bool
    var status: Status
    var client: Option<nat>
    var reconnectAttempts: nat
    var reconnectTimer: Option<nat>
    var made: nat
    var open: set<nat>

    function View(): Fields
      reads this
    {
      Fields(status, client, reconnectAttempts, reconnectTimer, made, open)
    }

    constructor (options: Options, hasUrl: bool)
      ensures this.options == options && this.hasUrl == hasUrl
      ensures View() == Fields(Disconnected, None, 0, None, 0, {})
    {
      this.options, this.hasUrl := options, hasUrl;
      status, client, reconnectAttempts, reconnectTimer, made, open := Disconnected, None, 0, None, 0, {};
    }

    /** `connect` up to its await; without a URL there is nothing to connect to. */
    method Connect() returns (attemptStarted: bool)
      modifies this
      ensures attemptStarted == hasUrl
      ensures View() == if hasUrl then Started(old(View())) else old(View()).(status := Degraded)
    {
      if !hasUrl {
        status := Degraded;
        return false;
      }
      status := Connecting;
      CreateConnection();
      return true;
    }

    method CreateConnection()
      modifies this
      ensures View() == Created(old(View()))
    {
      if client.Some? {
        open := open - {client.value};
        client := None;
      }
      client := Some(made);
      open := open + {made};
      made := made + 1;
    }

    /** The `connectTimeout` of an attempt; it rejects the attempt only before the first connection. */
    method OnConnectTimeout() returns (rejected: bool)
      modifies this
      ensures rejected <==> old(status) == Connecting
      ensures View() == if rejected then CurrentClosed(old(View())) else old(View())
    {
      rejected := status == Connecting;
      if rejected && client.Some? {
        open := open - {client.value};
      }
    }

    method OnConnect()
      modifies this
      ensures View() == ConnectedNow(old(View()))
    {
      status := Connected;
      reconnectAttempts := 0;
      ClearReconnectTimer();
    }

    /** The `error` and the `close` handler. */
    method OnLost() returns (warned: bool)
      modifies this
      ensures View() == Lost(options, old(View()))
      ensures warned ==> old(status) == Connected
    {
      warned := false;
      if status == Connected {
        status := Degraded;
        warned := ScheduleReconnect();
      }
    }

    /** The `catch` around an attempt, the first one or a later one. */
    method OnAttemptFailed() returns (warned: bool)
      modifies this
      ensures View() == AttemptLost(options, old(View()))
    {
      status := Degraded;
      warned := ScheduleReconnect();
    }

    method ScheduleReconnect() returns (warned: bool)
      modifies this`reconnectTimer
      ensures View() == Scheduled(options, old(View()))
      ensures warned <==> old(reconnectTimer).None? && reconnectAttempts == options.maxReconnectAttempts
    {
      if reconnectTimer.Some? {
        return false;
      }
      var exhausted := reconnectAttempts >= options.maxReconnectAttempts;
      var exponent := if exhausted then reconnectAttempts - options.maxReconnectAttempts + 1 else 0;
      var backoffMs :=
        if exhausted then Min(options.maxBackoffMs, options.reconnectInterval * Pow2(exponent)) else options.reconnectInterval;
      warned := exhausted && reconnectAttempts == options.maxReconnectAttempts;
      reconnectTimer := Some(backoffMs);
    }

    /** The timer's callback up to its await. */
    method OnTimer()
      modifies this
      ensures View() == Retried(old(View()))
    {
      reconnectTimer := None;
      reconnectAttempts := reconnectAttempts + 1;
      CreateConnection();
    }

    method ClearReconnectTimer()
      modifies this`reconnectTimer
      ensures reconnectTimer.None?
    {
      if reconnectTimer.Some? {
        reconnectTimer := None;
      }
    }

    /** `disconnect` up to its await, which is `quit` on the client it returns. */
    method BeginDisconnect() returns (quitting: Option<nat>)
      modifies this
      ensures View() == DisconnectBegun(old(View())) && quitting == old(client)
    {
      ClearReconnectTimer();
      quitting := client;
      if client.None? {
        status := Disconnected;
      }
    }

    /** The rest of it; `false` is the exception. */
    method EndDisconnect(c: nat, quitSucceeds: bool) returns (ok: bool)
      modifies this
      ensures View() == DisconnectEnded(old(View()), c, quitSucceeds)
      ensures ok <==> quitSucceeds || old(client).Some?
    {
      if quitSucceeds {
        open := open - {c};
      } else {
        if client.None? {
          return false;
        }
        open := open - {client.value};
      }
      client := None;
      status := Disconnected;
      return true;
    }
  }
}

/** The manager together with the connection attempts, timers and disconnects under way. */
module RedisProtocol {
  import opened Common
  import opened RedisConnection

  /**
  `timers` counts the timers that the runtime holds; `attempting` are the clients that are
  connecting and `quitting` those of the unfinished disconnects. `scheduled` lists, since the
  last connect or disconnect, at which attempt counts a reconnection was scheduled; `warnings`
  counts the exhaustion warnings over the same time.
  */
  datatype System = System(
    m: Fields,
    timers: nat,
    attempting: set<nat>,
    quitting: multiset<nat>,
    scheduled: seq<nat>,
    warnings: nat)

  datatype Event =
    | Connect
    | AttemptSucceeds(c: nat)
    | AttemptFails(c: nat)
    | AttemptTimesOut(c: nat)
    | ConnectionLost
    | TimerFires
    | DisconnectBegins
    | DisconnectEnds(c: nat, ok: bool)

  /** A client that was told to disconnect does not connect any more; its attempt fails. */
  predicate Enabled(s: System, e: Event) {
    match e
    case AttemptSucceeds(c) => c in s.attempting && c in s.m.open
    case AttemptFails(c) => c in s.attempting
    case AttemptTimesOut(c) => c in s.attempting && s.m.status.Connecting?
    case TimerFires => s.m.timer.Some? && s.timers > 0
    case DisconnectEnds(c, _) => c in s.quitting
    case _ => true
  }

  /** The bookkeeping around a step that may have set the timer. */
  function Noting(o: Options, s: System, m: Fields): System {
    if s.m.timer.Some? || m.timer.None? then s.(m := m)
    else s.(
      m := m,
      timers := s.timers + 1,
      scheduled := s.scheduled + [m.attempts],
      warnings := s.warnings + if m.attempts == o.maxReconnectAttempts then 1 else 0)
  }

  /** The bookkeeping around a step that clears the timer and begins a new outage. */
  function Cleared(s: System, m: Fields): System {
    s.(m := m, timers := if s.m.timer.Some? && s.timers > 0 then s.timers - 1 else s.timers, scheduled := [], warnings := 0)
  }

  /** One step of a manager that has a URL. */
  function Next(o: Options, s: System, e: Event): System
    requires Enabled(s, e)
  {
    match e
    case Connect => s.(m := Started(s.m), attempting := s.attempting + {s.m.made})
    case AttemptSucceeds(c) => Cleared(s, ConnectedNow(s.m)).(attempting := s.attempting - {c})
    case AttemptFails(c) => Noting(o, s, AttemptLost(o, s.m)).(attempting := s.attempting - {c})
    case AttemptTimesOut(c) => Noting(o, s, AttemptLost(o, CurrentClosed(s.m))).(attempting := s.attempting - {c})
    case ConnectionLost => Noting(o, s, Lost(o, s.m))
    case TimerFires => s.(m := Retried(s.m), timers := s.timers - 1, attempting := s.attempting + {s.m.made})
    case DisconnectBegins =>
      var s' := Cleared(s, DisconnectBegun(s.m));
      if s.m.client.Some? then s'.(quitting := s.quitting + multiset{s.m.client.value}) else s'
    case DisconnectEnds(c, ok) => s.(m := DisconnectEnded(s.m, c, ok), quitting := s.quitting - multiset{c})
  }

  const Initial := System(Fields(Disconnected, None, 0, None, 0, {}), 0, {}, multiset{}, [], 0)

  // ---------------------------------------------------------------- invariant

  /** The runtime holds a timer exactly when the field says so: never two, and none forgotten. */
  ghost predicate OneTimer(s: System) {
    s.timers == if s.m.timer.Some? then 1 else 0
  }

  /** A reconnection is ahead: a timer or an attempt. */
  predicate Pending(s: System) {
    s.m.timer.Some? || s.attempting != {}
  }

  /** Outside a disconnect, a degraded manager has a reconnection ahead of it. */
  ghost predicate NeverGivesUp(s: System) {
    && (s.m.status.Degraded? && (s.quitting == multiset{} || s.m.client.None?) ==> Pending(s))
    && (s.m.status.Connecting? ==> s.attempting != {})
  }

  ghost function CountOf(ks: seq<nat>, k: nat): nat {
    if ks == [] then 0 else CountOf(ks[..|ks| - 1], k) + if ks[|ks| - 1] == k then 1 else 0
  }

  /** Within an outage every reconnection is scheduled at a higher attempt count than the one before. */
  ghost predicate CountsUp(o: Options, s: System) {
    && (forall i, j :: 0 <= i < j < |s.scheduled| ==> s.scheduled[i] < s.scheduled[j])
    && (forall i :: 0 <= i < |s.scheduled| ==> s.scheduled[i] <= s.m.attempts)
    && (s.m.timer.None? ==> forall i :: 0 <= i < |s.scheduled| ==> s.scheduled[i] < s.m.attempts)
    && s.warnings == CountOf(s.scheduled, o.maxReconnectAttempts)
  }

  ghost predicate Made(f: Fields) {
    (forall c :: c in f.open ==> c < f.made) && (f.client.Some? ==> f.client.value < f.made)
  }

  /** Clients that connect have been made. */
  ghost predicate ClientsMade(s: System) {
    && Made(s.m)
    && (forall c :: c in s.attempting ==> c < s.m.made)
  }

  lemma StepsKeepMade(f: Fields)
    requires Made(f)
    ensures Made(CurrentClosed(f)) && Made(Created(f)) && Made(Started(f)) && Made(Retried(f))
  {
  }

  lemma EndKeepsMade(f: Fields, c: nat, ok: bool)
    requires Made(f)
    ensures Made(DisconnectEnded(f, c, ok))
  {
  }

  ghost predicate Inv(o: Options, s: System) {
    OneTimer(s) && NeverGivesUp(s) && CountsUp(o, s) && ClientsMade(s)
  }

  lemma NotingCountsUp(o: Options, s: System, m: Fields)
    requires OneTimer(s) && CountsUp(o, s) && m.attempts == s.m.attempts && (s.m.timer.Some? ==> m.timer.Some?)
    ensures OneTimer(Noting(o, s, m)) && CountsUp(o, Noting(o, s, m))
  {
    var ks := s.scheduled + [m.attempts];
    assert ks[..|ks| - 1] == s.scheduled;
  }

  lemma StepKeepsCounts(o: Options, s: System, e: Event)
    requires OneTimer(s) && CountsUp(o, s) && Enabled(s, e)
    ensures OneTimer(Next(o, s, e)) && CountsUp(o, Next(o, s, e))
  {
    match e
    case AttemptFails(_) => NotingCountsUp(o, s, AttemptLost(o, s.m));
    case AttemptTimesOut(_) => NotingCountsUp(o, s, AttemptLost(o, CurrentClosed(s.m)));
    case ConnectionLost => NotingCountsUp(o, s, Lost(o, s.m));
    case _ =>
  }

  lemma StepKeepsClientsMade(o: Options, s: System, e: Event)
    requires ClientsMade(s) && Enabled(s, e)
    ensures ClientsMade(Next(o, s, e))
  {
    var s' := Next(o, s, e);
    StepsKeepMade(s.m);
    if e.DisconnectEnds? {
      EndKeepsMade(s.m, e.c, e.ok);
    }
    assert Made(s'.m);
    assert s.m.made <= s'.m.made;
  }

  lemma StepNeverGivesUp(o: Options, s: System, e: Event)
    requires NeverGivesUp(s) && OneTimer(s) && Enabled(s, e)
    ensures NeverGivesUp(Next(o, s, e))
  {
    var s' := Next(o, s, e);
    PendingIff(o, s, e);
    if e.Connect? || e.TimerFires? {
      assert s.m.made in s'.attempting;
    }
    if e.DisconnectBegins? && s.m.client.Some? {
      assert s.m.client.value in s'.quitting;
    }
  }

  lemma StepKeepsInv(o: Options, s: System, e: Event)
    requires Inv(o, s) && Enabled(s, e)
    ensures Inv(o, Next(o, s, e))
  {
    StepKeepsCounts(o, s, e);
    StepKeepsClientsMade(o, s, e);
    StepNeverGivesUp(o, s, e);
  }

  ghost predicate Possible(o: Options, s: System, events: seq<Event>)
    decreases |events|
  {
    events == [] || (Enabled(s, events[0]) && Possible(o, Next(o, s, events[0]), events[1..]))
  }

  ghost function After(o: Options, s: System, events: seq<Event>): System
    requires Possible(o, s, events)
    decreases |events|
  {
    if events == [] then s else After(o, Next(o, s, events[0]), events[1..])
  }

  lemma {:induction false} RunKeepsInv(o: Options, s: System, events: seq<Event>)
    requires Inv(o, s) && Possible(o, s, events)
    ensures Inv(o, After(o, s, events))
    decreases |events|
  {
    if events != [] {
      StepKeepsInv(o, s, events[0]);
      RunKeepsInv(o, Next(o, s, events[0]), events[1..]);
    }
  }

  // ---------------------------------------------------------------- delays

  lemma {:induction false} Pow2Grows(m: nat, n: nat)
    requires m <= n
    ensures Pow2(m) <= Pow2(n)
  {
    if m < n {
      Pow2Grows(m, n - 1);
    }
  }

  lemma MulGrows(k: nat, a: nat, b: nat)
    requires a <= b
    ensures k * a <= k * b
  {
  }

  ghost predicate IntervalWithinCap(o: Options) {
    o.reconnectInterval <= o.maxBackoffMs || o.maxReconnectAttempts == 0
  }

  lemma DelayGrows(o: Options, m: nat, n: nat)
    requires IntervalWithinCap(o) && m <= n
    ensures Delay(o, m) <= Delay(o, n) <= o.maxBackoffMs
  {
    var max := o.maxReconnectAttempts;
    if m >= max {
      Pow2Grows(m - max + 1, n - max + 1);
      MulGrows(o.reconnectInterval, Pow2(m - max + 1), Pow2(n - max + 1));
    } else if n >= max {
      MulGrows(o.reconnectInterval, 1, Pow2(n - max + 1));
    }
  }

  /**
  Delays never shrink from one attempt to a later one exactly when the fixed interval is within
  the cap (or there is no fixed phase); under the same condition the cap bounds them all.
  */
  lemma DelaysGrowIff(o: Options)
    ensures (forall m: nat, n: nat :: m <= n ==> Delay(o, m) <= Delay(o, n)) <==> IntervalWithinCap(o)
    ensures (forall n: nat :: Delay(o, n) <= o.maxBackoffMs) <==> IntervalWithinCap(o)
  {
    if IntervalWithinCap(o) {
      forall m: nat, n: nat | m <= n
        ensures Delay(o, m) <= Delay(o, n) <= o.maxBackoffMs
      {
        DelayGrows(o, m, n);
      }
    } else {
      assert Delay(o, 0) == o.reconnectInterval > o.maxBackoffMs >= Delay(o, o.maxReconnectAttempts);
    }
  }

  lemma {:induction false} AtMostOnce(ks: seq<nat>, k: nat)
    requires forall i, j :: 0 <= i < j < |ks| ==> ks[i] < ks[j]
    ensures CountOf(ks, k) <= 1
    ensures CountOf(ks, k) == 1 ==> k in ks
  {
    if ks != [] {
      AtMostOnce(ks[..|ks| - 1], k);
    }
  }

  /**
  In every run: never more than one timer; degraded means that a timer or an attempt is under
  way (unless a disconnect is); within an outage the delays never shrink and stay within the
  cap, and the exhaustion warning is given at most once.
  */
  lemma EveryRunRecovers(o: Options, events: seq<Event>)
    requires Possible(o, Initial, events)
    ensures var s := After(o, Initial, events);
            && s.timers <= 1
            && (s.m.status.Degraded? && s.quitting == multiset{} ==> s.timers == 1 || s.attempting != {})
            && s.warnings <= 1
            && (IntervalWithinCap(o) ==>
                  forall i, j :: 0 <= i <= j < |s.scheduled| ==>
                    Delay(o, s.scheduled[i]) <= Delay(o, s.scheduled[j]) <= o.maxBackoffMs)
  {
    RunKeepsInv(o, Initial, events);
    var s := After(o, Initial, events);
    AtMostOnce(s.scheduled, o.maxReconnectAttempts);
    if IntervalWithinCap(o) {
      forall i, j | 0 <= i <= j < |s.scheduled|
        ensures Delay(o, s.scheduled[i]) <= Delay(o, s.scheduled[j]) <= o.maxBackoffMs
      {
        DelayGrows(o, s.scheduled[i], s.scheduled[j]);
      }
    }
  }

  // ---------------------------------------------------------------- which delay an outage gets

  /** How often the timer has fired since the last connection, or before the run. */
  function FiredSince(events: seq<Event>, before: nat): nat {
    if events == [] then before
    else
      match events[|events| - 1]
      case AttemptSucceeds(_) => 0
      case TimerFires => FiredSince(events[..|events| - 1], before) + 1
      case _ => FiredSince(events[..|events| - 1], before)
  }

  lemma {:induction false} FiredSinceFirst(e: Event, rest: seq<Event>, before: nat)
    ensures FiredSince([e] + rest, before)
            == FiredSince(rest, if e.AttemptSucceeds? then 0 else if e.TimerFires? then before + 1 else before)
    decreases |rest|
  {
    var all := [e] + rest;
    if rest == [] {
      assert all == [e] && all[..0] == [];
    } else {
      assert all[..|all| - 1] == [e] + rest[..|rest| - 1] && all[|all| - 1] == rest[|rest| - 1];
      FiredSinceFirst(e, rest[..|rest| - 1], before);
    }
  }

  lemma {:induction false} AttemptsAreFired(o: Options, s: System, events: seq<Event>)
    requires Possible(o, s, events)
    ensures After(o, s, events).m.attempts == FiredSince(events, s.m.attempts)
    decreases |events|
  {
    if events != [] {
      AttemptsAreFired(o, Next(o, s, events[0]), events[1..]);
      FiredSinceFirst(events[0], events[1..], s.m.attempts);
      assert events == [events[0]] + events[1..];
    }
  }

  /** `p` is 2^k: it can be halved `k` times, down to one. */
  predicate IsPowerOfTwo(p: nat, k: nat) {
    if k == 0 then p == 1 else p % 2 == 0 && IsPowerOfTwo(p / 2, k - 1)
  }

  lemma {:induction false} Pow2Is(k: nat)
    ensures IsPowerOfTwo(Pow2(k), k)
  {
    if k > 0 {
      Pow2Is(k - 1);
    }
  }

  /**
  In every run, whenever an event sets the timer: with k firings since the last connection, the
  delay is the interval while k is below the maximum, and from there on the interval times
  2^(k - max + 1), at most the cap.
  */
  lemma DelayInOutage(o: Options, events: seq<Event>, e: Event) returns (p: nat)
    requires Possible(o, Initial, events) && Enabled(After(o, Initial, events), e)
    requires var s := After(o, Initial, events); s.m.timer.None? && Next(o, s, e).m.timer.Some?
    ensures var s' := Next(o, After(o, Initial, events), e);
            var k := FiredSince(events, 0);
            && (k < o.maxReconnectAttempts ==> s'.m.timer == Some(o.reconnectInterval))
            && (k >= o.maxReconnectAttempts ==>
                  && IsPowerOfTwo(p, k - o.maxReconnectAttempts + 1)
                  && s'.m.timer == Some(if o.reconnectInterval * p <= o.maxBackoffMs then o.reconnectInterval * p else o.maxBackoffMs))
  {
    AttemptsAreFired(o, Initial, events);
    var k := FiredSince(events, 0);
    p := if k >= o.maxReconnectAttempts then Pow2(k - o.maxReconnectAttempts + 1) else 1;
    Pow2Is(if k >= o.maxReconnectAttempts then k - o.maxReconnectAttempts + 1 else 0);
  }

  lemma {:induction false} NotFiredSince(before: seq<Event>, c: nat, between: seq<Event>)
    requires forall i :: 0 <= i < |between| ==> !between[i].TimerFires?
    ensures FiredSince(before + [AttemptSucceeds(c)] + between, 0) == 0
    decreases |between|
  {
    var all := before + [AttemptSucceeds(c)] + between;
    if between == [] {
      assert all[|all| - 1] == AttemptSucceeds(c);
    } else {
      assert all[..|all| - 1] == before + [AttemptSucceeds(c)] + between[..|between| - 1];
      NotFiredSince(before, c, between[..|between| - 1]);
    }
  }

  lemma {:induction false} NoTimerWhenConnected(o: Options, s: System, events: seq<Event>)
    requires Possible(o, s, events) && (s.m.status.Connected? ==> s.m.timer.None?)
    ensures After(o, s, events).m.status.Connected? ==> After(o, s, events).m.timer.None?
    decreases |events|
  {
    if events != [] {
      NoTimerWhenConnected(o, Next(o, s, events[0]), events[1..]);
    }
  }

  /**
  So an outage begins with the plain interval, however long the one before it was: a loss after a
  connection, with no timer firing in between, arms the timer with it.
  */
  lemma LossAfterConnection(o: Options, before: seq<Event>, c: nat, between: seq<Event>)
    requires var events := before + [AttemptSucceeds(c)] + between;
             && o.maxReconnectAttempts > 0 && Possible(o, Initial, events)
             && After(o, Initial, events).m.status.Connected?
    requires forall i :: 0 <= i < |between| ==> !between[i].TimerFires?
    ensures var s := After(o, Initial, before + [AttemptSucceeds(c)] + between);
            Enabled(s, ConnectionLost) && Next(o, s, ConnectionLost).m.timer == Some(o.reconnectInterval)
  {
    var events := before + [AttemptSucceeds(c)] + between;
    NotFiredSince(before, c, between);
    FirstLoss(o, Initial, events);
  }

  lemma FirstLoss(o: Options, s: System, events: seq<Event>)
    requires o.maxReconnectAttempts > 0 && Possible(o, s, events) && (s.m.status.Connected? ==> s.m.timer.None?)
    requires After(o, s, events).m.status.Connected? && FiredSince(events, s.m.attempts) == 0
    ensures var s' := After(o, s, events);
            Enabled(s', ConnectionLost) && Next(o, s', ConnectionLost).m.timer == Some(o.reconnectInterval)
  {
    AttemptsAreFired(o, s, events);
    NoTimerWhenConnected(o, s, events);
    LossArms(o, After(o, s, events));
  }

  lemma LossArms(o: Options, s: System)
    requires o.maxReconnectAttempts > 0 && s.m.status.Connected? && s.m.timer.None? && s.m.attempts == 0
    ensures Enabled(s, ConnectionLost) && Next(o, s, ConnectionLost).m.timer == Some(o.reconnectInterval)
  {
  }

  /** With the default options: three times five seconds, then 10, 20 and 40, then always 60. */
  lemma DefaultDelays(k: nat)
    ensures var o := Options(5000, 3, 60000);
            Delay(o, k) == if k < 3 then 5000 else if k == 3 then 10000 else if k == 4 then 20000 else if k == 5 then 40000 else 60000
  {
    assert Pow2(1) == 2 && Pow2(2) == 4 && Pow2(3) == 8 && Pow2(4) == 16;
    if k >= 6 {
      Pow2Grows(4, k - 3 + 1);
      MulGrows(5000, 16, Pow2(k - 3 + 1));
    }
  }

  // ---------------------------------------------------------------- clients

  /** Nobody but the current client is open. */
  ghost predicate OnlyCurrentOpen(f: Fields) {
    forall c :: c in f.open ==> f.client == Some(c)
  }

  /** A new client is one that never was before, and its predecessor has been told to disconnect. */
  lemma CreatedReplaces(f: Fields)
    requires OnlyCurrentOpen(f)
    ensures OnlyCurrentOpen(Created(f)) && Created(f).open == {f.made} && Created(f).client == Some(f.made)
    ensures f.client.Some? ==> f.client.value !in Created(f).open - {f.made}
  {
  }

  /** Every step but the end of a disconnect keeps it so. */
  lemma StepKeepsOneOpen(o: Options, s: System, e: Event)
    requires OnlyCurrentOpen(s.m) && Enabled(s, e) && !e.DisconnectEnds?
    ensures OnlyCurrentOpen(Next(o, s, e).m)
  {
  }

  /** An attempt that timed out leaves no client open, and its own client can never connect. */
  lemma TimedOutIsClosed(o: Options, s: System, c: nat)
    requires OnlyCurrentOpen(s.m) && Enabled(s, AttemptTimesOut(c))
    ensures var s' := Next(o, s, AttemptTimesOut(c));
            s'.m.open == {} && forall d :: !Enabled(s', AttemptSucceeds(d))
  {
    var s' := Next(o, s, AttemptTimesOut(c));
    forall d
      ensures !Enabled(s', AttemptSucceeds(d)) && d !in s'.m.open
    {
      assert d in s.m.open ==> s.m.client == Some(d);
    }
  }

  /**
  A disconnect that ends well leaves a client open, which nobody refers to any more, exactly
  when the client was replaced while `quit` was awaited.
  */
  lemma LeavesClientOpenIff(o: Options, s: System, c: nat, ok: bool)
    requires OnlyCurrentOpen(s.m) && Enabled(s, DisconnectEnds(c, ok))
    ensures var m := Next(o, s, DisconnectEnds(c, ok)).m;
            m.open != {} <==> ok && s.m.client != Some(c) && s.m.open != {}
    ensures var m := Next(o, s, DisconnectEnds(c, ok)).m;
            m.open == {} ==> OnlyCurrentOpen(m)
  {
    if ok && s.m.open != {} {
      var d :| d in s.m.open;
      assert d != c ==> d in Next(o, s, DisconnectEnds(c, ok)).m.open;
    }
  }

  // ---------------------------------------------------------------- disconnecting

  /** What makes a reconnection pending, and what ends it. */
  predicate Arms(s: System, e: Event) {
    e.Connect? || e.AttemptFails? || e.AttemptTimesOut? || (e.ConnectionLost? && s.m.status.Connected?)
  }

  predicate Settles(s: System, e: Event) {
    (e.AttemptSucceeds? && s.attempting == {e.c}) || (e.DisconnectBegins? && s.attempting == {})
  }

  /** After any event a reconnection is pending exactly when the event makes it so, or it was pending and the event does not end it. */
  lemma PendingIff(o: Options, s: System, e: Event)
    requires Enabled(s, e)
    ensures Pending(Next(o, s, e)) <==> Arms(s, e) || (Pending(s) && !Settles(s, e))
  {
    var s' := Next(o, s, e);
    match e
    case Connect => assert s.m.made in s'.attempting;
    case TimerFires => assert s.m.made in s'.attempting;
    case AttemptSucceeds(c) =>
      assert s.attempting == s'.attempting + {c};
    case _ =>
  }

  ghost predicate NoConnect(events: seq<Event>) {
    forall i :: 0 <= i < |events| ==> !events[i].Connect?
  }

  /** The manager's own time-out acts on the attempts of `connect` only: without a call of it no reconnection is timed out. */
  lemma {:induction false} RetriesNeverTimeOut(o: Options, s: System, events: seq<Event>, c: nat)
    requires Possible(o, s, events) && NoConnect(events) && !s.m.status.Connecting?
    ensures !After(o, s, events).m.status.Connecting? && !Enabled(After(o, s, events), AttemptTimesOut(c))
    decreases |events|
  {
    if events != [] {
      assert forall i :: 0 < i < |events| ==> events[i] == events[1..][i - 1];
      RetriesNeverTimeOut(o, Next(o, s, events[0]), events[1..], c);
    }
  }

  /** Neither connected nor about to be. */
  predicate Quiet(s: System) {
    !Pending(s) && !s.m.status.Connected?
  }

  lemma {:induction false} QuietStays(o: Options, s: System, events: seq<Event>)
    requires Quiet(s) && Possible(o, s, events) && NoConnect(events)
    ensures Quiet(After(o, s, events))
    decreases |events|
  {
    if events != [] {
      PendingIff(o, s, events[0]);
      assert Quiet(Next(o, s, events[0]));
      QuietStays(o, Next(o, s, events[0]), events[1..]);
    }
  }

  /** Without another call of `connect`, the manager can be connected at some time. */
  ghost predicate CanConnect(o: Options, s: System) {
    exists events :: Possible(o, s, events) && NoConnect(events) && After(o, s, events).m.status.Connected?
  }

  lemma CanConnectLater(o: Options, s: System, e: Event)
    requires Enabled(s, e) && !e.Connect? && CanConnect(o, Next(o, s, e))
    ensures CanConnect(o, s)
  {
    var rest :| Possible(o, Next(o, s, e), rest) && NoConnect(rest) && After(o, Next(o, s, e), rest).m.status.Connected?;
    var events := [e] + rest;
    assert events[1..] == rest;
    assert Possible(o, s, events) && NoConnect(events);
  }

  lemma ConnectedCan(o: Options, s: System)
    requires s.m.status.Connected?
    ensures CanConnect(o, s)
  {
    assert Possible(o, s, []) && NoConnect([]);
    assert After(o, s, []).m.status.Connected?;
  }

  lemma TimerCan(o: Options, s: System)
    requires OneTimer(s) && s.m.timer.Some?
    ensures CanConnect(o, s)
  {
    var s' := Next(o, s, TimerFires);
    var c := s.m.made;
    assert c in s'.attempting && c in s'.m.open;
    ConnectedCan(o, Next(o, s', AttemptSucceeds(c)));
    CanConnectLater(o, s', AttemptSucceeds(c));
    CanConnectLater(o, s, TimerFires);
  }

  /** Without another call of `connect`, the manager stays unconnected exactly when it is quiet. */
  lemma CanConnectIff(o: Options, s: System)
    requires OneTimer(s)
    ensures CanConnect(o, s) <==> !Quiet(s)
  {
    if s.m.status.Connected? {
      ConnectedCan(o, s);
    } else if s.m.timer.Some? {
      TimerCan(o, s);
    } else if s.attempting != {} {
      var c :| c in s.attempting;
      TimerCan(o, Next(o, s, AttemptFails(c)));
      CanConnectLater(o, s, AttemptFails(c));
    } else {
      forall events | Possible(o, s, events) && NoConnect(events)
        ensures !After(o, s, events).m.status.Connected?
      {
        QuietStays(o, s, events);
      }
    }
  }

  /** A disconnect, with all that happens while its `quit` is awaited, leaves a quiet manager. */
  ghost predicate EndsQuiet(o: Options, s: System, during: seq<Event>, ok: bool)
    requires s.m.client.Some?
  {
    var q, end := Next(o, s, DisconnectBegins), DisconnectEnds(s.m.client.value, ok);
    Possible(o, q, during) && NoConnect(during) && Enabled(After(o, q, during), end) ==>
      Quiet(Next(o, After(o, q, during), end))
  }

  /**
  Whatever happens meanwhile, short of a call of `connect`: a disconnect leaves the manager
  unconnected for good exactly when, before it, the manager is not connected and no attempt is
  in flight. A live connection may be lost while `quit` is awaited, and an attempt outlives it.
  */
  lemma QuietAfterDisconnectIff(o: Options, s: System)
    requires s.m.client.Some?
    ensures (forall during, ok :: EndsQuiet(o, s, during, ok)) <==> !s.m.status.Connected? && s.attempting == {}
  {
    var q, c := Next(o, s, DisconnectBegins), s.m.client.value;
    assert c in q.quitting;
    if !s.m.status.Connected? && s.attempting == {} {
      forall during, ok
        ensures EndsQuiet(o, s, during, ok)
      {
        if Possible(o, q, during) && NoConnect(during) && Enabled(After(o, q, during), DisconnectEnds(c, ok)) {
          QuietStays(o, q, during);
        }
      }
    } else if s.attempting != {} {
      assert Possible(o, q, []) && NoConnect([]) && After(o, q, []) == q;
      assert !EndsQuiet(o, s, [], true);
    } else {
      var during := [ConnectionLost];
      var lost := Next(o, q, ConnectionLost);
      assert Possible(o, lost, during[1..]) && After(o, lost, during[1..]) == lost;
      assert Possible(o, q, during) && NoConnect(during) && After(o, q, during) == lost;
      assert lost.m.timer.Some? && c in lost.quitting;
      assert !EndsQuiet(o, s, during, true);
    }
  }
}
