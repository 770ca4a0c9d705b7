/**
The Redis-backed authentication cache of src/middleware/auth.ts: any number of requests run
`getCachedOrDb` for one cache key, split at its awaits, while the users table changes, entries
expire or are evicted, Redis comes and goes, and the user's entries are invalidated.
*/
module AuthCache {
  import opened Common

  type RequestId = nat

  datatype User = User(status: string, sessionVersion: int)

  /** What the users table held from a moment on; `None` is no such user. */
  datatype Version = Version(from: nat, user: Option<User>)

  /** A value that was read from the table at `readAt`, when version `index` was its last. */
  datatype Reading = Reading(user: Option<User>, index: nat, readAt: nat)

  datatype CacheEntry = CacheEntry(reading: Reading, expiresAt: nat)

  /** Where a request stands: it has read Redis, it has read the table, or it has also written Redis. */
  datatype Phase = FromRedis | FromTable | Stored

  /** What a request holds between an await and its return: a reading, since `at`. */
  datatype Flight = Flight(reading: Reading, at: nat, phase: Phase)

  datatype System = System(
    now: nat,
    versions: seq<Version>,
    cache: Option<CacheEntry>,
    inFlight: map<RequestId, Flight>,
    available: bool)

  const TTL: nat := 300

  datatype Event =
    | Tick(seconds: nat)
    | Write(user: Option<User>)
    | Connectivity(up: bool)
    | Evict
    | Invalidate
    | Get(r: RequestId)
    | Fetch(r: RequestId)
    | Store(r: RequestId)
    | Finish(r: RequestId)

  predicate Live(s: System) {
    s.cache.Some? && s.now < s.cache.value.expiresAt
  }

  /**
  A live entry is found while Redis is reachable; a request may always go to the table (a miss,
  an error, or a forced re-read); only a user that exists, and that came from the table, is stored.
  */
  predicate Enabled(s: System, e: Event) {
    match e
    case Get(r) => r !in s.inFlight && s.available && Live(s)
    case Fetch(r) => r !in s.inFlight && s.versions != []
    case Store(r) => r in s.inFlight && s.available && s.inFlight[r].phase.FromTable? && s.inFlight[r].reading.user.Some?
    case Finish(r) => r in s.inFlight
    case _ => true
  }

  function Next(s: System, e: Event): System
    requires Enabled(s, e)
  {
    match e
    case Tick(seconds) => s.(now := s.now + seconds)
    case Write(user) => s.(versions := s.versions + [Version(s.now, user)])
    case Connectivity(up) => s.(available := up)
    case Evict => s.(cache := None)
    case Invalidate => if s.available then s.(cache := None) else s
    case Get(r) => s.(inFlight := s.inFlight[r := Flight(s.cache.value.reading, s.now, FromRedis)])
    case Fetch(r) =>
      var last := |s.versions| - 1;
      s.(inFlight := s.inFlight[r := Flight(Reading(s.versions[last].user, last, s.now), s.now, FromTable)])
    case Store(r) =>
      s.(cache := Some(CacheEntry(s.inFlight[r].reading, s.now + TTL)),
         inFlight := s.inFlight[r := s.inFlight[r].(phase := Stored)])
    case Finish(r) => s.(inFlight := s.inFlight - {r})
  }

  /** What `getCachedOrDb` returns to its caller at this event, if it returns. */
  function Answer(s: System, e: Event): Option<Reading>
    requires Enabled(s, e)
  {
    if e.Finish? then Some(s.inFlight[e.r].reading) else None
  }

  /** The decision of `authenticate` on that value, for a token of a given session version. */
  predicate Accepts(user: Option<User>, tokenVersion: int) {
    user.Some? && user.value.status == "Active" && user.value.sessionVersion == tokenVersion
  }

  // ---------------------------------------------------------------- what the table held

  /** The reading is right: the table held that version at some moment of second `readAt`. */
  ghost predicate Held(versions: seq<Version>, x: Reading) {
    && x.index < |versions|
    && versions[x.index].user == x.user
    && versions[x.index].from <= x.readAt
    && (x.index + 1 < |versions| ==> x.readAt <= versions[x.index + 1].from)
  }

  // ---------------------------------------------------------------- invariant

  /** The longest time from reading the table to storing or returning, and from reading Redis to returning. */
  datatype Bounds = Bounds(gap: nat, wait: nat)

  ghost predicate InOrder(s: System) {
    forall i :: 0 <= i < |s.versions| ==> s.versions[i].from <= s.now
  }

  /** The reading is right, and no older than an entry can get. */
  ghost predicate FlightFits(s: System, f: Flight, b: Bounds) {
    && Held(s.versions, f.reading) && f.reading.readAt <= f.at <= s.now
    && f.at <= f.reading.readAt + (if f.phase.FromRedis? then b.gap + TTL else 0)
  }

  /** What is cached was read from the table, and expires within its bound. */
  ghost predicate EntryFits(s: System, c: CacheEntry, b: Bounds) {
    Held(s.versions, c.reading) && c.reading.readAt <= s.now && c.expiresAt <= c.reading.readAt + b.gap + TTL
  }

  ghost predicate Inv(s: System, b: Bounds) {
    && InOrder(s)
    && (forall r :: r in s.inFlight ==> FlightFits(s, s.inFlight[r], b))
    && (s.cache.Some? ==> EntryFits(s, s.cache.value, b))
  }

  /** No request takes longer than its bound. */
  ghost predicate Prompt(s: System, e: Event, b: Bounds)
    requires Enabled(s, e)
  {
    e.Store? || e.Finish? ==> InTime(s, s.inFlight[e.r], b)
  }

  predicate InTime(s: System, f: Flight, b: Bounds) {
    s.now <= f.at + (if f.phase.FromRedis? then b.wait else b.gap)
  }

  lemma StepKeepsInv(s: System, e: Event, b: Bounds)
    requires Inv(s, b) && Enabled(s, e) && Prompt(s, e, b)
    ensures Inv(Next(s, e), b)
  {
    var s' := Next(s, e);
    assert e.Write? ==> forall x :: Held(s.versions, x) && x.readAt <= s.now ==> Held(s'.versions, x);
    forall r | r in s'.inFlight
      ensures FlightFits(s', s'.inFlight[r], b)
    {
      assert r in s.inFlight ==> FlightFits(s, s.inFlight[r], b);
    }
  }

  /** Every event of the run is possible and prompt when it happens. */
  ghost predicate Possible(s: System, events: seq<Event>, b: Bounds)
    decreases |events|
  {
    events == [] ||
    (Enabled(s, events[0]) && Prompt(s, events[0], b) && Possible(Next(s, events[0]), events[1..], b))
  }

  ghost function After(s: System, events: seq<Event>, b: Bounds): System
    requires Possible(s, events, b)
    decreases |events|
  {
    if events == [] then s else After(Next(s, events[0]), events[1..], b)
  }

  /** The cold start: a table, an empty cache, nobody waiting. */
  ghost predicate Cold(s: System) {
    InOrder(s) && s.cache.None? && s.inFlight == map[]
  }

  lemma {:induction false} RunKeepsInv(s: System, events: seq<Event>, b: Bounds)
    requires Inv(s, b) && Possible(s, events, b)
    ensures Inv(After(s, events, b), b)
    decreases |events|
  {
    if events != [] {
      StepKeepsInv(s, events[0], b);
      RunKeepsInv(Next(s, events[0]), events[1..], b);
    }
  }

  // ---------------------------------------------------------------- bounded staleness

  /**
  Over every interleaving: a value returned at time `t` was in the table at some time no earlier
  than `t` minus the time to live, the longest gap from fetch to store, and the longest wait
  from Redis to the return.
  */
  lemma BoundedStaleness(s: System, events: seq<Event>, e: Event, b: Bounds)
    requires Cold(s) && Possible(s, events, b)
    requires var s' := After(s, events, b); Enabled(s', e) && Prompt(s', e, b) && Answer(s', e).Some?
    ensures var s' := After(s, events, b);
            var x := Answer(s', e).value;
            Held(s'.versions, x) && s'.now - TTL - b.gap - b.wait <= x.readAt <= s'.now
  {
    RunKeepsInv(s, events, b);
    var s' := After(s, events, b);
    assert FlightFits(s', s'.inFlight[e.r], b);
  }

  /** So a token that is accepted belonged to an active account with that session version within the bound. */
  lemma AcceptedWasCurrent(s: System, events: seq<Event>, e: Event, b: Bounds, tokenVersion: int)
    requires Cold(s) && Possible(s, events, b)
    requires var s' := After(s, events, b); Enabled(s', e) && Prompt(s', e, b) && Answer(s', e).Some?
    requires Accepts(Answer(After(s, events, b), e).value.user, tokenVersion)
    ensures var s' := After(s, events, b);
            exists x: Reading ::
              && x.user.Some? && x.user.value.status == "Active" && x.user.value.sessionVersion == tokenVersion
              && s'.now - TTL - b.gap - b.wait <= x.readAt <= s'.now
              && Held(s'.versions, x)
  {
    BoundedStaleness(s, events, e, b);
  }

  ghost predicate LastedTo(versions: seq<Version>, i: nat, from: int) {
    i + 1 < |versions| ==> from <= versions[i + 1].from
  }

  /** What the table held at any time since `from` is this user, or no user. */
  ghost predicate SettledSince(versions: seq<Version>, from: int, user: Option<User>) {
    forall i :: 0 <= i < |versions| && LastedTo(versions, i, from) ==> versions[i].user == user
  }

  /**
  And where the table has held one thing for that long, the decision is the one on what it holds:
  a token is accepted if and only if it is of that session version and the account is active.
  */
  lemma SettledDecides(s: System, events: seq<Event>, e: Event, b: Bounds, user: Option<User>, tokenVersion: int)
    requires Cold(s) && Possible(s, events, b)
    requires var s' := After(s, events, b); Enabled(s', e) && Prompt(s', e, b) && Answer(s', e).Some?
    requires var s' := After(s, events, b); SettledSince(s'.versions, s'.now - TTL - b.gap - b.wait, user)
    ensures Accepts(Answer(After(s, events, b), e).value.user, tokenVersion) <==> user == Some(User("Active", tokenVersion))
  {
    BoundedStaleness(s, events, e, b);
    var s' := After(s, events, b);
    var x := Answer(s', e).value;
    assert s'.versions[x.index].user == user;
    assert Accepts(user, tokenVersion) ==> user.value == User("Active", tokenVersion);
  }

  /** Nothing but time, the table and other requests' reads: the entry is not touched. */
  ghost predicate Untouched(events: seq<Event>) {
    forall i :: 0 <= i < |events| ==> !events[i].Evict? && !events[i].Invalidate? && !events[i].Store?
  }

  lemma {:induction false} EntryStays(s: System, events: seq<Event>, b: Bounds)
    requires Possible(s, events, b) && Untouched(events)
    ensures After(s, events, b).cache == s.cache
    decreases |events|
  {
    if events != [] {
      EntryStays(Next(s, events[0]), events[1..], b);
    }
  }

  /** A stored value is what the next requests find in Redis, exactly for its time to live. */
  lemma CachedForItsTime(s: System, r: RequestId, events: seq<Event>, b: Bounds, q: RequestId)
    requires Enabled(s, Store(r)) && Possible(Next(s, Store(r)), events, b) && Untouched(events)
    requires var s' := After(Next(s, Store(r)), events, b); s'.available && q !in s'.inFlight
    ensures var s' := After(Next(s, Store(r)), events, b);
            && (Enabled(s', Get(q)) <==> s'.now < s.now + 300)
            && (Enabled(s', Get(q)) ==> Answer(Next(s', Get(q)), Finish(q)) == Some(s.inFlight[r].reading))
  {
    EntryStays(Next(s, Store(r)), events, b);
  }

  // ---------------------------------------------------------------- freshness after an invalidation

  /** Everything that can still be served was read when version `n` was there already. */
  ghost predicate FreshSince(s: System, n: nat) {
    && n < |s.versions|
    && (forall r :: r in s.inFlight ==> n <= s.inFlight[r].reading.index)
    && (Live(s) ==> n <= s.cache.value.reading.index)
  }

  lemma StepKeepsFresh(s: System, e: Event, n: nat)
    requires FreshSince(s, n) && Enabled(s, e)
    ensures FreshSince(Next(s, e), n)
  {
  }

  /** In every run from here, every value returned was read when version `n` was there already. */
  ghost predicate AllAnswersFresh(s: System, events: seq<Event>, b: Bounds, n: nat)
    requires Possible(s, events, b)
    decreases |events|
  {
    events != [] ==>
      var e := events[0];
      && (Answer(s, e).Some? ==> n <= Answer(s, e).value.index)
      && AllAnswersFresh(Next(s, e), events[1..], b, n)
  }

  lemma {:induction false} FreshRun(s: System, events: seq<Event>, b: Bounds, n: nat)
    requires FreshSince(s, n) && Possible(s, events, b)
    ensures AllAnswersFresh(s, events, b, n)
    decreases |events|
  {
    if events != [] {
      StepKeepsFresh(s, events[0], n);
      FreshRun(Next(s, events[0]), events[1..], b, n);
    }
  }

  /**
  What an invalidation leaves behind: a request that read an earlier version and has not
  returned, or, when Redis is out of reach, a live entry with one.
  */
  predicate LeavesStale(s: System)
    requires s.versions != []
  {
    var last := |s.versions| - 1;
    || (exists r :: r in s.inFlight && s.inFlight[r].reading.index < last)
    || (!s.available && Live(s) && s.cache.value.reading.index < last)
  }

  /** In some run from here a value is returned that was read before version `n` was there. */
  ghost predicate SomeRunServesStale(s: System, b: Bounds, n: nat) {
    exists events :: Possible(s, events, b) && !AllAnswersFresh(s, events, b, n)
  }

  lemma FlightServedAtOnce(s: System, b: Bounds, r: RequestId, n: nat)
    requires r in s.inFlight && InTime(s, s.inFlight[r], b) && s.inFlight[r].reading.index < n
    ensures SomeRunServesStale(s, b, n)
  {
    var events := [Finish(r)];
    assert Possible(Next(s, events[0]), events[1..], b);
    assert Possible(s, events, b);
    assert !AllAnswersFresh(s, events, b, n);
  }

  lemma EntryServedAtOnce(s: System, b: Bounds, r: RequestId, n: nat)
    requires r !in s.inFlight && Live(s) && s.cache.value.reading.index < n
    ensures SomeRunServesStale(s, b, n)
  {
    var s1 := Next(s, Connectivity(true));
    var s2 := Next(s1, Get(r));
    FlightServedAtOnce(s2, b, r, n);
    var rest :| Possible(s2, rest, b) && !AllAnswersFresh(s2, rest, b, n);
    Prepend(s1, Get(r), rest, b, n);
    Prepend(s, Connectivity(true), [Get(r)] + rest, b, n);
  }

  /**
  After an invalidation every value returned was read when the version that is the last at that
  moment was there already, in every run, exactly when the invalidation leaves nothing stale.
  */
  lemma FreshAfterInvalidationIff(s: System, b: Bounds)
    requires s.versions != [] && forall r :: r in s.inFlight ==> InTime(s, s.inFlight[r], b)
    ensures SomeRunServesStale(Next(s, Invalidate), b, |s.versions| - 1) <==> LeavesStale(s)
  {
    var s', n := Next(s, Invalidate), |s.versions| - 1;
    if LeavesStale(s) {
      if r :| r in s.inFlight && s.inFlight[r].reading.index < n {
        FlightServedAtOnce(s', b, r, n);
      } else {
        var r := FreshNumber(s'.inFlight.Keys);
        assert r !in s'.inFlight.Keys;
        EntryServedAtOnce(s', b, r, n);
      }
    } else {
      forall events | Possible(s', events, b)
        ensures AllAnswersFresh(s', events, b, n)
      {
        FreshRun(s', events, b, n);
      }
    }
  }

  lemma Prepend(s: System, e: Event, rest: seq<Event>, b: Bounds, n: nat)
    requires Enabled(s, e) && Prompt(s, e, b) && Possible(Next(s, e), rest, b)
    ensures Possible(s, [e] + rest, b) && After(s, [e] + rest, b) == After(Next(s, e), rest, b)
    ensures !AllAnswersFresh(Next(s, e), rest, b, n) ==> !AllAnswersFresh(s, [e] + rest, b, n)
  {
    assert ([e] + rest)[1..] == rest;
  }

  const ACTIVE := User("Active", 1)

  /**
  The overtaken fetch, concretely and within one second: an account is suspended and its cache
  entries invalidated while a request is between fetch and store; from then on it is served as
  active for the whole time to live.
  */
  lemma OvertakenFetch(suspended: User) returns (events: seq<Event>)
    ensures var s := System(0, [Version(0, Some(ACTIVE))], None, map[], true);
            && events == [Fetch(0), Write(Some(suspended)), Invalidate, Store(0), Finish(0), Tick(299), Get(1)]
            && Possible(s, events, Bounds(0, 0))
            && var s' := After(s, events, Bounds(0, 0));
            && s'.versions == [Version(0, Some(ACTIVE)), Version(0, Some(suspended))]
            && Enabled(s', Finish(1)) && Answer(s', Finish(1)) == Some(Reading(Some(ACTIVE), 0, 0))
  {
    var b := Bounds(0, 0);
    var s0 := System(0, [Version(0, Some(ACTIVE))], None, map[], true);
    var s1 := s0.(inFlight := map[0 := Flight(Reading(Some(ACTIVE), 0, 0), 0, FromTable)]);
    var s2 := s1.(versions := [Version(0, Some(ACTIVE)), Version(0, Some(suspended))]);
    assert Next(s0, Fetch(0)) == s1 && Next(s1, Write(Some(suspended))) == s2;
    events := StoredAfterInvalidation(s2);
    Prepend(s1, Write(Some(suspended)), events, b, 0);
    events := [Write(Some(suspended))] + events;
    Prepend(s0, Fetch(0), events, b, 0);
    events := [Fetch(0)] + events;
  }

  lemma StoredAfterInvalidation(s: System) returns (events: seq<Event>)
    requires s.now == 0 && s.available && s.cache.None?
    requires s.inFlight == map[0 := Flight(Reading(Some(ACTIVE), 0, 0), 0, FromTable)]
    ensures events == [Invalidate, Store(0), Finish(0), Tick(299), Get(1)] && Possible(s, events, Bounds(0, 0))
    ensures var s' := After(s, events, Bounds(0, 0));
            s'.versions == s.versions && Enabled(s', Finish(1)) && Answer(s', Finish(1)) == Some(Reading(Some(ACTIVE), 0, 0))
  {
    var b := Bounds(0, 0);
    var x := Reading(Some(ACTIVE), 0, 0);
    var s1 := s.(cache := Some(CacheEntry(x, 300)), inFlight := map[0 := Flight(x, 0, Stored)]);
    var s2 := s1.(inFlight := map[]);
    var s3 := s2.(now := 299);
    assert Next(s, Invalidate) == s && Next(s, Store(0)) == s1 && Next(s1, Finish(0)) == s2 && Next(s2, Tick(299)) == s3;
    Prepend(s3, Get(1), [], b, 0);
    events := [Get(1)] + [];
    Prepend(s2, Tick(299), events, b, 0);
    events := [Tick(299)] + events;
    Prepend(s1, Finish(0), events, b, 0);
    events := [Finish(0)] + events;
    Prepend(s, Store(0), events, b, 0);
    events := [Store(0)] + events;
    Prepend(s, Invalidate, events, b, 0);
    events := [Invalidate] + events;
  }
}
