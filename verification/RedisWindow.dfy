/** The Redis form of the same check: a script over one key's sorted set, and the decision taken on its answer. */
module RedisWindow {
  /** A member `now:random` of the sorted set; its score is `at`. */
  datatype Member = Member(at: int, random: nat)

  function Live(zset: set<Member>, now: int, window: int): (r: set<Member>)
    ensures r <= zset
  {
    set m | m in zset && m.at > now - window
  }

  /** The set after the script: expired members go, and the request is added while there is room. */
  function AfterScript(zset: set<Member>, now: int, window: int, limit: int, random: nat): set<Member> {
    var live := Live(zset, now, window);
    if |live| < limit then live + {Member(now, random)} else live
  }

  class SortedSet {
    var zset: set<Member>

    constructor ()
      ensures zset == {}
    {
      zset := {};
    }

    /** `checkRateLimitRedis`: the script, then `allowed: count <= limit`. */
    method Check(now: int, window: int, limit: int, random: nat) returns (count: int, oldestTs: int, allowed: bool)
      modifies this
      ensures zset == AfterScript(old(zset), now, window, limit, random)
      ensures var live := Live(old(zset), now, window);
              && count == |live| + (if |live| < limit then 1 else 0)
              && (allowed <==> |live| <= limit)
              && (if live == {} then oldestTs == 0
                  else (exists m :: m in live && m.at == oldestTs) && forall m :: m in live ==> oldestTs <= m.at)
    {
      zset := Live(zset, now, window);
      count := |zset|;
      oldestTs := OldestScore();
      if count < limit {
        zset := zset + {Member(now, random)};
        count := count + 1;
      }
      allowed := count <= limit;
    }

    /** `ZRANGE key 0 0 WITHSCORES`, or 0 */
    method OldestScore() returns (oldest: int)
      ensures if zset == {} then oldest == 0
              else (exists m :: m in zset && m.at == oldest) && forall m :: m in zset ==> oldest <= m.at
    {
      if zset == {} {
        return 0;
      }
      var first :| first in zset;
      oldest := first.at;
      var rest := zset - {first};
      while rest != {}
        invariant rest <= zset
        invariant exists m :: m in zset && m.at == oldest
        invariant forall m :: m in zset - rest ==> oldest <= m.at
        decreases |rest|
      {
        var m :| m in rest;
        rest := rest - {m};
        if m.at < oldest {
          oldest := m.at;
        }
      }
    }
  }

  /** A call of the script, or the expiry of the whole key. */
  datatype Event = Call(now: int, random: nat) | Expire

  function After(zset: set<Member>, e: Event, window: int, limit: int): set<Member> {
    match e
    case Call(now, random) => AfterScript(zset, now, window, limit, random)
    case Expire => {}
  }

  function Allowed(zset: set<Member>, e: Event, window: int, limit: int): bool {
    e.Call? ==> |Live(zset, e.now, window)| <= limit
  }

  /** Whether every call of a run is allowed. */
  predicate AllAllowed(zset: set<Member>, events: seq<Event>, window: int, limit: int)
    decreases |events|
  {
    events == [] ||
    (Allowed(zset, events[0], window, limit) && AllAllowed(After(zset, events[0], window, limit), events[1..], window, limit))
  }

  function Final(zset: set<Member>, events: seq<Event>, window: int, limit: int): set<Member>
    decreases |events|
  {
    if events == [] then zset else Final(After(zset, events[0], window, limit), events[1..], window, limit)
  }

  lemma LiveSize(zset: set<Member>, now: int, window: int)
    ensures |Live(zset, now, window)| <= |zset|
  {
    assert zset == Live(zset, now, window) + (zset - Live(zset, now, window));
  }

  /**
  With one limit for the key the sorted set never outgrows it. Hence the count that the script
  returns never exceeds the limit either, and the decision `count <= limit` allows every
  request of every run, at whatever times and in whatever number.
  */
  lemma {:induction false} OneLimitAllowsAll(zset: set<Member>, events: seq<Event>, window: int, limit: nat)
    requires |zset| <= limit
    ensures |Final(zset, events, window, limit)| <= limit
    ensures AllAllowed(zset, events, window, limit)
    decreases |events|
  {
    if events != [] {
      if events[0].Call? {
        LiveSize(zset, events[0].now, window);
      }
      OneLimitAllowsAll(After(zset, events[0], window, limit), events[1..], window, limit);
    }
  }

  /** Calls at times that never go back, the last of them at `last`, and none with the member's own name. */
  ghost predicate CallsUpTo(events: seq<Event>, m: Member, last: int) {
    && events != []
    && (forall i :: 0 <= i < |events| ==> events[i].Call? && m != Member(events[i].now, events[i].random))
    && (forall i, j :: 0 <= i < j < |events| ==> events[i].now <= events[j].now)
    && events[|events| - 1].now == last
  }

  /** A request that was let in is counted in every later call until its window is over, and in none after that. */
  lemma {:induction false} CountedUntilExpiry(zset: set<Member>, events: seq<Event>, window: int, limit: int, m: Member, last: int)
    requires m in zset && CallsUpTo(events, m, last)
    ensures m in Final(zset, events, window, limit) <==> last < m.at + window
    decreases |events|
  {
    var zset' := After(zset, events[0], window, limit);
    assert m in zset' <==> events[0].now < m.at + window;
    if |events| == 1 {
      assert events[1..] == [];
    } else if m in zset' {
      CountedUntilExpiry(zset', events[1..], window, limit, m, last);
    } else {
      StaysOut(zset', events[1..], window, limit, m);
      assert events[0].now <= events[|events| - 1].now;
    }
  }

  lemma {:induction false} StaysOut(zset: set<Member>, events: seq<Event>, window: int, limit: int, m: Member)
    requires m !in zset
    requires forall i :: 0 <= i < |events| ==> events[i].Call? && m != Member(events[i].now, events[i].random)
    ensures m !in Final(zset, events, window, limit)
    decreases |events|
  {
    if events != [] {
      StaysOut(After(zset, events[0], window, limit), events[1..], window, limit, m);
    }
  }

  /** So it is no limiter: three requests at one moment all pass a limit of one. */
  lemma AllowsBeyondLimit()
    ensures AllAllowed({}, [Call(0, 1), Call(0, 2), Call(0, 3)], 1000, 1)
  {
    OneLimitAllowsAll({}, [Call(0, 1), Call(0, 2), Call(0, 3)], 1000, 1);
  }

  /** Only a call with a smaller limit than an earlier call on the same key can be turned away. */
  lemma RejectsUnderSmallerLimit()
    ensures var z := Final({}, [Call(0, 1), Call(0, 2)], 1000, 2);
            !Allowed(z, Call(1, 3), 1000, 1)
  {
    var a, b := Member(0, 1), Member(0, 2);
    assert Live({}, 0, 1000) == {};
    assert After({}, Call(0, 1), 1000, 2) == {a};
    assert Live({a}, 0, 1000) == {a};
    assert After({a}, Call(0, 2), 1000, 2) == {a, b};
    assert [Call(0, 1), Call(0, 2)][1..] == [Call(0, 2)];
    assert [Call(0, 2)][1..] == [];
    assert Final({a}, [Call(0, 2)], 1000, 2) == Final({a, b}, [], 1000, 2);
    assert Live({a, b}, 1, 1000) == {a, b};
  }
}
