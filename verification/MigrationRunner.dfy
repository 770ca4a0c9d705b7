/** The migration runner of src/db/migrationRunner.ts. */
module MigrationRunner {
  import opened Common

  datatype Migration = Migration(version: string, name: string, hasDown: bool)

  /** Versions are compared by `localeCompare`; `order` numbers them the same way. */
  type Order = string -> int

  /** The migrations not yet applied, in the given order. */
  function NotApplied(available: seq<Migration>, applied: set<string>): seq<Migration> {
    if available == [] then []
    else (if available[0].version in applied then [] else [available[0]]) + NotApplied(available[1..], applied)
  }

  /** Before the first one that is not smaller: the sort is stable. */
  function Insert(order: Order, m: Migration, sorted: seq<Migration>): seq<Migration> {
    if sorted == [] || order(m.version) <= order(sorted[0].version) then [m] + sorted
    else [sorted[0]] + Insert(order, m, sorted[1..])
  }

  function Sort(order: Order, ms: seq<Migration>): seq<Migration> {
    if ms == [] then [] else Insert(order, ms[0], Sort(order, ms[1..]))
  }

  function Pending(order: Order, available: seq<Migration>, applied: set<string>): seq<Migration> {
    Sort(order, NotApplied(available, applied))
  }

  function Versions(ms: seq<Migration>): (vs: seq<string>)
    ensures |vs| == |ms|
  {
    if ms == [] then [] else [ms[0].version] + Versions(ms[1..])
  }

  function VersionSet(ms: seq<Migration>): set<string> {
    if ms == [] then {} else {ms[0].version} + VersionSet(ms[1..])
  }

  /**
  How many migrations of the list commit: up to the first whose `up` fails or whose version is
  already in the table, which has it as primary key.
  */
  function Commits(ms: seq<Migration>, applied: set<string>, upSucceeds: Migration -> bool): (k: nat)
    ensures k <= |ms|
  {
    if ms == [] || !upSucceeds(ms[0]) || ms[0].version in applied then 0
    else 1 + Commits(ms[1..], applied + {ms[0].version}, upSucceeds)
  }

  datatype RollbackResult = RolledBack | UnknownVersion | NoDown | DownFailed

  /** `effects` is what the committed `up` and `down` functions did to the schema, in order. */
  datatype Effect = Up(version: string) | Down(version: string)

  function Ups(vs: seq<string>): (es: seq<Effect>)
    ensures |es| == |vs|
  {
    if vs == [] then [] else [Up(vs[0])] + Ups(vs[1..])
  }

  /** The versions in the table, and what was done to the schema. */
  datatype Progress = Progress(applied: set<string>, effects: seq<Effect>)

  function AfterRun(order: Order, available: seq<Migration>, p: Progress, upSucceeds: Migration -> bool): Progress {
    var pending := Pending(order, available, p.applied);
    var done := pending[..Commits(pending, p.applied, upSucceeds)];
    Progress(p.applied + VersionSet(done), p.effects + Ups(Versions(done)))
  }

  /** The first migration of that version. */
  function Find(available: seq<Migration>, version: string): (m: Option<Migration>)
    ensures m.None? ==> forall i :: 0 <= i < |available| ==> available[i].version != version
    ensures m.Some? ==> m.value.version == version && m.value in available
    ensures m.Some? ==> exists i :: IsFirst(available, version, i) && available[i] == m.value
  {
    if available == [] then None
    else if available[0].version == version then
      assert IsFirst(available, version, 0);
      Some(available[0])
    else
      var m := Find(available[1..], version);
      assert m.Some? ==> forall i :: IsFirst(available[1..], version, i) ==> IsFirst(available, version, i + 1);
      m
  }

  ghost predicate IsFirst(available: seq<Migration>, version: string, i: int) {
    0 <= i < |available| && available[i].version == version && forall j :: 0 <= j < i ==> available[j].version != version
  }

  predicate CanRollBack(available: seq<Migration>, version: string, downSucceeds: bool) {
    var m := Find(available, version);
    m.Some? && m.value.hasDown && downSucceeds
  }

  function AfterRollback(available: seq<Migration>, p: Progress, version: string, downSucceeds: bool): Progress {
    if CanRollBack(available, version, downSucceeds)
    then Progress(p.applied - {version}, p.effects + [Down(version)])
    else p
  }

  class Runner {
    const order: Order
    var applied: set<string>
    var effects: seq<Effect>

    ghost function State(): Progress
      reads this
    {
      Progress(applied, effects)
    }

    constructor (order: Order, applied: set<string>)
      ensures this.order == order && this.applied == applied && effects == []
    {
      this.order, this.applied, effects := order, applied, [];
    }

    /** The loop of `run`: one transaction a migration, up to the first that fails. */
    method Execute(pending: seq<Migration>, upSucceeds: Migration -> bool) returns (ok: bool)
      modifies this
      ensures var done := pending[..Commits(pending, old(applied), upSucceeds)];
              && applied == old(applied) + VersionSet(done)
              && effects == old(effects) + Ups(Versions(done))
              && (ok <==> done == pending)
    {
      ghost var k := Commits(pending, applied, upSucceeds);
      for n := 0 to |pending|
        invariant n <= k && k == n + Commits(pending[n..], applied, upSucceeds)
        invariant Progress(applied, effects) == Committed(old(State()), pending, n)
      {
        var m := pending[n];
        CommittedMore(old(State()), pending, n);
        CommitsMore(pending, n, applied, upSucceeds);
        // the effect and the record, or neither
        if !upSucceeds(m) || m.version in applied {
          return false;
        }
        effects := effects + [Up(m.version)];
        applied := applied + {m.version};
      }
      return true;
    }

    /** `run`; `false` is the exception of the migration that failed. */
    method Run(available: seq<Migration>, upSucceeds: Migration -> bool) returns (ok: bool)
      modifies this
      ensures State() == AfterRun(order, available, old(State()), upSucceeds)
      ensures var pending := Pending(order, available, old(applied));
              ok <==> Commits(pending, old(applied), upSucceeds) == |pending|
    {
      var pending := Pending(order, available, applied);
      ok := Execute(pending, upSucceeds);
    }

    /**
    `rollback`; the effect of `down` and the removal of the record commit together. Whether
    the version is recorded is not asked.
    */
    method Rollback(version: string, available: seq<Migration>, downSucceeds: bool) returns (r: RollbackResult)
      modifies this
      ensures var m := Find(available, version);
              && (r.UnknownVersion? <==> m.None?)
              && (r.NoDown? <==> m.Some? && !m.value.hasDown)
              && (r.DownFailed? <==> m.Some? && m.value.hasDown && !downSucceeds)
              && (r.RolledBack? <==> m.Some? && m.value.hasDown && downSucceeds)
      ensures State() == AfterRollback(available, old(State()), version, downSucceeds)
    {
      var m := Find(available, version);
      if m.None? {
        return UnknownVersion;
      }
      if !m.value.hasDown {
        return NoDown;
      }
      if !downSucceeds {
        return DownFailed;
      }
      effects := effects + [Down(version)];
      applied := applied - {version};
      return RolledBack;
    }
  }

  /** What the first `n` of the list have come to. */
  ghost function Committed(p: Progress, ms: seq<Migration>, n: nat): Progress
    requires n <= |ms|
  {
    Progress(p.applied + VersionSet(ms[..n]), p.effects + Ups(Versions(ms[..n])))
  }

  lemma CommittedMore(p: Progress, ms: seq<Migration>, n: nat)
    requires n < |ms|
    ensures var v := ms[n].version;
            var now := Committed(p, ms, n);
            Committed(p, ms, n + 1) == Progress(now.applied + {v}, now.effects + [Up(v)])
  {
    OneMore(ms, n);
  }

  lemma CommitsMore(ms: seq<Migration>, n: nat, applied: set<string>, upSucceeds: Migration -> bool)
    requires n < |ms|
    ensures Commits(ms[n..], applied, upSucceeds)
            == if upSucceeds(ms[n]) && ms[n].version !in applied
               then 1 + Commits(ms[n + 1..], applied + {ms[n].version}, upSucceeds) else 0
  {
    assert ms[n..][1..] == ms[n + 1..];
  }

  lemma OneMore(ms: seq<Migration>, n: nat)
    requires n < |ms|
    ensures ms[n..] != [] && ms[n..][0] == ms[n] && ms[n..][1..] == ms[n + 1..]
    ensures VersionSet(ms[..n + 1]) == VersionSet(ms[..n]) + {ms[n].version}
    ensures Ups(Versions(ms[..n + 1])) == Ups(Versions(ms[..n])) + [Up(ms[n].version)]
  {
    assert ms[..n + 1] == ms[..n] + [ms[n]];
    VersionsAppend(ms[..n], ms[n]);
    VersionSetAppend(ms[..n], ms[n]);
  }

  lemma {:induction false} VersionSetAppend(ms: seq<Migration>, m: Migration)
    ensures VersionSet(ms + [m]) == VersionSet(ms) + {m.version}
  {
    if ms != [] {
      VersionSetAppend(ms[1..], m);
      assert (ms + [m])[1..] == ms[1..] + [m];
    } else {
      assert (ms + [m])[1..] == [];
    }
  }

  lemma {:induction false} VersionsAppend(ms: seq<Migration>, m: Migration)
    ensures Versions(ms + [m]) == Versions(ms) + [m.version]
    ensures Ups(Versions(ms + [m])) == Ups(Versions(ms)) + [Up(m.version)]
  {
    if ms != [] {
      VersionsAppend(ms[1..], m);
      assert (ms + [m])[1..] == ms[1..] + [m];
      assert (Versions(ms) + [m.version])[1..] == Versions(ms[1..]) + [m.version];
    } else {
      assert (ms + [m])[1..] == [];
      assert Versions(ms + [m]) == [m.version];
      assert [m.version][1..] == [];
    }
  }

  // ---------------------------------------------------------------- the pending list

  /** No two migrations have the same version. */
  ghost predicate Distinct(ms: seq<Migration>) {
    ms == [] || (ms[0].version !in VersionSet(ms[1..]) && Distinct(ms[1..]))
  }

  ghost predicate Ascending(order: Order, ms: seq<Migration>) {
    ms == [] ||
    ((forall v :: v in VersionSet(ms[1..]) ==> order(ms[0].version) <= order(v)) && Ascending(order, ms[1..]))
  }

  lemma {:induction false} NotAppliedVersions(ms: seq<Migration>, applied: set<string>)
    ensures VersionSet(NotApplied(ms, applied)) == VersionSet(ms) - applied
    ensures Distinct(ms) ==> Distinct(NotApplied(ms, applied))
  {
    if ms != [] {
      var rest := NotApplied(ms[1..], applied);
      NotAppliedVersions(ms[1..], applied);
      assert ([ms[0]] + rest)[1..] == rest;
      assert [] + rest == rest;
    }
  }

  lemma {:induction false} InsertVersions(order: Order, m: Migration, ms: seq<Migration>)
    ensures VersionSet(Insert(order, m, ms)) == {m.version} + VersionSet(ms)
    ensures Distinct(ms) && m.version !in VersionSet(ms) ==> Distinct(Insert(order, m, ms))
    ensures Ascending(order, ms) ==> Ascending(order, Insert(order, m, ms))
  {
    if ms == [] || order(m.version) <= order(ms[0].version) {
      assert ([m] + ms)[1..] == ms;
    } else {
      var rest := Insert(order, m, ms[1..]);
      InsertVersions(order, m, ms[1..]);
      assert ([ms[0]] + rest)[1..] == rest;
    }
  }

  lemma {:induction false} SortVersions(order: Order, ms: seq<Migration>)
    ensures VersionSet(Sort(order, ms)) == VersionSet(ms)
    ensures Distinct(ms) ==> Distinct(Sort(order, ms))
    ensures Ascending(order, Sort(order, ms))
  {
    if ms != [] {
      SortVersions(order, ms[1..]);
      InsertVersions(order, ms[0], Sort(order, ms[1..]));
    }
  }

  /** The pending list: the versions that are missing from the table, once each, in ascending order. */
  lemma PendingList(order: Order, available: seq<Migration>, applied: set<string>)
    ensures var pending := Pending(order, available, applied);
            && VersionSet(pending) == VersionSet(available) - applied
            && Ascending(order, pending)
            && (Distinct(available) ==> Distinct(pending))
  {
    NotAppliedVersions(available, applied);
    SortVersions(order, NotApplied(available, applied));
  }

  /** Those of one rank, in their order. */
  ghost function Ranked(order: Order, ms: seq<Migration>, rank: int): seq<Migration> {
    if ms == [] then []
    else Alone(order, ms[0], rank) + Ranked(order, ms[1..], rank)
  }

  function Alone(order: Order, m: Migration, rank: int): seq<Migration> {
    if order(m.version) == rank then [m] else []
  }

  lemma RankedFirst(order: Order, m: Migration, ms: seq<Migration>, rank: int)
    ensures Ranked(order, [m] + ms, rank) == Alone(order, m, rank) + Ranked(order, ms, rank)
  {
    assert ([m] + ms)[1..] == ms;
  }

  lemma {:induction false} InsertIsStable(order: Order, m: Migration, ms: seq<Migration>, rank: int)
    ensures Ranked(order, Insert(order, m, ms), rank) == Alone(order, m, rank) + Ranked(order, ms, rank)
  {
    RankedFirst(order, m, ms, rank);
    if ms != [] && order(m.version) > order(ms[0].version) {
      var first, rest := ms[0], ms[1..];
      InsertIsStable(order, m, rest, rank);
      RankedFirst(order, first, Insert(order, m, rest), rank);
      RankedFirst(order, first, rest, rank);
      assert [first] + rest == ms;
      var moved, kept, left := Alone(order, m, rank), Alone(order, first, rank), Ranked(order, rest, rank);
      assert moved == [] || kept == [];
      assert kept + (moved + left) == moved + (kept + left);
    }
  }

  /** The sort loses and doubles nothing, and keeps the order of migrations that compare equal. */
  lemma {:induction false} SortIsStable(order: Order, ms: seq<Migration>, rank: int)
    ensures Ranked(order, Sort(order, ms), rank) == Ranked(order, ms, rank)
  {
    if ms != [] {
      SortIsStable(order, ms[1..], rank);
      InsertIsStable(order, ms[0], Sort(order, ms[1..]), rank);
      RankedFirst(order, ms[0], ms[1..], rank);
    }
  }

  lemma {:induction false} FilterInsert(order: Order, m: Migration, ms: seq<Migration>, applied: set<string>)
    requires Ascending(order, ms)
    ensures NotApplied(Insert(order, m, ms), applied)
            == if m.version in applied then NotApplied(ms, applied) else Insert(order, m, NotApplied(ms, applied))
  {
    if ms == [] || order(m.version) <= order(ms[0].version) {
      assert ([m] + ms)[1..] == ms;
      assert [] + NotApplied(ms, applied) == NotApplied(ms, applied);
      InsertAtFront(order, m, ms, applied);
    } else {
      var rest := Insert(order, m, ms[1..]);
      FilterInsert(order, m, ms[1..], applied);
      assert ([ms[0]] + rest)[1..] == rest;
      var left := NotApplied(ms[1..], applied);
      assert [] + left == left;
      assert [] + NotApplied(rest, applied) == NotApplied(rest, applied);
      assert ([ms[0]] + left)[1..] == left;
    }
  }

  /** What may stand before a sorted list may stand before any part of it. */
  lemma InsertAtFront(order: Order, m: Migration, ms: seq<Migration>, applied: set<string>)
    requires Ascending(order, ms)
    requires ms == [] || order(m.version) <= order(ms[0].version)
    ensures Insert(order, m, NotApplied(ms, applied)) == [m] + NotApplied(ms, applied)
  {
    var left := NotApplied(ms, applied);
    NotAppliedVersions(ms, applied);
    if left != [] {
      assert left[0].version in VersionSet(ms);
    }
  }

  lemma {:induction false} FilterSort(order: Order, ms: seq<Migration>, applied: set<string>)
    ensures NotApplied(Sort(order, ms), applied) == Sort(order, NotApplied(ms, applied))
  {
    if ms != [] {
      var left := NotApplied(ms[1..], applied);
      FilterSort(order, ms[1..], applied);
      SortVersions(order, ms[1..]);
      FilterInsert(order, ms[0], Sort(order, ms[1..]), applied);
      assert ([ms[0]] + left)[1..] == left;
      assert [] + left == left;
    }
  }

  lemma {:induction false} FilterTwice(ms: seq<Migration>, a: set<string>, b: set<string>)
    ensures NotApplied(NotApplied(ms, a), b) == NotApplied(ms, a + b)
  {
    if ms != [] {
      var left := NotApplied(ms[1..], a);
      FilterTwice(ms[1..], a, b);
      assert ([ms[0]] + left)[1..] == left;
      assert [] + left == left;
    }
  }

  lemma {:induction false} FilterKeepsAll(ms: seq<Migration>, applied: set<string>)
    requires VersionSet(ms) !! applied
    ensures NotApplied(ms, applied) == ms
  {
    if ms != [] {
      FilterKeepsAll(ms[1..], applied);
      assert [ms[0]] + ms[1..] == ms;
    }
  }

  lemma {:induction false} FilterDropsFront(ms: seq<Migration>, k: nat, extra: set<string>)
    requires Distinct(ms) && k <= |ms| && VersionSet(ms) !! extra
    ensures NotApplied(ms, extra + VersionSet(ms[..k])) == ms[k..]
  {
    if k == 0 {
      assert ms[..0] == [];
      FilterKeepsAll(ms, extra + {});
      assert extra + {} == extra;
    } else {
      var v := ms[0].version;
      FilterDropsFront(ms[1..], k - 1, extra + {v});
      assert ms[..k][1..] == ms[1..][..k - 1];
      assert extra + VersionSet(ms[..k]) == extra + {v} + VersionSet(ms[1..][..k - 1]);
    }
  }

  /** After the first `k` pending migrations have been applied, the rest is pending, in the same order. */
  lemma PendingAfterPrefix(order: Order, available: seq<Migration>, applied: set<string>, k: nat)
    requires Distinct(available) && k <= |Pending(order, available, applied)|
    ensures var pending := Pending(order, available, applied);
            Pending(order, available, applied + VersionSet(pending[..k])) == pending[k..]
  {
    var pending := Pending(order, available, applied);
    PendingList(order, available, applied);
    var done := VersionSet(pending[..k]);
    FilterTwice(available, applied, done);
    FilterSort(order, NotApplied(available, applied), done);
    FilterDropsFront(pending, k, {});
    assert {} + done == done;
  }

  // ---------------------------------------------------------------- runs and retries

  lemma {:induction false} CommitsIsPrefix(ms: seq<Migration>, applied: set<string>, upSucceeds: Migration -> bool)
    requires Distinct(ms) && VersionSet(ms) !! applied
    ensures var k := Commits(ms, applied, upSucceeds);
            && (forall i :: 0 <= i < k ==> upSucceeds(ms[i]))
            && (k < |ms| ==> !upSucceeds(ms[k]))
  {
    if ms != [] && upSucceeds(ms[0]) {
      CommitsIsPrefix(ms[1..], applied + {ms[0].version}, upSucceeds);
    }
  }

  /** With unique versions a run commits the longest prefix of the pending list whose `up` functions succeed. */
  lemma RunCommitsLongestPrefix(order: Order, available: seq<Migration>, applied: set<string>, upSucceeds: Migration -> bool)
    requires Distinct(available)
    ensures var pending := Pending(order, available, applied);
            var k := Commits(pending, applied, upSucceeds);
            && (forall i :: 0 <= i < k ==> upSucceeds(pending[i]))
            && (k < |pending| ==> !upSucceeds(pending[k]))
  {
    PendingList(order, available, applied);
    CommitsIsPrefix(Pending(order, available, applied), applied, upSucceeds);
  }

  /** A series of runs, each with its own failures. */
  function AfterRuns(order: Order, available: seq<Migration>, p: Progress, attempts: seq<Migration -> bool>): Progress
    decreases |attempts|
  {
    if attempts == [] then p else AfterRuns(order, available, AfterRun(order, available, p, attempts[0]), attempts[1..])
  }

  lemma {:induction false} Concat(a: seq<Migration>, b: seq<Migration>)
    ensures VersionSet(a + b) == VersionSet(a) + VersionSet(b)
    ensures Ups(Versions(a + b)) == Ups(Versions(a)) + Ups(Versions(b))
  {
    if a != [] {
      Concat(a[1..], b);
      assert (a + b)[1..] == a[1..] + b;
    } else {
      assert a + b == b;
    }
  }

  /** The first `k` of the list, and nothing else, have been applied since the start. */
  function Front(start: set<string>, list: seq<Migration>, k: nat): Progress
    requires k <= |list|
  {
    Progress(start + VersionSet(list[..k]), Ups(Versions(list[..k])))
  }

  lemma OneMoreRun(order: Order, available: seq<Migration>, start: set<string>, k: nat, upSucceeds: Migration -> bool)
    returns (k': nat)
    requires Distinct(available) && k <= |Pending(order, available, start)|
    ensures var list := Pending(order, available, start);
            k <= k' <= |list| && AfterRun(order, available, Front(start, list, k), upSucceeds) == Front(start, list, k')
  {
    var list := Pending(order, available, start);
    PendingAfterPrefix(order, available, start, k);
    var j := Commits(list[k..], start + VersionSet(list[..k]), upSucceeds);
    k' := k + j;
    assert list[..k'] == list[..k] + list[k..][..j];
    Concat(list[..k], list[k..][..j]);
    assert start + VersionSet(list[..k]) + VersionSet(list[k..][..j]) == start + VersionSet(list[..k']);
  }

  lemma {:induction false} RunsFollow(
    order: Order, available: seq<Migration>, start: set<string>, k: nat, attempts: seq<Migration -> bool>) returns (k': nat)
    requires Distinct(available) && k <= |Pending(order, available, start)|
    ensures var list := Pending(order, available, start);
            k <= k' <= |list| && AfterRuns(order, available, Front(start, list, k), attempts) == Front(start, list, k')
    decreases |attempts|
  {
    k' := k;
    if attempts != [] {
      k' := OneMoreRun(order, available, start, k, attempts[0]);
      k' := RunsFollow(order, available, start, k', attempts[1..]);
    }
  }

  /**
  However often the runner is stopped by a failure and started again: what has been applied is
  a front part of the one pending list there was at the start, in its order, each version once.
  */
  lemma RetriesFollowOneList(order: Order, available: seq<Migration>, start: set<string>, attempts: seq<Migration -> bool>)
    returns (k: nat)
    requires Distinct(available)
    ensures var list := Pending(order, available, start);
            && k <= |list|
            && AfterRuns(order, available, Progress(start, []), attempts)
               == Progress(start + VersionSet(list[..k]), Ups(Versions(list[..k])))
            && Distinct(list) && VersionSet(list) !! start
  {
    var list := Pending(order, available, start);
    PendingList(order, available, start);
    assert list[..0] == [];
    assert Front(start, list, 0) == Progress(start, []);
    k := RunsFollow(order, available, start, 0, attempts);
  }

  /** After a run that succeeded there is nothing left to run. */
  lemma NothingAfterSuccess(order: Order, available: seq<Migration>, applied: set<string>)
    requires Distinct(available)
    ensures Pending(order, available, applied + VersionSet(Pending(order, available, applied))) == []
  {
    var pending := Pending(order, available, applied);
    PendingAfterPrefix(order, available, applied, |pending|);
    assert pending[..|pending|] == pending;
  }

  /** Rolling one version back when all are applied makes exactly that version pending again. */
  lemma {:induction false} RollbackThenRun(order: Order, available: seq<Migration>, applied: set<string>, i: nat)
    requires Distinct(available) && VersionSet(available) <= applied && i < |available|
    ensures Pending(order, available, applied - {available[i].version}) == [available[i]]
  {
    OnlyOneMissing(available, applied, i);
    assert [available[i]][1..] == [];
    assert Sort(order, []) == [];
    assert Insert(order, available[i], []) == [available[i]];
  }

  lemma {:induction false} VersionIn(ms: seq<Migration>, i: nat)
    requires i < |ms|
    ensures ms[i].version in VersionSet(ms)
  {
    if i > 0 {
      VersionIn(ms[1..], i - 1);
    }
  }

  lemma {:induction false} FilterDropsAll(ms: seq<Migration>, applied: set<string>)
    requires VersionSet(ms) <= applied
    ensures NotApplied(ms, applied) == []
  {
    if ms != [] {
      FilterDropsAll(ms[1..], applied);
    }
  }

  lemma {:induction false} OnlyOneMissing(ms: seq<Migration>, applied: set<string>, i: nat)
    requires Distinct(ms) && VersionSet(ms) <= applied && i < |ms|
    ensures NotApplied(ms, applied - {ms[i].version}) == [ms[i]]
  {
    if i == 0 {
      FilterDropsAll(ms[1..], applied - {ms[0].version});
    } else {
      VersionIn(ms[1..], i - 1);
      OnlyOneMissing(ms[1..], applied, i - 1);
    }
  }

  // ---------------------------------------------------------------- what rollbacks undo

  /** What became of a version last. */
  function LastEffect(effects: seq<Effect>, version: string): Option<Effect> {
    if effects == [] then None
    else if effects[|effects| - 1].version == version then Some(effects[|effects| - 1])
    else LastEffect(effects[..|effects| - 1], version)
  }

  /** The version's `up` is in force: it was at the start, or has been since, and no `down` came after it. */
  predicate InForce(start: set<string>, effects: seq<Effect>, version: string) {
    match LastEffect(effects, version)
    case None => version in start
    case Some(e) => e.Up?
  }

  ghost predicate TableIsRight(start: set<string>, p: Progress) {
    forall v :: v in p.applied <==> InForce(start, p.effects, v)
  }

  lemma OneMoreEffect(start: set<string>, effects: seq<Effect>, e: Effect, v: string)
    ensures InForce(start, effects + [e], v) <==> if e.version == v then e.Up? else InForce(start, effects, v)
  {
    assert (effects + [e])[..|effects|] == effects;
  }

  lemma {:induction false} UpsAreRight(start: set<string>, p: Progress, ms: seq<Migration>)
    requires TableIsRight(start, p)
    ensures TableIsRight(start, Progress(p.applied + VersionSet(ms), p.effects + Ups(Versions(ms))))
    decreases |ms|
  {
    if ms == [] {
      assert p.applied + {} == p.applied && p.effects + [] == p.effects;
    } else {
      var v := ms[0].version;
      var p' := Progress(p.applied + {v}, p.effects + [Up(v)]);
      forall u
        ensures u in p'.applied <==> InForce(start, p'.effects, u)
      {
        OneMoreEffect(start, p.effects, Up(v), u);
      }
      UpsAreRight(start, p', ms[1..]);
      assert p'.applied + VersionSet(ms[1..]) == p.applied + VersionSet(ms);
      assert p'.effects + Ups(Versions(ms[1..])) == p.effects + Ups(Versions(ms));
    }
  }

  datatype Operation = RunAll(upSucceeds: Migration -> bool) | RollBack(version: string, downSucceeds: bool)

  function AfterAll(order: Order, available: seq<Migration>, p: Progress, ops: seq<Operation>): Progress {
    if ops == [] then p
    else
      var before := AfterAll(order, available, p, ops[..|ops| - 1]);
      match ops[|ops| - 1]
      case RunAll(upSucceeds) => AfterRun(order, available, before, upSucceeds)
      case RollBack(version, downSucceeds) => AfterRollback(available, before, version, downSucceeds)
  }

  /** After any series of runs and rollbacks, with any failures, the table holds exactly the versions in force. */
  lemma {:induction false} TableHoldsWhatIsInForce(order: Order, available: seq<Migration>, start: set<string>, ops: seq<Operation>)
    ensures TableIsRight(start, AfterAll(order, available, Progress(start, []), ops))
    decreases |ops|
  {
    if ops != [] {
      TableHoldsWhatIsInForce(order, available, start, ops[..|ops| - 1]);
      var before := AfterAll(order, available, Progress(start, []), ops[..|ops| - 1]);
      match ops[|ops| - 1]
      case RunAll(upSucceeds) =>
        var pending := Pending(order, available, before.applied);
        UpsAreRight(start, before, pending[..Commits(pending, before.applied, upSucceeds)]);
      case RollBack(version, downSucceeds) =>
        forall v
          ensures InForce(start, before.effects + [Down(version)], v) <==> v != version && InForce(start, before.effects, v)
        {
          OneMoreEffect(start, before.effects, Down(version), v);
        }
    }
  }

  /**
  A rollback that succeeds runs `down`, and that undoes an `up` in force exactly when the
  version is recorded. When it is not, `down` runs all the same, on a schema without it, and
  the table stays as it is.
  */
  lemma RollbackUndoesIff(order: Order, available: seq<Migration>, start: set<string>, ops: seq<Operation>, version: string)
    requires CanRollBack(available, version, true)
    ensures var p := AfterAll(order, available, Progress(start, []), ops);
            var p' := AfterRollback(available, p, version, true);
            && p'.effects == p.effects + [Down(version)]
            && !InForce(start, p'.effects, version)
            && (InForce(start, p.effects, version) <==> version in p.applied)
            && (version !in p.applied <==> p'.applied == p.applied)
  {
    TableHoldsWhatIsInForce(order, available, start, ops);
    OneMoreEffect(start, AfterAll(order, available, Progress(start, []), ops).effects, Down(version), version);
  }
}
