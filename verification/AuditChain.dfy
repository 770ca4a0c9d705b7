/**
The tamper-evident audit chain of src/services/AuditChainService.ts: the record hash,
the end-to-end verifier and what its verdict means for the rows of the table.

SHA-256 is a parameter `sha` of every definition. The only thing assumed of it, and only
where a lemma says so, is that the hash links of the rows at hand contain no cycle; this
is stated with a `rank` that grows along every link.
*/
module AuditChain {
  import opened Common

  /** A row of `audit_trail` whose `hash` column is not NULL. */
  datatype Entry = Entry(
    id: string,
    user: string,
    action: string,
    moduleName: string,
    details: string,
    hash: string,
    previousHash: string,
    timestamp: string)

  datatype Reason = HashMismatch | Fork | Gap

  datatype Verdict = Valid | Invalid(firstOffendingId: string, reason: Reason)

  type Sha = string -> string

  const GENESIS_PREVIOUS_HASH := "0"

  /** The text that is hashed: six fields joined by `|`. */
  function RecordData(
    previousHash: string, user: string, action: string, moduleName: string, details: string, timestamp: string): string
  {
    previousHash + "|" + (user + "|" + (action + "|" + (moduleName + "|" + (details + "|" + timestamp))))
  }

  function ComputeEntryHash(
    sha: Sha, previousHash: string, user: string, action: string, moduleName: string, details: string,
    timestamp: string): string
  {
    sha(RecordData(previousHash, user, action, moduleName, details, timestamp))
  }

  function Record(e: Entry): string {
    RecordData(e.previousHash, e.user, e.action, e.moduleName, e.details, e.timestamp)
  }

  predicate HashMatches(sha: Sha, e: Entry) {
    ComputeEntryHash(sha, e.previousHash, e.user, e.action, e.moduleName, e.details, e.timestamp) == e.hash
  }

  // ---------------------------------------------------------------- verdict

  ghost predicate AllMatch(sha: Sha, rows: seq<Entry>) {
    forall i :: 0 <= i < |rows| ==> HashMatches(sha, rows[i])
  }

  ghost predicate HasHash(rows: seq<Entry>, h: string) {
    exists i :: 0 <= i < |rows| && rows[i].hash == h
  }

  /** The predecessor that `e` names does not exist. */
  ghost predicate IsGap(rows: seq<Entry>, e: Entry) {
    e.previousHash != GENESIS_PREVIOUS_HASH && !HasHash(rows, e.previousHash)
  }

  /** Two rows of the table name the predecessor of `e`. */
  ghost predicate IsFork(rows: seq<Entry>, e: Entry) {
    exists i, j :: 0 <= i < j < |rows| && rows[i].previousHash == e.previousHash == rows[j].previousHash
  }

  ghost predicate Accepts(sha: Sha, rows: seq<Entry>) {
    AllMatch(sha, rows) && LinksClean(rows, |rows|)
  }

  /** Row `k` is the first that gives the verifier cause to answer `reason`. */
  ghost predicate FirstOffender(sha: Sha, rows: seq<Entry>, k: int, reason: Reason) {
    && 0 <= k < |rows|
    && match reason
       case HashMismatch => !HashMatches(sha, rows[k]) && AllMatch(sha, rows[..k])
       case Gap => AllMatch(sha, rows) && IsGap(rows, rows[k]) && LinksClean(rows, k)
       case Fork => AllMatch(sha, rows) && !IsGap(rows, rows[k]) && IsFork(rows, rows[k]) && LinksClean(rows, k)
  }

  /** The first `k` rows introduce neither a gap nor a fork. */
  ghost predicate LinksClean(rows: seq<Entry>, k: nat)
    requires k <= |rows|
  {
    forall i {:trigger IsGap(rows, rows[i])} {:trigger IsFork(rows, rows[i])} :: 0 <= i < k ==>
      !IsGap(rows, rows[i]) && !IsFork(rows, rows[i])
  }

  /** How many rows name `p` as their predecessor. */
  ghost function CountPrevious(rows: seq<Entry>, p: string): nat {
    if rows == [] then 0
    else CountPrevious(rows[..|rows| - 1], p) + if rows[|rows| - 1].previousHash == p then 1 else 0
  }

  lemma {:induction false} CountedOnce(rows: seq<Entry>, p: string)
    ensures CountPrevious(rows, p) > 0 <==> exists i :: 0 <= i < |rows| && rows[i].previousHash == p
  {
    if rows != [] {
      var init := rows[..|rows| - 1];
      CountedOnce(init, p);
      if i :| 0 <= i < |rows| && rows[i].previousHash == p {
        assert i < |init| ==> init[i].previousHash == p;
      }
      if i :| 0 <= i < |init| && init[i].previousHash == p {
        assert rows[i].previousHash == p;
      }
    }
  }

  lemma {:induction false} CountedTwice(rows: seq<Entry>, p: string)
    ensures CountPrevious(rows, p) > 1
            <==> exists i, j :: 0 <= i < j < |rows| && rows[i].previousHash == p == rows[j].previousHash
  {
    if rows != [] {
      var init := rows[..|rows| - 1];
      CountedTwice(init, p);
      CountedOnce(init, p);
      if i, j :| 0 <= i < j < |rows| && rows[i].previousHash == p == rows[j].previousHash {
        assert init[i].previousHash == p;
        assert j < |init| ==> init[j].previousHash == p;
      }
      if CountPrevious(rows, p) > 1 {
        if CountPrevious(init, p) > 1 {
          var i, j :| 0 <= i < j < |init| && init[i].previousHash == p == init[j].previousHash;
          assert rows[i].previousHash == p == rows[j].previousHash;
        } else {
          var i :| 0 <= i < |init| && init[i].previousHash == p;
          assert rows[i].previousHash == p == rows[|rows| - 1].previousHash;
        }
      }
    }
  }

  /** The `byHash` index: which hashes occur. */
  method IndexByHash(rows: seq<Entry>) returns (byHash: map<string, Entry>)
    ensures forall h :: h in byHash <==> HasHash(rows, h)
  {
    byHash := map[];
    for n := 0 to |rows|
      invariant forall h :: h in byHash <==> exists i :: 0 <= i < n && rows[i].hash == h
    {
      byHash := byHash[rows[n].hash := rows[n]];
    }
  }

  /** How often each previous-hash is referenced; an absent key stands for zero. */
  method CountReferences(rows: seq<Entry>) returns (counts: map<string, nat>)
    ensures forall p :: CountPrevious(rows, p) == if p in counts then counts[p] else 0
  {
    counts := map[];
    for n := 0 to |rows|
      invariant forall p :: CountPrevious(rows[..n], p) == if p in counts then counts[p] else 0
    {
      var p := rows[n].previousHash;
      counts := counts[p := (if p in counts then counts[p] else 0) + 1];
      assert rows[..n + 1][..n] == rows[..n];
    }
    assert rows[..|rows|] == rows;
  }

  lemma ForkIsCount(rows: seq<Entry>, e: Entry)
    ensures IsFork(rows, e) <==> CountPrevious(rows, e.previousHash) > 1
  {
    CountedTwice(rows, e.previousHash);
  }

  /** The first pass: the first row whose stored hash is not the recomputed one. */
  method FindMismatch(sha: Sha, rows: seq<Entry>) returns (k: nat)
    ensures k < |rows| ==> FirstOffender(sha, rows, k, HashMismatch)
    ensures k >= |rows| ==> AllMatch(sha, rows)
  {
    k := 0;
    while k < |rows|
      invariant k <= |rows| && AllMatch(sha, rows[..k])
    {
      var row := rows[k];
      var recomputed := ComputeEntryHash(
        sha, row.previousHash, row.user, row.action, row.moduleName, row.details, row.timestamp);
      if recomputed != row.hash {
        return;
      }
      k := k + 1;
    }
    assert rows[..|rows|] == rows;
  }

  /** `verifyChain` on the rows that its query returns, in `seq` order. */
  method VerifyChain(sha: Sha, rows: seq<Entry>) returns (v: Verdict)
    ensures v.Valid? <==> Accepts(sha, rows)
    ensures v.Invalid? ==>
              exists k :: FirstOffender(sha, rows, k, v.reason) && rows[k].id == v.firstOffendingId
  {
    var m := FindMismatch(sha, rows);
    if m < |rows| {
      return Invalid(rows[m].id, HashMismatch);
    }
    var byHash := IndexByHash(rows);
    var counts := CountReferences(rows);
    for n := 0 to |rows|
      invariant LinksClean(rows, n)
    {
      var row := rows[n];
      var prev := row.previousHash;
      var count := if prev in counts then counts[prev] else 0;
      ForkIsCount(rows, row);
      if prev == GENESIS_PREVIOUS_HASH {
        if count > 1 {
          assert FirstOffender(sha, rows, n, Fork);
          return Invalid(row.id, Fork);
        }
      } else if prev !in byHash {
        assert FirstOffender(sha, rows, n, Gap);
        return Invalid(row.id, Gap);
      } else if count > 1 {
        assert FirstOffender(sha, rows, n, Fork);
        return Invalid(row.id, Fork);
      }
    }
    return Valid;
  }

  // ---------------------------------------------------------------- what acceptance means

  /** What the entry at position `i` of a chain must name as its predecessor. */
  ghost function LinkBefore(c: seq<Entry>, i: nat): string
    requires i <= |c|
  {
    if i == 0 then GENESIS_PREVIOUS_HASH else c[i - 1].hash
  }

  /** Each entry names the one before it, the first one the genesis sentinel. */
  ghost predicate Linked(c: seq<Entry>) {
    forall i {:trigger LinkBefore(c, i)} :: 0 <= i < |c| ==> c[i].previousHash == LinkBefore(c, i)
  }

  /** The rows, in this order, are one chain from the genesis entry. */
  ghost predicate IsLinearChain(sha: Sha, c: seq<Entry>) {
    AllMatch(sha, c) && Linked(c)
  }

  /** `rank` grows along every hash link of `rows`: hashing closes no cycle among them. */
  ghost predicate Ranked(sha: Sha, rank: string -> nat, rows: seq<Entry>) {
    forall i :: 0 <= i < |rows| ==> rank(rows[i].previousHash) < rank(sha(Record(rows[i])))
  }

  /** The same about the stored hashes. */
  ghost predicate StoredRanked(rank: string -> nat, rows: seq<Entry>) {
    forall i :: 0 <= i < |rows| ==> rank(rows[i].previousHash) < rank(rows[i].hash)
  }

  lemma StoredRanks(sha: Sha, rank: string -> nat, rows: seq<Entry>)
    requires Ranked(sha, rank, rows) && AllMatch(sha, rows)
    ensures StoredRanked(rank, rows)
  {
    forall i | 0 <= i < |rows|
      ensures rank(rows[i].previousHash) < rank(rows[i].hash)
    {
      assert HashMatches(sha, rows[i]);
    }
  }

  /** `order` lists every element of `s` once. */
  ghost predicate Lists(order: seq<nat>, s: set<nat>) {
    && (forall k :: 0 <= k < |order| ==> order[k] in s)
    && (forall i :: i in s ==> i in order)
    && NoDuplicates(order)
  }

  ghost function Positions(n: nat): (s: set<nat>)
    ensures forall i: nat :: i in s <==> i < n
  {
    if n == 0 then {} else Positions(n - 1) + {n - 1}
  }

  ghost predicate Rearranges(order: seq<nat>, n: nat) {
    Lists(order, Positions(n))
  }

  /** The rows at the listed positions. */
  ghost function Pick(rows: seq<Entry>, order: seq<nat>): (c: seq<Entry>)
    requires forall k :: 0 <= k < |order| ==> order[k] < |rows|
    ensures |c| == |order| && forall k :: 0 <= k < |c| ==> c[k] == rows[order[k]]
  {
    seq(|order|, k requires 0 <= k < |order| => rows[order[k]])
  }

  ghost predicate HasPredecessor(rows: seq<Entry>, s: set<nat>, i: nat)
    requires s <= Positions(|rows|) && i < |rows|
  {
    rows[i].previousHash != GENESIS_PREVIOUS_HASH ==> exists j :: j in s && rows[j].hash == rows[i].previousHash
  }

  /** Among the rows at positions `s` no predecessor is missing and none is shared. */
  ghost predicate CleanOn(rows: seq<Entry>, s: set<nat>)
    requires s <= Positions(|rows|)
  {
    && (forall i {:trigger HasPredecessor(rows, s, i)} :: i in s ==> HasPredecessor(rows, s, i))
    && (forall i, j :: i in s && j in s && rows[i].previousHash == rows[j].previousHash ==> i == j)
  }

  lemma CleanOnAll(rows: seq<Entry>)
    ensures LinksClean(rows, |rows|) <==> CleanOn(rows, Positions(|rows|))
  {
    var all := Positions(|rows|);
    if LinksClean(rows, |rows|) {
      forall i | i in all
        ensures HasPredecessor(rows, all, i)
      {
        assert !IsGap(rows, rows[i]);
        if j :| 0 <= j < |rows| && rows[j].hash == rows[i].previousHash {
          assert j in all;
        }
      }
      forall i, j | i in all && j in all && rows[i].previousHash == rows[j].previousHash
        ensures i == j
      {
        assert !IsFork(rows, rows[i]);
      }
    }
    if CleanOn(rows, all) {
      forall a, b | 0 <= a < b < |rows|
        ensures rows[a].previousHash != rows[b].previousHash
      {
        assert a in all && b in all;
      }
      forall i | 0 <= i < |rows|
        ensures !IsGap(rows, rows[i])
      {
        assert HasPredecessor(rows, all, i);
      }
    }
  }

  /** Some position of a non-empty set holds the largest rank. */
  lemma {:induction false} TopPosition(rank: string -> nat, rows: seq<Entry>, s: set<nat>) returns (t: nat)
    requires s <= Positions(|rows|) && s != {}
    ensures t in s && forall i :: i in s ==> rank(rows[i].hash) <= rank(rows[t].hash)
    decreases s
  {
    t :| t in s;
    if s != {t} {
      var u := TopPosition(rank, rows, s - {t});
      if rank(rows[t].hash) < rank(rows[u].hash) {
        t := u;
      }
    }
  }

  /**
  The rows of a table with clean links can be put in chain order: the row with the largest
  rank is nobody's predecessor, and once the others are in order it can only hang on their end.
  */
  lemma {:induction false} ChainOrder(rank: string -> nat, rows: seq<Entry>, s: set<nat>) returns (order: seq<nat>)
    requires s <= Positions(|rows|) && CleanOn(rows, s) && StoredRanked(rank, rows)
    ensures Lists(order, s) && Linked(Pick(rows, order))
    decreases s
  {
    if s == {} {
      return [];
    }
    var t := TopPosition(rank, rows, s);
    CleanWithoutTop(rank, rows, s, t);
    var front := ChainOrder(rank, rows, s - {t});
    order := front + [t];
    ListsExtends(front, s, t);
    OthersInOrder(rows, s, t, front);
    HangsOnEnd(Pick(rows, front), rows[t]);
    LinkedExtends(Pick(rows, front), rows[t]);
    assert Pick(rows, order) == Pick(rows, front) + [rows[t]];
  }

  lemma CleanWithoutTop(rank: string -> nat, rows: seq<Entry>, s: set<nat>, t: nat)
    requires s <= Positions(|rows|) && CleanOn(rows, s) && StoredRanked(rank, rows)
    requires t in s && forall i :: i in s ==> rank(rows[i].hash) <= rank(rows[t].hash)
    ensures CleanOn(rows, s - {t})
  {
    forall i | i in s - {t}
      ensures HasPredecessor(rows, s - {t}, i)
    {
      assert HasPredecessor(rows, s, i);
      assert rank(rows[i].previousHash) < rank(rows[i].hash) <= rank(rows[t].hash);
      if j :| j in s && rows[j].hash == rows[i].previousHash {
        assert j in s - {t};
      }
    }
  }

  lemma ListsExtends(front: seq<nat>, s: set<nat>, t: nat)
    requires t in s && Lists(front, s - {t})
    ensures Lists(front + [t], s)
  {
    var order := front + [t];
    assert order[|front|] == t;
    forall i | i in s
      ensures i in order
    {
      assert i != t ==> i in front;
    }
  }

  /** An entry that shares its predecessor with nobody can only hang on the end of the chain. */
  lemma HangsOnEnd(c: seq<Entry>, e: Entry)
    requires Linked(c)
    requires forall k :: 0 <= k < |c| ==> c[k].previousHash != e.previousHash
    requires e.previousHash != GENESIS_PREVIOUS_HASH ==> HasHash(c, e.previousHash)
    ensures e.previousHash == LinkBefore(c, |c|)
  {
    LinkedSuccessors(c);
  }

  /** The other rows of a clean set, in chain order: none shares the predecessor of row `t`, one has it as hash. */
  lemma OthersInOrder(rows: seq<Entry>, s: set<nat>, t: nat, front: seq<nat>)
    requires s <= Positions(|rows|) && CleanOn(rows, s) && t in s
    requires rows[t].previousHash != rows[t].hash
    requires Lists(front, s - {t})
    ensures forall k :: 0 <= k < |front| ==> Pick(rows, front)[k].previousHash != rows[t].previousHash
    ensures rows[t].previousHash != GENESIS_PREVIOUS_HASH ==> HasHash(Pick(rows, front), rows[t].previousHash)
  {
    assert HasPredecessor(rows, s, t);
    if j :| j in s && rows[j].hash == rows[t].previousHash {
      assert j in front;
      var k :| 0 <= k < |front| && front[k] == j;
      assert Pick(rows, front)[k].hash == rows[t].previousHash;
    }
  }

  lemma LinkedSuccessors(c: seq<Entry>)
    requires Linked(c)
    ensures c != [] ==> c[0].previousHash == GENESIS_PREVIOUS_HASH
    ensures forall k {:trigger c[k].hash} :: 0 <= k < |c| - 1 ==> c[k].hash == c[k + 1].previousHash
  {
    forall k | 0 <= k < |c|
      ensures c[k].previousHash == LinkBefore(c, k)
    {
    }
  }

  lemma LinkedExtends(c: seq<Entry>, e: Entry)
    requires Linked(c) && e.previousHash == LinkBefore(c, |c|)
    ensures Linked(c + [e])
  {
    forall i | 0 <= i < |c + [e]|
      ensures (c + [e])[i].previousHash == LinkBefore(c + [e], i)
    {
      assert LinkBefore(c + [e], i) == LinkBefore(c, i);
    }
  }

  /** Ranks grow along a chain, from the genesis sentinel on. */
  lemma {:induction false} RanksGrow(rank: string -> nat, c: seq<Entry>, i: nat, j: nat)
    requires Linked(c) && StoredRanked(rank, c)
    requires i < j <= |c|
    ensures rank(LinkBefore(c, i)) < rank(LinkBefore(c, j))
    decreases j
  {
    assert c[j - 1].previousHash == LinkBefore(c, j - 1);
    if i < j - 1 {
      RanksGrow(rank, c, i, j - 1);
    }
  }

  /** A chain has one genesis entry, pairwise distinct hashes, and at most one successor per entry. */
  lemma ChainShape(rank: string -> nat, c: seq<Entry>)
    requires Linked(c) && StoredRanked(rank, c)
    ensures forall i :: 0 <= i < |c| ==> (c[i].previousHash == "0" <==> i == 0)
    ensures forall i, j :: 0 <= i < j < |c| ==> c[i].hash != c[j].hash
    ensures forall i, j :: 0 <= i < j < |c| ==> c[i].previousHash != c[j].previousHash
    ensures forall i :: 0 <= i < |c| ==> c[i].hash != "0"
  {
    forall i, j | 0 <= i < j < |c|
      ensures c[i].hash != c[j].hash && c[i].previousHash != c[j].previousHash
    {
      RanksGrow(rank, c, i + 1, j + 1);
      RanksGrow(rank, c, i, j);
    }
    forall i | 0 <= i < |c|
      ensures c[i].hash != GENESIS_PREVIOUS_HASH
      ensures c[i].previousHash == GENESIS_PREVIOUS_HASH <==> i == 0
    {
      RanksGrow(rank, c, 0, i + 1);
      if i > 0 {
        RanksGrow(rank, c, 0, i);
      }
      assert c[i].previousHash == LinkBefore(c, i);
    }
  }

  /** A chain has clean links. */
  lemma ChainCleanOn(rank: string -> nat, c: seq<Entry>)
    requires Linked(c) && StoredRanked(rank, c)
    ensures CleanOn(c, Positions(|c|))
  {
    var all := Positions(|c|);
    ChainShape(rank, c);
    forall i | i in all
      ensures HasPredecessor(c, all, i)
    {
      assert c[i].previousHash == LinkBefore(c, i);
      if i > 0 {
        assert i - 1 in all;
      }
    }
  }

  lemma PositionOf(order: seq<nat>, n: nat, i: nat) returns (k: nat)
    requires Rearranges(order, n) && i < n
    ensures k < |order| && order[k] == i
  {
    assert i in Positions(n);
    k :| 0 <= k < |order| && order[k] == i;
  }

  /** Whether the links are clean does not depend on the order of the rows. */
  lemma CleanIgnoresOrder(rows: seq<Entry>, order: seq<nat>)
    requires Rearranges(order, |rows|)
    ensures CleanOn(rows, Positions(|rows|)) <==> CleanOn(Pick(rows, order), Positions(|order|))
  {
    var c, all, all' := Pick(rows, order), Positions(|rows|), Positions(|order|);
    if CleanOn(rows, all) {
      forall k | k in all'
        ensures HasPredecessor(c, all', k)
      {
        assert HasPredecessor(rows, all, order[k]);
        if j :| j in all && rows[j].hash == c[k].previousHash {
          var l := PositionOf(order, |rows|, j);
          assert l in all' && c[l].hash == c[k].previousHash;
        }
      }
    }
    if CleanOn(c, all') {
      forall i | i in all
        ensures HasPredecessor(rows, all, i)
      {
        var k := PositionOf(order, |rows|, i);
        assert HasPredecessor(c, all', k);
        if l :| l in all' && c[l].hash == c[k].previousHash {
          assert order[l] in all && rows[order[l]].hash == rows[i].previousHash;
        }
      }
      forall i, j | i in all && j in all && rows[i].previousHash == rows[j].previousHash
        ensures i == j
      {
        var k := PositionOf(order, |rows|, i);
        var l := PositionOf(order, |rows|, j);
        assert c[k].previousHash == c[l].previousHash;
      }
    }
  }

  /**
  The verifier accepts exactly the tables whose rows, rearranged, form one chain from the
  genesis entry.
  */
  lemma AcceptedIffOneChain(sha: Sha, rank: string -> nat, rows: seq<Entry>)
    requires Ranked(sha, rank, rows)
    ensures Accepts(sha, rows)
            <==> exists order :: Rearranges(order, |rows|) && IsLinearChain(sha, Pick(rows, order))
  {
    if Accepts(sha, rows) {
      StoredRanks(sha, rank, rows);
      CleanOnAll(rows);
      var order := ChainOrder(rank, rows, Positions(|rows|));
      assert IsLinearChain(sha, Pick(rows, order));
    }
    if order :| Rearranges(order, |rows|) && IsLinearChain(sha, Pick(rows, order)) {
      MatchRearranged(sha, rows, order);
      var c := Pick(rows, order);
      StoredRanks(sha, rank, c);
      ChainCleanOn(rank, c);
      CleanIgnoresOrder(rows, order);
      CleanOnAll(rows);
    }
  }

  lemma MatchRearranged(sha: Sha, rows: seq<Entry>, order: seq<nat>)
    requires Rearranges(order, |rows|)
    ensures AllMatch(sha, rows) <==> AllMatch(sha, Pick(rows, order))
  {
    var c := Pick(rows, order);
    if AllMatch(sha, c) {
      forall i | 0 <= i < |rows|
        ensures HashMatches(sha, rows[i])
      {
        assert i in Positions(|rows|);
        var k :| 0 <= k < |order| && order[k] == i;
        assert HashMatches(sha, c[k]);
      }
    }
  }

  /** Whether the verifier accepts does not depend on the order of the rows. */
  lemma AcceptanceIgnoresOrder(sha: Sha, rows: seq<Entry>, order: seq<nat>)
    requires Rearranges(order, |rows|)
    ensures Accepts(sha, rows) <==> Accepts(sha, Pick(rows, order))
  {
    MatchRearranged(sha, rows, order);
    CleanOnAll(rows);
    CleanOnAll(Pick(rows, order));
    CleanIgnoresOrder(rows, order);
  }

  /**
  Deleting entries from a chain: what remains is accepted exactly when the survivors are the
  entries up to some point. The positions that survive are `kept`, in ascending order.
  */
  lemma DeletionDetectedUnlessTail(sha: Sha, rank: string -> nat, c: seq<Entry>, kept: seq<nat>)
    requires IsLinearChain(sha, c) && Ranked(sha, rank, c)
    requires forall k :: 0 <= k < |kept| ==> kept[k] < |c|
    requires forall k, l :: 0 <= k < l < |kept| ==> kept[k] < kept[l]
    ensures Accepts(sha, Pick(c, kept)) <==> forall k :: 0 <= k < |kept| ==> kept[k] == k
  {
    StoredRanks(sha, rank, c);
    var survivors := Pick(c, kept);
    assert AllMatch(sha, survivors);
    CleanOnAll(survivors);
    if Accepts(sha, survivors) {
      ChainShape(rank, c);
      SurvivorsArePrefix(c, kept, |kept|);
    }
    if forall k :: 0 <= k < |kept| ==> kept[k] == k {
      PrefixStaysChain(rank, c, kept);
      ChainCleanOn(rank, survivors);
    }
  }

  lemma PrefixStaysChain(rank: string -> nat, c: seq<Entry>, kept: seq<nat>)
    requires Linked(c) && StoredRanked(rank, c)
    requires forall k :: 0 <= k < |kept| ==> kept[k] == k < |c|
    ensures Linked(Pick(c, kept)) && StoredRanked(rank, Pick(c, kept))
  {
    var survivors := Pick(c, kept);
    forall i | 0 <= i < |survivors|
      ensures survivors[i].previousHash == LinkBefore(survivors, i)
    {
      assert kept[i] == i;
      assert LinkBefore(survivors, i) == LinkBefore(c, i);
    }
  }

  /** By induction: the `n` first survivors are the `n` first entries, since each needs the one before it. */
  lemma {:induction false} SurvivorsArePrefix(c: seq<Entry>, kept: seq<nat>, n: nat)
    requires Linked(c)
    requires forall i, j :: 0 <= i < j < |c| ==> c[i].hash != c[j].hash
    requires forall i :: 0 <= i < |c| ==> (c[i].previousHash == GENESIS_PREVIOUS_HASH <==> i == 0)
    requires forall k :: 0 <= k < |kept| ==> kept[k] < |c|
    requires forall k, l :: 0 <= k < l < |kept| ==> kept[k] < kept[l]
    requires CleanOn(Pick(c, kept), Positions(|kept|))
    requires n <= |kept|
    ensures forall k :: 0 <= k < n ==> kept[k] == k
  {
    if n > 0 {
      SurvivorsArePrefix(c, kept, n - 1);
      var survivors := Pick(c, kept);
      var i := kept[n - 1];
      assert n - 1 in Positions(|kept|) && survivors[n - 1] == c[i];
      if i > 0 {
        assert c[i].previousHash == LinkBefore(c, i) == c[i - 1].hash;
        assert HasPredecessor(survivors, Positions(|kept|), n - 1);
        var j :| j in Positions(|kept|) && survivors[j].hash == survivors[n - 1].previousHash;
        assert kept[j] == i - 1;
        assert j < n - 1;
        assert n > 1 ==> kept[n - 2] == n - 2;
      }
      assert i >= n - 1 by {
        AscendingAtLeast(kept, n - 1);
      }
    }
  }

  lemma {:induction false} AscendingAtLeast(kept: seq<nat>, k: nat)
    requires forall k, l :: 0 <= k < l < |kept| ==> kept[k] < kept[l]
    requires k < |kept|
    ensures kept[k] >= k
  {
    if k > 0 {
      AscendingAtLeast(kept, k - 1);
    }
  }

  // ---------------------------------------------------------------- what the hashes pin down

  /** Two texts cut at their first `|` in the same place. */
  lemma FirstCut(p: string, rest: string, p': string, rest': string)
    requires '|' !in p && '|' !in p'
    requires p + "|" + rest == p' + "|" + rest'
    ensures p == p' && rest == rest'
  {
    var whole := p + "|" + rest;
    assert whole[|p|] == '|' && whole[|p'|] == '|';
    assert forall k :: 0 <= k < |p| ==> whole[k] == p[k] != '|';
    assert forall k :: 0 <= k < |p'| ==> whole[k] == p'[k] != '|';
    assert p == whole[..|p|] == p';
    assert rest == whole[|p| + 1..] == rest';
  }

  /** Two texts cut at their last `|` in the same place. */
  lemma LastCut(front: string, s: string, front': string, s': string)
    requires '|' !in s && '|' !in s'
    requires front + "|" + s == front' + "|" + s'
    ensures front == front' && s == s'
  {
    var whole := front + "|" + s;
    assert whole[|front|] == '|' && whole[|front'|] == '|';
    assert forall k :: |front| < k < |whole| ==> whole[k] == s[k - |front| - 1] != '|';
    assert forall k :: |front'| < k < |whole| ==> whole[k] == s'[k - |front'| - 1] != '|';
    assert front == whole[..|front|] == front';
    assert s == whole[|front| + 1..] == s';
  }

  /** The hashed text of two entries splits off the same previous-hash. */
  lemma SamePrevious(e: Entry, f: Entry)
    requires Record(e) == Record(f)
    requires '|' !in e.previousHash && '|' !in f.previousHash
    ensures e.previousHash == f.previousHash
  {
    var rest := e.user + "|" + (e.action + "|" + (e.moduleName + "|" + (e.details + "|" + e.timestamp)));
    var rest' := f.user + "|" + (f.action + "|" + (f.moduleName + "|" + (f.details + "|" + f.timestamp)));
    FirstCut(e.previousHash, rest, f.previousHash, rest');
  }

  predicate NoSeparator(e: Entry) {
    '|' !in e.previousHash && '|' !in e.user && '|' !in e.action && '|' !in e.moduleName && '|' !in e.timestamp
  }

  /** Where only the details may contain the separator, the hashed text determines every field. */
  lemma RecordDeterminesFields(e: Entry, f: Entry)
    requires NoSeparator(e) && NoSeparator(f) && Record(e) == Record(f)
    ensures e.(id := f.id, hash := f.hash) == f
  {
    var e3, f3 := e.details + "|" + e.timestamp, f.details + "|" + f.timestamp;
    var e2, f2 := e.moduleName + "|" + e3, f.moduleName + "|" + f3;
    var e1, f1 := e.action + "|" + e2, f.action + "|" + f2;
    FirstCut(e.previousHash, e.user + "|" + e1, f.previousHash, f.user + "|" + f1);
    FirstCut(e.user, e1, f.user, f1);
    FirstCut(e.action, e2, f.action, f2);
    FirstCut(e.moduleName, e3, f.moduleName, f3);
    LastCut(e.details, e.timestamp, f.details, f.timestamp);
  }

  /** None of the hashed fields contains the separator. */
  predicate Separated(e: Entry) {
    NoSeparator(e) && '|' !in e.details
  }

  /** The hashed text belongs to these fields only. */
  ghost predicate Determined(e: Entry) {
    forall f :: Record(f) == Record(e) ==> e.(id := f.id, hash := f.hash) == f
  }

  /** The parts of a text between the separators. */
  function Parts(s: string): (ps: seq<string>)
    ensures |ps| > 0
  {
    if s == "" then [""]
    else
      var rest := Parts(s[1..]);
      if s[0] == '|' then [""] + rest else [[s[0]] + rest[0]] + rest[1..]
  }

  lemma {:induction false} OnePart(p: string)
    requires '|' !in p
    ensures Parts(p) == [p]
  {
    if p != "" {
      OnePart(p[1..]);
      assert p == [p[0]] + p[1..];
    }
  }

  lemma {:induction false} PartsCut(p: string, rest: string)
    requires '|' !in p
    ensures Parts(p + "|" + rest) == [p] + Parts(rest)
  {
    var s := p + "|" + rest;
    if p == "" {
      assert s[0] == '|' && s[1..] == rest;
    } else {
      PartsCut(p[1..], rest);
      assert s[0] == p[0] && s[1..] == p[1..] + "|" + rest;
      var tail := Parts(s[1..]);
      assert tail[0] == p[1..] && tail[1..] == Parts(rest);
      assert [p[0]] + p[1..] == p;
    }
  }

  /** The hashed text lists the fields in this order. */
  lemma RecordParts(e: Entry)
    requires Separated(e)
    ensures Parts(Record(e)) == [e.previousHash, e.user, e.action, e.moduleName, e.details, e.timestamp]
  {
    OnePart(e.timestamp);
    PartsCut(e.details, e.timestamp);
    LastParts(e.user, e.action, e.moduleName, e.details + "|" + e.timestamp, [e.details, e.timestamp]);
    PartsCut(e.previousHash, e.user + "|" + (e.action + "|" + (e.moduleName + "|" + (e.details + "|" + e.timestamp))));
  }

  lemma LastParts(user: string, action: string, moduleName: string, rest: string, parts: seq<string>)
    requires '|' !in user && '|' !in action && '|' !in moduleName && Parts(rest) == parts
    ensures Parts(user + "|" + (action + "|" + (moduleName + "|" + rest))) == [user, action, moduleName] + parts
  {
    PartsCut(moduleName, rest);
    PartsCut(action, moduleName + "|" + rest);
    PartsCut(user, action + "|" + (moduleName + "|" + rest));
  }

  function Bars(s: string): nat {
    if s == "" then 0 else Bars(s[1..]) + if s[0] == '|' then 1 else 0
  }

  lemma {:induction false} BarsAdd(s: string, t: string)
    ensures Bars(s + t) == Bars(s) + Bars(t)
  {
    if s == "" {
      assert s + t == t;
    } else {
      BarsAdd(s[1..], t);
      assert (s + t)[1..] == s[1..] + t;
    }
  }

  lemma {:induction false} NoBars(s: string)
    ensures Bars(s) == 0 <==> '|' !in s
  {
    if s != "" {
      NoBars(s[1..]);
      assert s == [s[0]] + s[1..];
    }
  }

  lemma BarsJoined(s: string, t: string)
    ensures Bars(s + "|" + t) == Bars(s) + 1 + Bars(t)
  {
    BarsAdd(s + "|", t);
    BarsAdd(s, "|");
    assert "|"[1..] == "";
  }

  lemma RecordBars(e: Entry)
    ensures Bars(Record(e)) == 5 + Bars(e.previousHash) + Bars(e.user) + Bars(e.action) + Bars(e.moduleName)
                               + Bars(e.details) + Bars(e.timestamp)
  {
    var e3 := e.details + "|" + e.timestamp;
    var e2 := e.moduleName + "|" + e3;
    var e1 := e.action + "|" + e2;
    BarsJoined(e.details, e.timestamp);
    BarsJoined(e.moduleName, e3);
    BarsJoined(e.action, e2);
    BarsJoined(e.user, e1);
    BarsJoined(e.previousHash, e.user + "|" + e1);
  }

  lemma SeparatedIff(e: Entry)
    ensures Separated(e) <==> Bars(Record(e)) == 5
  {
    RecordBars(e);
    NoBars(e.previousHash);
    NoBars(e.user);
    NoBars(e.action);
    NoBars(e.moduleName);
    NoBars(e.details);
    NoBars(e.timestamp);
  }

  /** The texts before and after a `|`. */
  lemma Cut(s: string) returns (x: string, y: string)
    requires '|' in s
    ensures s == x + "|" + y
  {
    var i :| 0 <= i < |s| && s[i] == '|';
    x, y := s[..i], s[i + 1..];
  }

  lemma BarMovesRight(x: string, y: string, rest: string)
    ensures (x + "|" + y) + "|" + rest == x + "|" + (y + "|" + rest)
  {
  }

  /** A separator inside a field can also be read as the one that ends it. */
  lemma OtherReading(e: Entry) returns (f: Entry)
    requires !Separated(e)
    ensures Record(f) == Record(e) && e.(id := f.id, hash := f.hash) != f
  {
    var e3 := e.details + "|" + e.timestamp;
    var e2 := e.moduleName + "|" + e3;
    var e1 := e.action + "|" + e2;
    if '|' in e.previousHash {
      var x, y := Cut(e.previousHash);
      f := e.(previousHash := x, user := y + "|" + e.user);
      BarMovesRight(x, y, e.user + "|" + e1);
      BarMovesRight(y, e.user, e1);
    } else if '|' in e.user {
      var x, y := Cut(e.user);
      f := e.(user := x, action := y + "|" + e.action);
      BarMovesRight(x, y, e1);
      BarMovesRight(y, e.action, e2);
    } else if '|' in e.action {
      var x, y := Cut(e.action);
      f := e.(action := x, moduleName := y + "|" + e.moduleName);
      BarMovesRight(x, y, e2);
      BarMovesRight(y, e.moduleName, e3);
    } else if '|' in e.moduleName {
      var x, y := Cut(e.moduleName);
      f := e.(moduleName := x, details := y + "|" + e.details);
      BarMovesRight(x, y, e3);
      BarMovesRight(y, e.details, e.timestamp);
    } else if '|' in e.details {
      var x, y := Cut(e.details);
      f := e.(details := x, timestamp := y + "|" + e.timestamp);
      BarMovesRight(x, y, e.timestamp);
    } else {
      var x, y := Cut(e.timestamp);
      f := e.(details := e.details + "|" + x, timestamp := y);
      BarMovesRight(e.details, x, y);
    }
  }

  /** An entry's hashed text determines its fields exactly when none of them contains the separator. */
  lemma DeterminedIff(e: Entry)
    ensures Determined(e) <==> Separated(e)
  {
    if Separated(e) {
      forall f | Record(f) == Record(e)
        ensures e.(id := f.id, hash := f.hash) == f
      {
        SeparatedIff(e);
        SeparatedIff(f);
        RecordDeterminesFields(e, f);
      }
    } else {
      var f := OtherReading(e);
    }
  }

  /** Stored hashes as SHA-256 prints them: no separator, and not the genesis sentinel. */
  ghost predicate HexHashes(c: seq<Entry>) {
    forall i :: 0 <= i < |c| ==> '|' !in c[i].hash && c[i].hash != GENESIS_PREVIOUS_HASH
  }

  ghost predicate CollisionFree(sha: Sha, a: seq<Entry>, b: seq<Entry>) {
    forall i, j :: 0 <= i < |a| && 0 <= j < |b| && sha(Record(a[i])) == sha(Record(b[j])) ==> Record(a[i]) == Record(b[j])
  }

  /**
  The hash of the last entry pins down the whole history: two chains that end in the same hash
  have the same length and hash the same text at every position.
  */
  lemma {:induction false} TipPinsHistory(sha: Sha, a: seq<Entry>, b: seq<Entry>)
    requires IsLinearChain(sha, a) && IsLinearChain(sha, b)
    requires HexHashes(a) && HexHashes(b) && CollisionFree(sha, a, b)
    requires a != [] && b != [] && a[|a| - 1].hash == b[|b| - 1].hash
    ensures |a| == |b|
    ensures forall i :: 0 <= i < |a| ==> Record(a[i]) == Record(b[i]) && a[i].hash == b[i].hash
  {
    var m, n := |a| - 1, |b| - 1;
    assert HashMatches(sha, a[m]) && HashMatches(sha, b[n]);
    assert Record(a[m]) == Record(b[n]);
    assert a[m].previousHash == LinkBefore(a, m) && b[n].previousHash == LinkBefore(b, n);
    SamePrevious(a[m], b[n]);
    if m > 0 {
      FrontIsChain(sha, a);
      FrontIsChain(sha, b);
      TipPinsHistory(sha, a[..m], b[..n]);
      forall i | 0 <= i < m
        ensures Record(a[i]) == Record(b[i]) && a[i].hash == b[i].hash
      {
        assert a[i] == a[..m][i] && b[i] == b[..n][i];
      }
    }
  }

  lemma FrontIsChain(sha: Sha, c: seq<Entry>)
    requires IsLinearChain(sha, c) && c != []
    ensures IsLinearChain(sha, c[..|c| - 1])
  {
    var front := c[..|c| - 1];
    forall i | 0 <= i < |front|
      ensures front[i].previousHash == LinkBefore(front, i)
    {
      assert LinkBefore(front, i) == LinkBefore(c, i);
    }
  }

  // ---------------------------------------------------------------- about the hypothesis on the hash

  /** `rank` grows with every hashing step, whatever is hashed. */
  ghost predicate RanksAll(sha: Sha, rank: string -> nat) {
    forall e: Entry {:trigger Record(e)} :: rank(e.previousHash) < rank(sha(Record(e)))
  }

  /** The hypothesis can be met: this hash has no cycles, and no collisions either. */
  lemma RankedHashExists()
    ensures RanksAll(s => "h" + s, s => |s|)
    ensures forall s: string, t: string :: "h" + s == "h" + t ==> s == t
  {
    forall e: Entry
      ensures |e.previousHash| < |"h" + Record(e)|
    {
      assert |Record(e)| >= |e.previousHash|;
    }
    forall s: string, t: string | "h" + s == "h" + t
      ensures s == t
    {
      assert ("h" + s)[1..] == s && ("h" + t)[1..] == t;
    }
  }

  /** And it is needed: an entry that is its own predecessor is accepted, though it is no chain. */
  lemma CycleIsAccepted()
    ensures var rows := [Entry("1", "u", "a", "m", "d", "c", "c", "t")];
            Accepts(s => "c", rows) && !Linked(rows)
  {
    var e := Entry("1", "u", "a", "m", "d", "c", "c", "t");
    var rows := [e];
    assert rows[0].hash == "c";
    assert HasHash(rows, e.previousHash);
    assert e.previousHash != LinkBefore(rows, 0) by {
      assert "c"[0] != "0"[0];
    }
  }
}
