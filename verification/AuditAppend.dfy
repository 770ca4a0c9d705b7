/**
Concurrent `append` calls on the audit chain, split at their awaits: take the lock, read the
tail, insert, commit or roll back. Every interleaving of any number of clients is a run of
the transition system below.
*/
module AuditAppend {
  import opened Common
  import opened AuditChain

  type Client = nat

  /** A row of `audit_trail`: rows older than the chain have a NULL hash. */
  datatype Row = Row(seqNo: nat, entry: Option<Entry>)

  datatype Input = Input(user: string, action: string, moduleName: string, details: string, id: string, timestamp: string)

  /** How far a client is inside its transaction. */
  datatype Phase =
    | Outside
    | Locked
    | TailRead(previousHash: string)
    | Inserted(row: Row)

  datatype System = System(
    committed: seq<Row>,
    nextSeq: nat,
    lock: Option<Client>,
    phase: map<Client, Phase>)

  datatype Event =
    | Acquire(c: Client)
    | ReadTail(c: Client)
    | Insert(c: Client, input: Input)
    | Commit(c: Client)
    | Abort(c: Client)

  function PhaseOf(s: System, c: Client): Phase {
    if c in s.phase then s.phase[c] else Outside
  }

  /** The chain rows in the order in which they are stored. */
  function Entries(table: seq<Row>): (chain: seq<Entry>) {
    if table == [] then []
    else Entries(table[..|table| - 1]) + match table[|table| - 1].entry case Some(e) => [e] case None => []
  }

  /** Row `i` is the chain row with the largest `seq`, and its hash is `h`. */
  ghost predicate IsTailRow(table: seq<Row>, i: int, h: string) {
    && 0 <= i < |table|
    && table[i].entry.Some?
    && table[i].entry.value.hash == h
    && forall j :: 0 <= j < |table| && table[j].entry.Some? ==> table[j].seqNo <= table[i].seqNo
  }

  /** The answer to `SELECT hash ... WHERE hash IS NOT NULL ORDER BY seq DESC LIMIT 1`, or the sentinel. */
  ghost predicate IsTailHash(table: seq<Row>, h: string) {
    if exists i :: 0 <= i < |table| && table[i].entry.Some? then
      exists i :: IsTailRow(table, i, h)
    else h == GENESIS_PREVIOUS_HASH
  }

  function NewEntry(sha: Sha, previousHash: string, input: Input): Entry {
    Entry(
      input.id, input.user, input.action, input.moduleName, input.details,
      ComputeEntryHash(
        sha, previousHash, input.user, input.action, input.moduleName, input.details, input.timestamp),
      previousHash, input.timestamp)
  }

  ghost predicate Step(sha: Sha, s: System, e: Event, s': System) {
    match e
    case Acquire(c) =>
      PhaseOf(s, c).Outside? && s.lock.None? && s' == s.(lock := Some(c), phase := s.phase[c := Locked])
    case ReadTail(c) =>
      PhaseOf(s, c).Locked? && exists h :: IsTailHash(s.committed, h) && s' == s.(phase := s.phase[c := TailRead(h)])
    case Insert(c, input) =>
      PhaseOf(s, c).TailRead? &&
      var row := Row(s.nextSeq, Some(NewEntry(sha, PhaseOf(s, c).previousHash, input)));
      s' == s.(nextSeq := s.nextSeq + 1, phase := s.phase[c := Inserted(row)])
    case Commit(c) =>
      PhaseOf(s, c).Inserted? &&
      s' == s.(committed := s.committed + [PhaseOf(s, c).row], lock := None, phase := s.phase[c := Outside])
    case Abort(c) =>
      !PhaseOf(s, c).Outside? && s' == s.(lock := None, phase := s.phase[c := Outside])
  }

  // ---------------------------------------------------------------- invariant

  /** The stored order is the order of `seq`, and every number is already issued. */
  ghost predicate InSeqOrder(s: System) {
    && (forall i, j :: 0 <= i < j < |s.committed| ==> s.committed[i].seqNo < s.committed[j].seqNo)
    && (forall i :: 0 <= i < |s.committed| ==> s.committed[i].seqNo < s.nextSeq)
  }

  /** The client that holds the lock, and no other, is inside a transaction. */
  ghost predicate Exclusive(s: System) {
    forall c: Client :: !PhaseOf(s, c).Outside? <==> s.lock == Some(c)
  }

  /** What a client took with it from the table is still true of the table. */
  ghost predicate PhaseFits(sha: Sha, s: System, c: Client) {
    var chain := Entries(s.committed);
    match PhaseOf(s, c)
    case Outside => true
    case Locked => true
    case TailRead(h) => h == LinkBefore(chain, |chain|)
    case Inserted(row) =>
      && row.entry.Some?
      && row.entry.value.previousHash == LinkBefore(chain, |chain|)
      && HashMatches(sha, row.entry.value)
      && row.seqNo < s.nextSeq
      && forall i :: 0 <= i < |s.committed| ==> s.committed[i].seqNo < row.seqNo
  }

  ghost predicate Inv(sha: Sha, s: System) {
    && InSeqOrder(s)
    && Exclusive(s)
    && IsLinearChain(sha, Entries(s.committed))
    && forall c: Client {:trigger PhaseFits(sha, s, c)} :: PhaseFits(sha, s, c)
  }

  /** Nobody is inside; the table was left by earlier appends. */
  ghost predicate Init(sha: Sha, s: System) {
    InSeqOrder(s) && s.lock.None? && s.phase == map[] && IsLinearChain(sha, Entries(s.committed))
  }

  lemma {:induction false} EntriesFromTable(table: seq<Row>)
    ensures Entries(table) == [] <==> forall i :: 0 <= i < |table| ==> table[i].entry.None?
    ensures forall i :: 0 <= i < |table| && table[i].entry.Some? ==> table[i].entry.value in Entries(table)
  {
    if table != [] {
      var front := table[..|table| - 1];
      EntriesFromTable(front);
      forall i | 0 <= i < |table|
        ensures table[i].entry.Some? ==> table[i].entry.value in Entries(table)
        ensures Entries(table) == [] ==> table[i].entry.None?
      {
        assert i < |front| ==> front[i] == table[i];
      }
    }
  }

  /** On a table in `seq` order the query for the tail returns the hash of the last chain entry. */
  lemma {:induction false} TailIsLast(table: seq<Row>, h: string)
    requires forall i, j :: 0 <= i < j < |table| ==> table[i].seqNo < table[j].seqNo
    requires IsTailHash(table, h)
    ensures h == LinkBefore(Entries(table), |Entries(table)|)
  {
    if table != [] {
      var last, front := table[|table| - 1], table[..|table| - 1];
      EntriesFromTable(table);
      if last.entry.Some? {
        var i :| IsTailRow(table, i, h);
        assert last.seqNo <= table[i].seqNo;
        assert i == |table| - 1;
      } else {
        assert Entries(table) == Entries(front);
        TailOfFront(table, h);
        TailIsLast(front, h);
      }
    }
  }

  lemma TailOfFront(table: seq<Row>, h: string)
    requires table != [] && table[|table| - 1].entry.None? && IsTailHash(table, h)
    ensures IsTailHash(table[..|table| - 1], h)
  {
    var front := table[..|table| - 1];
    if i :| IsTailRow(table, i, h) {
      assert front[i] == table[i] && forall j :: 0 <= j < |front| ==> front[j] == table[j];
      assert IsTailRow(front, i, h);
    } else {
      assert forall i :: 0 <= i < |front| ==> front[i] == table[i];
    }
  }

  lemma EntriesAppend(table: seq<Row>, row: Row)
    requires row.entry.Some?
    ensures Entries(table + [row]) == Entries(table) + [row.entry.value]
  {
    assert (table + [row])[..|table|] == table;
  }

  lemma ChainExtends(sha: Sha, chain: seq<Entry>, e: Entry)
    requires IsLinearChain(sha, chain) && e.previousHash == LinkBefore(chain, |chain|) && HashMatches(sha, e)
    ensures IsLinearChain(sha, chain + [e])
  {
    LinkedExtends(chain, e);
  }

  lemma OrderExtends(s: System, row: Row, s': System)
    requires InSeqOrder(s) && s'.committed == s.committed + [row] && s'.nextSeq == s.nextSeq
    requires row.seqNo < s.nextSeq && forall i :: 0 <= i < |s.committed| ==> s.committed[i].seqNo < row.seqNo
    ensures InSeqOrder(s')
  {
  }

  /** A commit adds one entry to the chain, and leaves nobody inside. */
  lemma CommitKeepsInv(sha: Sha, s: System, e: Event, s': System)
    requires Inv(sha, s) && Step(sha, s, e, s') && e.Commit?
    ensures Inv(sha, s')
  {
    assert PhaseFits(sha, s, e.c);
    var row := PhaseOf(s, e.c).row;
    EntriesAppend(s.committed, row);
    ChainExtends(sha, Entries(s.committed), row.entry.value);
    OrderExtends(s, row, s');
    forall c: Client
      ensures PhaseOf(s', c).Outside? && PhaseFits(sha, s', c)
    {
      OthersOutside(s, e, c);
    }
  }

  /** The holder apart, everybody is outside. */
  lemma OthersOutside(s: System, e: Event, c: Client)
    requires Exclusive(s) && !PhaseOf(s, e.c).Outside?
    ensures PhaseOf(s.(phase := s.phase[e.c := Outside]), c).Outside?
  {
    assert s.lock == Some(e.c);
    assert !PhaseOf(s, c).Outside? ==> s.lock == Some(c);
  }

  /** The other steps do not touch the table. */
  lemma PrivateStepKeepsInv(sha: Sha, s: System, e: Event, s': System)
    requires Inv(sha, s) && Step(sha, s, e, s') && !e.Commit?
    ensures Inv(sha, s')
  {
    assert s'.committed == s.committed;
    forall c: Client
      ensures PhaseFits(sha, s', c)
    {
      assert PhaseFits(sha, s, c);
      if c == e.c && e.ReadTail? {
        TailIsLast(s.committed, PhaseOf(s', c).previousHash);
      }
    }
  }

  lemma StepKeepsInv(sha: Sha, s: System, e: Event, s': System)
    requires Inv(sha, s) && Step(sha, s, e, s')
    ensures Inv(sha, s')
  {
    if e.Commit? {
      CommitKeepsInv(sha, s, e, s');
    } else {
      PrivateStepKeepsInv(sha, s, e, s');
    }
  }

  // ---------------------------------------------------------------- whole runs

  /** A run: `states[0]` is initial and event `i` leads from `states[i]` to `states[i + 1]`. */
  ghost predicate Run(sha: Sha, states: seq<System>, events: seq<Event>) {
    && |states| == |events| + 1
    && Init(sha, states[0])
    && forall i {:trigger events[i]} :: 0 <= i < |events| ==> Step(sha, states[i], events[i], states[i + 1])
  }

  lemma {:induction false} RunKeepsInv(sha: Sha, states: seq<System>, events: seq<Event>, n: nat)
    requires Run(sha, states, events) && n < |states|
    ensures Inv(sha, states[n])
  {
    if n > 0 {
      RunKeepsInv(sha, states, events, n - 1);
      StepKeepsInv(sha, states[n - 1], events[n - 1], states[n]);
    }
  }

  /**
  Whatever the interleaving of appends, commits and roll-backs: at every moment the holder of the
  lock, and nobody else, is inside, the committed rows are one chain in `seq` order, and the verifier accepts
  them.
  */
  lemma EveryRunVerifies(sha: Sha, rank: string -> nat, states: seq<System>, events: seq<Event>, n: nat)
    requires Run(sha, states, events) && n < |states|
    requires RanksAll(sha, rank)
    ensures Exclusive(states[n]) && InSeqOrder(states[n])
    ensures IsLinearChain(sha, Entries(states[n].committed))
    ensures Accepts(sha, Entries(states[n].committed))
  {
    RunKeepsInv(sha, states, events, n);
    var chain := Entries(states[n].committed);
    assert Ranked(sha, rank, chain) by {
      forall i | 0 <= i < |chain|
        ensures rank(chain[i].previousHash) < rank(sha(Record(chain[i])))
      {
      }
    }
    StoredRanks(sha, rank, chain);
    ChainCleanOn(rank, chain);
    CleanOnAll(chain);
  }

  lemma StepGrows(sha: Sha, s: System, e: Event, s': System)
    requires Step(sha, s, e, s')
    ensures s.committed <= s'.committed
    ensures |s'.committed| == |s.committed| + if e.Commit? then 1 else 0
  {
  }

  /** What is committed stays: a later table extends an earlier one, by one entry per commit in between. */
  lemma {:induction false} CommittedOnlyGrows(sha: Sha, states: seq<System>, events: seq<Event>, m: nat, n: nat)
    requires Run(sha, states, events) && m <= n < |states|
    ensures states[m].committed <= states[n].committed
    ensures |states[n].committed| == |states[m].committed| + CountCommits(events, m, n)
    decreases n
  {
    if m < n {
      CommittedOnlyGrows(sha, states, events, m, n - 1);
      StepGrows(sha, states[n - 1], events[n - 1], states[n]);
    }
  }

  /** The commits among the events from `m` to before `n`. */
  ghost function CountCommits(events: seq<Event>, m: nat, n: nat): nat
    requires n <= |events|
  {
    if n <= m then 0 else CountCommits(events, m, n - 1) + if events[n - 1].Commit? then 1 else 0
  }

  /** The entry holds what the caller appended. */
  ghost predicate Records(e: Entry, input: Input) {
    && e.id == input.id && e.user == input.user && e.action == input.action
    && e.moduleName == input.moduleName && e.details == input.details && e.timestamp == input.timestamp
  }

  /** From its insert on, a client keeps the row as long as it does nothing. */
  lemma {:induction false} RowIsKept(sha: Sha, states: seq<System>, events: seq<Event>, m: nat, n: nat)
    requires Run(sha, states, events) && m < n < |states| && events[m].Insert?
    requires forall k :: m < k < n ==> events[k].c != events[m].c
    ensures PhaseOf(states[n], events[m].c).Inserted?
    ensures var row := PhaseOf(states[n], events[m].c).row; row.entry.Some? && Records(row.entry.value, events[m].input)
    decreases n
  {
    assert Step(sha, states[n - 1], events[n - 1], states[n]);
    if m < n - 1 {
      RowIsKept(sha, states, events, m, n - 1);
    }
  }

  /**
  In every run, the row that a commit adds is the client's own: it records exactly what the
  client appended, hangs on the end of the chain that was committed before, and its hash is that
  of its text.
  */
  lemma CommittedIsAppended(sha: Sha, states: seq<System>, events: seq<Event>, m: nat, n: nat)
    requires Run(sha, states, events) && m < n < |events| && events[m].Insert? && events[n] == Commit(events[m].c)
    requires forall k :: m < k < n ==> events[k].c != events[m].c
    ensures var table, chain := states[n].committed, Entries(states[n].committed);
            && |states[n + 1].committed| == |table| + 1 && states[n + 1].committed[..|table|] == table
            && var row := states[n + 1].committed[|table|];
            && row.entry.Some? && Records(row.entry.value, events[m].input)
            && row.entry.value.previousHash == LinkBefore(chain, |chain|)
            && row.entry.value.hash == sha(Record(row.entry.value))
  {
    RunKeepsInv(sha, states, events, n);
    RowIsKept(sha, states, events, m, n);
    assert PhaseFits(sha, states[n], events[m].c);
    assert Step(sha, states[n], events[n], states[n + 1]);
  }

  /** Two rows written after the same tail, as two appends without the lock would write them, are a fork. */
  lemma SameTailForks(sha: Sha, chain: seq<Entry>, previousHash: string, x: Input, y: Input)
    ensures !Accepts(sha, chain + [NewEntry(sha, previousHash, x), NewEntry(sha, previousHash, y)])
  {
    var a, b := NewEntry(sha, previousHash, x), NewEntry(sha, previousHash, y);
    var rows := chain + [a, b];
    assert rows[|chain|] == a && rows[|chain| + 1] == b;
    assert IsFork(rows, rows[|chain|]);
  }
}
