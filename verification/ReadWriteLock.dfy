/**
The queueing read-write lock of src/db/index.ts: the class itself, and the protocol that its
callers run with it, as a transition system over tickets. A ticket is one call of
`acquireRead` or `acquireWrite`; granting it stands for resolving its promise.
*/
module ReadWriteLock {
  import opened Common

  type Ticket = nat

  /** The four fields of the lock. */
  datatype LockState = LockState(readers: int, writing: bool, writeQueue: seq<Ticket>, readQueue: seq<Ticket>)

  /** The answer to an acquire call: nothing to do inside a transaction, granted at once, or queued. */
  datatype Grant = Bypassed | Granted | Queued

  /** What the queue owes after a release: the new state and the tickets it grants, in order. */
  function Process(s: LockState): (LockState, seq<Ticket>) {
    if s.writeQueue != [] && s.readers == 0 && !s.writing then
      (s.(writing := true, writeQueue := s.writeQueue[1..]), s.writeQueue[..1])
    else if !s.writing && s.writeQueue == [] then
      (s.(readers := s.readers + |s.readQueue|, readQueue := []), s.readQueue)
    else
      (s, [])
  }

  /** The lock after a request made outside any transaction, and whether it was granted. */
  function AskRead(s: LockState, t: Ticket): (LockState, Grant) {
    if !s.writing && s.writeQueue == []
    then (s.(readers := s.readers + 1), Granted)
    else (s.(readQueue := s.readQueue + [t]), Queued)
  }

  function AskWrite(s: LockState, t: Ticket): (LockState, Grant) {
    if !s.writing && s.readers == 0
    then (s.(writing := true), Granted)
    else (s.(writeQueue := s.writeQueue + [t]), Queued)
  }

  /** The lock between a holder's letting go and `_processQueue`. */
  function ReaderGone(s: LockState): LockState { s.(readers := s.readers - 1) }

  function WriterGone(s: LockState): LockState { s.(writing := false) }

  function IndexOf(q: seq<Ticket>, t: Ticket): (i: nat)
    ensures i <= |q|
    ensures i < |q| ==> q[i] == t
    ensures t !in q[..i]
    ensures i == |q| <==> t !in q
  {
    if q == [] then 0 else if q[0] == t then 0 else 1 + IndexOf(q[1..], t)
  }

  /** The queue without its first occurrence of `t`. */
  function Without(q: seq<Ticket>, t: Ticket): seq<Ticket> {
    var i := IndexOf(q, t);
    if i < |q| then RemoveAt(q, i) else q
  }

  class Lock {
    var readers: int
    var writing: bool
    var writeQueue: seq<Ticket>
    var readQueue: seq<Ticket>

    function State(): LockState
      reads this
    {
      LockState(readers, writing, writeQueue, readQueue)
    }

    constructor ()
      ensures State() == LockState(0, false, [], [])
    {
      readers, writing, writeQueue, readQueue := 0, false, [], [];
    }

    method AcquireRead(t: Ticket, insideTransaction: bool) returns (g: Grant)
      modifies this
      ensures g.Bypassed? <==> insideTransaction
      ensures g.Granted? <==> !insideTransaction && !old(writing) && old(writeQueue) == []
      ensures if g.Bypassed? then State() == old(State()) else (State(), g) == AskRead(old(State()), t)
    {
      if insideTransaction {
        return Bypassed;
      }
      if !writing && |writeQueue| == 0 {
        readers := readers + 1;
        return Granted;
      }
      readQueue := readQueue + [t];
      return Queued;
    }

    method AcquireWrite(t: Ticket, insideTransaction: bool) returns (g: Grant)
      modifies this
      ensures g.Bypassed? <==> insideTransaction
      ensures g.Granted? <==> !insideTransaction && !old(writing) && old(readers) == 0
      ensures if g.Bypassed? then State() == old(State()) else (State(), g) == AskWrite(old(State()), t)
    {
      if insideTransaction {
        return Bypassed;
      }
      if !writing && readers == 0 {
        writing := true;
        return Granted;
      }
      writeQueue := writeQueue + [t];
      return Queued;
    }

    /** The timer of a queued read request: it leaves the queue, and nothing else happens. */
    method TimeoutRead(t: Ticket) returns (rejected: bool)
      modifies this`readQueue
      ensures rejected <==> t in old(readQueue)
      ensures readQueue == Without(old(readQueue), t)
    {
      var idx := IndexOf(readQueue, t);
      rejected := idx < |readQueue|;
      if rejected {
        readQueue := RemoveAt(readQueue, idx);
      }
    }

    method TimeoutWrite(t: Ticket) returns (rejected: bool)
      modifies this`writeQueue
      ensures rejected <==> t in old(writeQueue)
      ensures writeQueue == Without(old(writeQueue), t)
    {
      var idx := IndexOf(writeQueue, t);
      rejected := idx < |writeQueue|;
      if rejected {
        writeQueue := RemoveAt(writeQueue, idx);
      }
    }

    method ReleaseRead() returns (granted: seq<Ticket>)
      modifies this
      ensures (State(), granted) == Process(ReaderGone(old(State())))
    {
      readers := readers - 1;
      granted := ProcessQueue();
    }

    method ReleaseWrite() returns (granted: seq<Ticket>)
      modifies this
      ensures (State(), granted) == Process(WriterGone(old(State())))
    {
      writing := false;
      granted := ProcessQueue();
    }

    method ProcessQueue() returns (granted: seq<Ticket>)
      modifies this
      ensures (State(), granted) == Process(old(State()))
    {
      if |writeQueue| > 0 && readers == 0 && !writing {
        writing := true;
        granted := writeQueue[..1];
        writeQueue := writeQueue[1..];
        return;
      }
      granted := [];
      if !writing && |writeQueue| == 0 && |readQueue| > 0 {
        while |readQueue| > 0
          invariant granted + readQueue == old(readQueue)
          invariant readers == old(readers) + |granted|
          invariant writing == old(writing) && writeQueue == old(writeQueue)
          decreases |readQueue|
        {
          readers := readers + 1;
          granted := granted + readQueue[..1];
          readQueue := readQueue[1..];
        }
        assert granted + [] == granted;
      }
    }
  }
}

/** The lock together with its callers. */
module LockProtocol {
  import opened Common
  import opened ReadWriteLock

  /** Each ticket is waiting in a queue, holding the lock, timed out, or done with it. */
  datatype System = System(
    lock: LockState,
    readHolders: set<Ticket>,
    writeHolders: set<Ticket>,
    timedOut: set<Ticket>,
    released: set<Ticket>)

  datatype Event =
    | RequestRead(t: Ticket)
    | RequestWrite(t: Ticket)
    | TimeoutRead(t: Ticket)
    | TimeoutWrite(t: Ticket)
    | ReleaseRead(t: Ticket)
    | ReleaseWrite(t: Ticket)

  function Elements(q: seq<Ticket>): set<Ticket> {
    set t | t in q
  }

  predicate Fresh(s: System, t: Ticket) {
    && t !in s.lock.writeQueue && t !in s.lock.readQueue
    && t !in s.readHolders + s.writeHolders + s.timedOut + s.released
  }

  /** A timer fires only for a ticket that still waits; a holder releases once. */
  predicate Enabled(s: System, e: Event) {
    match e
    case RequestRead(t) => Fresh(s, t)
    case RequestWrite(t) => Fresh(s, t)
    case TimeoutRead(t) => t in s.lock.readQueue
    case TimeoutWrite(t) => t in s.lock.writeQueue
    case ReleaseRead(t) => t in s.readHolders
    case ReleaseWrite(t) => t in s.writeHolders
  }

  /** The state after `_processQueue` has granted what it can. */
  function AfterProcess(s: System): System {
    var (lock, granted) := Process(s.lock);
    if lock.writing && !s.lock.writing then
      s.(lock := lock, writeHolders := s.writeHolders + Elements(granted))
    else
      s.(lock := lock, readHolders := s.readHolders + Elements(granted))
  }

  function IsRelease(e: Event): bool {
    e.ReleaseRead? || e.ReleaseWrite?
  }

  /** A holder lets go; `_processQueue` has not run yet. */
  function LetGo(s: System, e: Event): System
    requires IsRelease(e)
  {
    if e.ReleaseRead? then
      s.(lock := ReaderGone(s.lock), readHolders := s.readHolders - {e.t}, released := s.released + {e.t})
    else
      s.(lock := WriterGone(s.lock), writeHolders := s.writeHolders - {e.t}, released := s.released + {e.t})
  }

  function Next(s: System, e: Event): System {
    var l := s.lock;
    match e
    case RequestRead(t) =>
      var (lock, g) := AskRead(l, t);
      s.(lock := lock, readHolders := s.readHolders + if g.Granted? then {t} else {})
    case RequestWrite(t) =>
      var (lock, g) := AskWrite(l, t);
      s.(lock := lock, writeHolders := s.writeHolders + if g.Granted? then {t} else {})
    case TimeoutRead(t) =>
      s.(lock := l.(readQueue := Without(l.readQueue, t)), timedOut := s.timedOut + {t})
    case TimeoutWrite(t) =>
      s.(lock := l.(writeQueue := Without(l.writeQueue, t)), timedOut := s.timedOut + {t})
    case ReleaseRead(t) =>
      AfterProcess(LetGo(s, e))
    case ReleaseWrite(t) =>
      AfterProcess(LetGo(s, e))
  }

  const Initial := System(LockState(0, false, [], []), {}, {}, {}, {})

  // ---------------------------------------------------------------- safety

  /** The counters count the holders, and a writer holds alone. */
  ghost predicate Counted(s: System) {
    && s.lock.readers == |s.readHolders|
    && (if s.lock.writing then |s.writeHolders| == 1 else s.writeHolders == {})
    && (s.lock.writing ==> s.lock.readers == 0)
  }

  /** Whoever waits, waits for someone who holds the lock: no wake-up is lost. */
  ghost predicate NoLostWakeUp(s: System) {
    s.lock.writeQueue != [] || s.lock.readQueue != [] ==> s.lock.writing || s.lock.readers > 0
  }

  ghost function One(b: bool): nat {
    if b then 1 else 0
  }

  /** In how many places a ticket is. */
  ghost function Places(s: System, t: Ticket): nat {
    One(t in s.lock.writeQueue) + One(t in s.lock.readQueue) + One(t in s.readHolders) + One(t in s.writeHolders) +
    One(t in s.timedOut) + One(t in s.released)
  }

  /** No ticket is in two places. */
  ghost predicate OnePlaceEach(s: System) {
    && NoDuplicates(s.lock.writeQueue)
    && NoDuplicates(s.lock.readQueue)
    && forall t: Ticket {:trigger Places(s, t)} :: Places(s, t) <= 1
  }

  ghost predicate Inv(s: System) {
    Counted(s) && NoLostWakeUp(s) && OnePlaceEach(s)
  }

  lemma {:induction false} ElementsSize(q: seq<Ticket>)
    requires NoDuplicates(q)
    ensures |Elements(q)| == |q|
  {
    if q != [] {
      var front := q[..|q| - 1];
      ElementsSize(front);
      assert q == front + [q[|q| - 1]];
      assert Elements(q) == Elements(front) + {q[|q| - 1]};
    }
  }

  lemma WithoutElements(q: seq<Ticket>, t: Ticket)
    requires NoDuplicates(q) && t in q
    ensures NoDuplicates(Without(q, t)) && forall x :: x in Without(q, t) <==> x in q && x != t
  {
    var i := IndexOf(q, t);
    var r := RemoveAt(q, i);
    forall x | x in q && x != t
      ensures x in r
    {
      var k :| 0 <= k < |q| && q[k] == x;
      assert r[if k < i then k else k - 1] == x;
    }
  }

  /** If every ticket is in as many places as before, or fewer, there is still one place each. */
  lemma PlacesKept(s: System, s': System)
    requires OnePlaceEach(s)
    requires NoDuplicates(s'.lock.writeQueue) && NoDuplicates(s'.lock.readQueue)
    requires forall t: Ticket {:trigger Places(s', t)} :: Places(s', t) <= Places(s, t)
    ensures OnePlaceEach(s')
  {
    forall t: Ticket
      ensures Places(s', t) <= 1
    {
      assert Places(s', t) <= Places(s, t);
    }
  }

  lemma GrantWriter(s: System)
    requires Counted(s) && OnePlaceEach(s)
    requires s.lock.writeQueue != [] && s.lock.readers == 0 && !s.lock.writing
    ensures Inv(AfterProcess(s))
  {
    var q := s.lock.writeQueue;
    assert forall t :: t in q <==> t == q[0] || t in q[1..];
    assert Elements(q[..1]) == {q[0]};
    assert s.writeHolders + Elements(q[..1]) == {q[0]};
    PlacesKept(s, AfterProcess(s));
  }

  lemma GrantReaders(s: System)
    requires Counted(s) && OnePlaceEach(s)
    requires !s.lock.writing && s.lock.writeQueue == []
    ensures Inv(AfterProcess(s))
  {
    var q := s.lock.readQueue;
    ElementsSize(q);
    forall t | t in q
      ensures t !in s.readHolders
    {
      assert Places(s, t) <= 1;
    }
    assert s.readHolders !! Elements(q);
    assert |s.readHolders + Elements(q)| == |s.readHolders| + |q|;
    PlacesKept(s, AfterProcess(s));
  }

  /** Between a holder letting go and `_processQueue` only the wake-up is missing. */
  lemma ProcessKeepsInv(s: System)
    requires Counted(s) && OnePlaceEach(s)
    ensures Inv(AfterProcess(s))
  {
    if s.lock.writeQueue != [] && s.lock.readers == 0 && !s.lock.writing {
      GrantWriter(s);
    } else if !s.lock.writing && s.lock.writeQueue == [] {
      GrantReaders(s);
    } else {
      assert s.readHolders + Elements([]) == s.readHolders;
      assert AfterProcess(s) == s;
    }
  }

  lemma RequestKeepsInv(s: System, e: Event)
    requires Inv(s) && Enabled(s, e) && (e.RequestRead? || e.RequestWrite?)
    ensures Inv(Next(s, e))
  {
    var s' := Next(s, e);
    assert s'.timedOut == s.timedOut && s'.released == s.released;
    assert Places(s, e.t) == 0;
    AppendFresh(s.lock.readQueue, e.t);
    AppendFresh(s.lock.writeQueue, e.t);
    assert OnePlaceEach(s') by {
      forall t: Ticket
        ensures Places(s', t) <= 1
      {
        assert Places(s, t) <= 1;
        RequestPlaces(s, e, t);
      }
    }
    assert e.t !in s.readHolders && e.t !in s.writeHolders;
  }

  lemma AppendFresh(q: seq<Ticket>, t: Ticket)
    requires NoDuplicates(q) && t !in q
    ensures NoDuplicates(q + [t])
  {
  }

  lemma RequestPlaces(s: System, e: Event, t: Ticket)
    requires e.RequestRead? || e.RequestWrite?
    ensures Places(Next(s, e), t) <= Places(s, t) + One(t == e.t)
  {
  }

  lemma TimeoutKeepsInv(s: System, e: Event)
    requires Inv(s) && Enabled(s, e) && (e.TimeoutRead? || e.TimeoutWrite?)
    ensures Inv(Next(s, e))
  {
    var q := if e.TimeoutRead? then s.lock.readQueue else s.lock.writeQueue;
    WithoutElements(q, e.t);
    PlacesKept(s, Next(s, e));
  }

  lemma LetGoKeepsCount(s: System, e: Event)
    requires Inv(s) && Enabled(s, e) && IsRelease(e)
    ensures Counted(LetGo(s, e)) && OnePlaceEach(LetGo(s, e)) && !LetGo(s, e).lock.writing
  {
    if e.ReleaseWrite? {
      SoleHolder(s, e.t);
    }
    PlacesKept(s, LetGo(s, e));
  }

  lemma EventKeepsInv(s: System, e: Event)
    requires Inv(s) && Enabled(s, e)
    ensures Inv(Next(s, e))
  {
    if IsRelease(e) {
      LetGoKeepsCount(s, e);
      ProcessKeepsInv(LetGo(s, e));
    } else if e.RequestRead? || e.RequestWrite? {
      RequestKeepsInv(s, e);
    } else {
      TimeoutKeepsInv(s, e);
    }
  }

  /** Nobody is lost: a new ticket gets one place, and every other one has as many as it had. */
  lemma EventKeepsTickets(s: System, e: Event, t: Ticket)
    requires Inv(s) && Enabled(s, e)
    ensures Places(Next(s, e), t) == if Asks(e) && t == e.t then 1 else Places(s, t)
  {
    assert Places(s, e.t) <= 1 && Places(s, t) <= 1;
    if IsRelease(e) {
      LetGoKeepsCount(s, e);
      ProcessKeepsTickets(LetGo(s, e), t);
    } else if !Asks(e) {
      WithoutElements(if e.TimeoutRead? then s.lock.readQueue else s.lock.writeQueue, e.t);
    }
  }

  predicate Asks(e: Event) {
    e.RequestRead? || e.RequestWrite?
  }

  lemma ProcessKeepsTickets(s: System, t: Ticket)
    requires Counted(s) && OnePlaceEach(s) && !s.lock.writing
    ensures Places(AfterProcess(s), t) == Places(s, t)
  {
    assert Places(s, t) <= 1;
    var q := s.lock.writeQueue;
    if q != [] {
      assert t in q <==> t == q[0] || t in q[1..];
      assert t in q[1..] ==> t != q[0];
      assert Elements(q[..1]) == {q[0]};
    }
  }

  lemma SoleHolder(s: System, t: Ticket)
    requires Counted(s) && t in s.writeHolders
    ensures s.writeHolders == {t} && s.lock.writing
  {
    assert |s.writeHolders - {t}| == 0;
  }

  // ---------------------------------------------------------------- runs

  /** Every event is enabled when it happens. */
  ghost predicate Possible(s: System, events: seq<Event>)
    decreases |events|
  {
    events == [] || (Enabled(s, events[0]) && Possible(Next(s, events[0]), events[1..]))
  }

  ghost function After(s: System, events: seq<Event>): System
    decreases |events|
  {
    if events == [] then s else After(Next(s, events[0]), events[1..])
  }

  lemma {:induction false} RunKeepsInv(s: System, events: seq<Event>)
    requires Inv(s) && Possible(s, events)
    ensures Inv(After(s, events))
    decreases |events|
  {
    if events != [] {
      EventKeepsInv(s, events[0]);
      RunKeepsInv(Next(s, events[0]), events[1..]);
    }
  }

  /**
  In every reachable state: a writer excludes readers and other writers, the counters are the
  numbers of holders, nobody is both granted and timed out, and nobody waits for a free lock.
  */
  lemma EveryRunIsSafe(events: seq<Event>)
    requires Possible(Initial, events)
    ensures var s := After(Initial, events);
            && (s.lock.writing ==> s.readHolders == {} && |s.writeHolders| == 1)
            && s.lock.readers == |s.readHolders|
            && (s.readHolders + s.writeHolders + s.released) !! s.timedOut
            && (s.lock.writeQueue != [] || s.lock.readQueue != [] ==> s.readHolders + s.writeHolders != {})
  {
    assert Inv(Initial);
    RunKeepsInv(Initial, events);
    var s := After(Initial, events);
    forall t | t in s.timedOut
      ensures t !in s.readHolders + s.writeHolders + s.released
    {
      assert Places(s, t) <= 1;
    }
  }

  /** `t` asks for the lock in this run. */
  ghost predicate AskedIn(events: seq<Event>, t: Ticket) {
    exists i :: 0 <= i < |events| && Asks(events[i]) && events[i].t == t
  }

  lemma {:induction false} RunKeepsTickets(s: System, events: seq<Event>, t: Ticket)
    requires Inv(s) && Possible(s, events)
    ensures Places(After(s, events), t) == if AskedIn(events, t) then 1 else Places(s, t)
    decreases |events|
  {
    if events != [] {
      var s' := Next(s, events[0]);
      EventKeepsInv(s, events[0]);
      EventKeepsTickets(s, events[0], t);
      RunKeepsTickets(s', events[1..], t);
      assert AskedIn(events, t) <==> (Asks(events[0]) && events[0].t == t) || AskedIn(events[1..], t) by {
        assert forall i :: 0 < i < |events| ==> events[i] == events[1..][i - 1];
      }
    }
  }

  /** In every run whoever has asked is in exactly one place: waiting, holding, timed out or done. */
  lemma NobodyIsLost(events: seq<Event>, t: Ticket)
    requires Possible(Initial, events)
    ensures Places(After(Initial, events), t) == if AskedIn(events, t) then 1 else 0
  {
    RunKeepsTickets(Initial, events, t);
  }

  // ---------------------------------------------------------------- writer priority

  ghost predicate WriterWaits(s: System, w: Ticket) {
    w in s.lock.writeQueue
  }

  /** `w` waits before every event of the run and after the last one. */
  ghost predicate WaitsThroughout(s: System, events: seq<Event>, w: Ticket)
    decreases |events|
  {
    WriterWaits(s, w) && (events != [] ==> WaitsThroughout(Next(s, events[0]), events[1..], w))
  }

  /** The writers that `w` has to wait for, in turn. */
  function Ahead(s: System, w: Ticket): seq<Ticket> {
    s.lock.writeQueue[..IndexOf(s.lock.writeQueue, w)]
  }

  /** How many releases can still come before `w` is granted. */
  function Distance(s: System, w: Ticket): int {
    IndexOf(s.lock.writeQueue, w) + if s.lock.writing then 1 else s.lock.readers
  }

  function CountReleases(events: seq<Event>): nat
    decreases |events|
  {
    if events == [] then 0 else (if IsRelease(events[0]) then 1 else 0) + CountReleases(events[1..])
  }

  lemma IndexInAppend(q: seq<Ticket>, t: Ticket, w: Ticket)
    requires w in q
    ensures IndexOf(q + [t], w) == IndexOf(q, w)
  {
    FirstIndex(q + [t], w, IndexOf(q, w));
  }

  /** `IndexOf` is the only index with no earlier occurrence. */
  lemma {:induction false} FirstIndex(q: seq<Ticket>, w: Ticket, i: nat)
    requires i < |q| && q[i] == w && w !in q[..i]
    ensures IndexOf(q, w) == i
  {
    var j := IndexOf(q, w);
    assert forall k :: 0 <= k < i ==> q[..i][k] == q[k];
    assert forall k :: 0 <= k < j ==> q[..j][k] == q[k];
  }

  lemma IndexWithout(q: seq<Ticket>, t: Ticket, w: Ticket)
    requires NoDuplicates(q) && t in q && w in q && t != w
    ensures var r := Without(q, t);
            && w in r
            && IndexOf(r, w) == IndexOf(q, w) - (if IndexOf(q, t) < IndexOf(q, w) then 1 else 0)
  {
    var i, j := IndexOf(q, t), IndexOf(q, w);
    var r := RemoveAt(q, i);
    var j' := if i < j then j - 1 else j;
    assert r[j'] == w;
    assert forall k :: 0 <= k < j' ==> r[k] != w;
    FirstIndex(r, w, j');
  }

  lemma IndexInTail(q: seq<Ticket>, w: Ticket)
    requires q != [] && q[0] != w && w in q[1..]
    ensures IndexOf(q[1..], w) == IndexOf(q, w) - 1
  {
  }

  /** What one event may do to a writer that goes on waiting. */
  ghost predicate WriterKeepsPlace(s: System, s': System, w: Ticket, releases: nat) {
    && s'.readHolders <= s.readHolders
    && s'.writeHolders <= s.writeHolders + Elements(Ahead(s, w))
    && Elements(Ahead(s', w)) <= Elements(Ahead(s, w))
    && Distance(s', w) <= Distance(s, w) - releases
  }

  lemma WaitingWriterRequest(s: System, e: Event, w: Ticket)
    requires Inv(s) && Enabled(s, e) && (e.RequestRead? || e.RequestWrite?)
    requires WriterWaits(s, w)
    ensures WriterKeepsPlace(s, Next(s, e), w, 0)
  {
    var q := s.lock.writeQueue;
    if e.RequestWrite? {
      IndexInAppend(q, e.t, w);
      assert (q + [e.t])[..IndexOf(q, w)] == q[..IndexOf(q, w)];
    }
  }

  lemma WaitingWriterTimeout(s: System, e: Event, w: Ticket)
    requires Inv(s) && Enabled(s, e) && (e.TimeoutRead? || e.TimeoutWrite?)
    requires WriterWaits(s, w) && WriterWaits(Next(s, e), w)
    ensures WriterKeepsPlace(s, Next(s, e), w, 0)
  {
    if e.TimeoutWrite? {
      var q := s.lock.writeQueue;
      WithoutElements(q, e.t);
      IndexWithout(q, e.t, w);
      AheadWithout(q, e.t, w);
    }
  }

  /** The queue after a release, seen by a writer that goes on waiting. */
  lemma WaitingWriterRelease(s: System, w: Ticket)
    requires Counted(s) && OnePlaceEach(s) && !s.lock.writing
    requires WriterWaits(s, w) && WriterWaits(AfterProcess(s), w)
    ensures WriterKeepsPlace(s, AfterProcess(s), w, 0)
  {
    if s.lock.readers == 0 {
      HandOff(s, s.lock.writeQueue, w);
    } else {
      assert Elements([]) == {};
    }
  }

  lemma WaitingWriterLetGo(s: System, e: Event, w: Ticket)
    requires Inv(s) && Enabled(s, e) && IsRelease(e) && WriterWaits(s, w)
    ensures WriterKeepsPlace(s, LetGo(s, e), w, 1)
  {
    if e.ReleaseWrite? {
      SoleHolder(s, e.t);
    }
  }

  lemma WaitingWriterStepRelease(s: System, e: Event, w: Ticket)
    requires Inv(s) && Enabled(s, e) && IsRelease(e)
    requires WriterWaits(s, w) && WriterWaits(Next(s, e), w)
    ensures WriterKeepsPlace(s, Next(s, e), w, 1)
  {
    LetGoKeepsCount(s, e);
    WaitingWriterLetGo(s, e, w);
    WaitingWriterRelease(LetGo(s, e), w);
  }

  /**
  One event while writer `w` waits: no reader is granted; a writer is granted only from those
  ahead of `w`; a release brings `w` strictly closer, and nothing sets it back.
  */
  lemma WaitingWriterStep(s: System, e: Event, w: Ticket)
    requires Inv(s) && Enabled(s, e)
    requires WriterWaits(s, w) && WriterWaits(Next(s, e), w)
    ensures WriterKeepsPlace(s, Next(s, e), w, if IsRelease(e) then 1 else 0)
  {
    if IsRelease(e) {
      WaitingWriterStepRelease(s, e, w);
    } else if e.RequestRead? || e.RequestWrite? {
      WaitingWriterRequest(s, e, w);
    } else {
      WaitingWriterTimeout(s, e, w);
    }
  }

  lemma AheadWithout(q: seq<Ticket>, t: Ticket, w: Ticket)
    requires NoDuplicates(q) && t in q && w in q && t != w
    ensures var r := Without(q, t); IndexOf(r, w) <= |r| && Elements(r[..IndexOf(r, w)]) <= Elements(q[..IndexOf(q, w)])
  {
    IndexWithout(q, t, w);
    var i, j := IndexOf(q, t), IndexOf(q, w);
    var r := Without(q, t);
    var j' := IndexOf(r, w);
    forall k | 0 <= k < j'
      ensures r[..j'][k] in q[..j]
    {
      var k' := if k < i then k else k + 1;
      assert r[k] == q[k'] && k' < j;
      assert q[..j][k'] == q[k'];
    }
  }

  /** The lock passes to the head of the queue. */
  lemma HandOff(s: System, q: seq<Ticket>, w: Ticket)
    requires q == s.lock.writeQueue && q != [] && w in q[1..] && NoDuplicates(q)
    ensures IndexOf(q, w) > 0 && IndexOf(q[1..], w) == IndexOf(q, w) - 1
    ensures q[0] in Ahead(s, w) && Elements(q[..1]) <= Elements(Ahead(s, w))
    ensures Elements(q[1..][..IndexOf(q[1..], w)]) <= Elements(Ahead(s, w))
  {
    assert q[0] != w;
    IndexInTail(q, w);
    var j := IndexOf(q, w);
    assert q[..j][0] == q[0];
    var rest := q[1..][..j - 1];
    forall k | 0 <= k < |rest|
      ensures rest[k] in q[..j]
    {
      assert q[..j][k + 1] == rest[k];
    }
  }

  /**
  For as long as a writer waits, whatever else happens: the readers holding the lock only get
  fewer, the writers holding it are the earlier holder or were ahead of it in the queue, and
  the number of releases stays below the distance at the start. So after that many releases
  the writer has been granted or has timed out.
  */
  lemma {:induction false} WaitingWriterRun(s: System, events: seq<Event>, w: Ticket)
    requires Inv(s) && Possible(s, events) && WaitsThroughout(s, events, w)
    ensures After(s, events).readHolders <= s.readHolders
    ensures After(s, events).writeHolders <= s.writeHolders + Elements(Ahead(s, w))
    ensures CountReleases(events) < Distance(s, w)
    decreases |events|
  {
    if events != [] {
      var s' := Next(s, events[0]);
      EventKeepsInv(s, events[0]);
      WaitingWriterStep(s, events[0], w);
      WaitingWriterRun(s', events[1..], w);
    }
  }

  /** The bound in the terms of a caller: at position `k`, fewer than holders + `k` releases. */
  lemma WriterBound(s: System, events: seq<Event>, w: Ticket)
    requires Inv(s) && Possible(s, events) && WaitsThroughout(s, events, w)
    ensures CountReleases(events) < |s.readHolders| + |s.writeHolders| + |Ahead(s, w)|
  {
    WaitingWriterRun(s, events, w);
  }

  // ---------------------------------------------------------------- readers

  /** Readers wait although nobody writes or waits to write: a reader that arrives now is let in at once. */
  predicate Stranded(s: System) {
    s.lock.readQueue != [] && !s.lock.writing && s.lock.writeQueue == []
  }

  lemma WithoutIsEmptyIff(q: seq<Ticket>, t: Ticket)
    requires t in q
    ensures Without(q, t) == [] <==> q == [t]
  {
    assert |Without(q, t)| == |q| - 1;
  }

  lemma ProcessStrandsNobody(s: System)
    ensures !Stranded(AfterProcess(s))
  {
  }

  /** Readers are left behind exactly when the last waiting writer times out while readers hold the lock. */
  lemma StrandedIff(s: System, e: Event)
    requires Counted(s) && NoLostWakeUp(s) && Enabled(s, e) && !Stranded(s)
    ensures Stranded(Next(s, e))
            <==> e.TimeoutWrite? && s.lock.writeQueue == [e.t] && !s.lock.writing && s.lock.readQueue != []
  {
    if IsRelease(e) {
      ProcessStrandsNobody(LetGo(s, e));
    } else if e.TimeoutWrite? {
      WithoutIsEmptyIff(s.lock.writeQueue, e.t);
    }
  }

  /**
  They stay behind until a reader releases the lock, which grants them all, until the last of
  them times out, or until another writer comes to wait, behind whom they then queue.
  */
  lemma StrandingEndsIff(s: System, e: Event)
    requires Counted(s) && NoLostWakeUp(s) && Enabled(s, e) && Stranded(s)
    ensures !Stranded(Next(s, e)) <==> e.ReleaseRead? || e.RequestWrite? || (e.TimeoutRead? && s.lock.readQueue == [e.t])
    ensures e.ReleaseRead? ==> Next(s, e).readHolders == s.readHolders - {e.t} + Elements(s.lock.readQueue)
    ensures !e.ReleaseRead? && !e.TimeoutRead? ==> Next(s, e).lock.readQueue == s.lock.readQueue
  {
    if IsRelease(e) {
      ProcessStrandsNobody(LetGo(s, e));
    } else if e.TimeoutRead? {
      WithoutIsEmptyIff(s.lock.readQueue, e.t);
    }
  }

  /** It does happen. */
  lemma ReadersLeftBehind(a: Ticket, w: Ticket, r: Ticket, b: Ticket) returns (events: seq<Event>)
    requires NoDuplicates([a, w, r, b])
    ensures events == [RequestRead(a), RequestWrite(w), RequestRead(r), TimeoutWrite(w), RequestRead(b)]
    ensures Possible(Initial, events)
    ensures var s := After(Initial, events);
            Stranded(s) && s.lock.readQueue == [r] && s.readHolders == {a, b}
  {
    var all := [a, w, r, b];
    assert all[0] != all[1] && all[0] != all[2] && all[0] != all[3] && all[1] != all[2] && all[1] != all[3] && all[2] != all[3];
    var s1 := System(LockState(1, false, [], []), {a}, {}, {}, {});
    var s2 := s1.(lock := LockState(1, false, [w], []));
    var s3 := s1.(lock := LockState(1, false, [w], [r]));
    var s4 := System(LockState(1, false, [], [r]), {a}, {}, {w}, {});
    var s5 := System(LockState(2, false, [], [r]), {a, b}, {}, {w}, {});
    assert Next(Initial, RequestRead(a)) == s1 && Next(s1, RequestWrite(w)) == s2 && Next(s2, RequestRead(r)) == s3;
    WithoutIsEmptyIff([w], w);
    assert Next(s3, TimeoutWrite(w)) == s4 && Next(s4, RequestRead(b)) == s5;
    events := [RequestRead(b)] + [];
    Prepend(s4, RequestRead(b), []);
    Prepend(s3, TimeoutWrite(w), events);
    events := [TimeoutWrite(w)] + events;
    Prepend(s2, RequestRead(r), events);
    events := [RequestRead(r)] + events;
    Prepend(s1, RequestWrite(w), events);
    events := [RequestWrite(w)] + events;
    Prepend(Initial, RequestRead(a), events);
    events := [RequestRead(a)] + events;
  }

  lemma Prepend(s: System, e: Event, rest: seq<Event>)
    requires Enabled(s, e) && Possible(Next(s, e), rest)
    ensures Possible(s, [e] + rest) && After(s, [e] + rest) == After(Next(s, e), rest)
  {
    assert ([e] + rest)[1..] == rest;
  }
}
