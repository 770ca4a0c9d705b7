/** Response bodies, and their redaction before they are stored (src/middleware/idempotency.ts). */
module Redaction {
  import opened Common

  datatype Json =
    | Null
    | Bool(b: bool)
    | Number(n: int)
    | Text(s: string)
    | Array(items: seq<Json>)
    | Object(fields: seq<Field>)

  datatype Field = Field(key: string, value: Json)

  const SENSITIVE_KEYS: set<string> := {
    "temppassword", "password", "currentpassword", "newpassword", "token", "accesstoken", "refreshtoken", "idtoken",
    "secret", "clientsecret", "apikey", "privatekey", "totpsecret", "mfasecret", "backupcodes", "recoverycodes",
    "sessiontoken", "authorization"}

  const REDACTED_PLACEHOLDER := Text("[REDACTED]")

  /** Keys are matched without regard to case; `lower` is the case mapping of the platform. */
  predicate IsSensitive(lower: string -> string, key: string) {
    lower(key) in SENSITIVE_KEYS
  }

  function Redact(lower: string -> string, v: Json): Json
    decreases v, 1
  {
    match v
    case Array(items) => Array(RedactItems(lower, items))
    case Object(fields) => Object(RedactFields(lower, fields))
    case _ => v
  }

  function RedactItems(lower: string -> string, items: seq<Json>): (r: seq<Json>)
    ensures |r| == |items|
    decreases items, 0
  {
    if items == [] then [] else [Redact(lower, items[0])] + RedactItems(lower, items[1..])
  }

  function RedactFields(lower: string -> string, fields: seq<Field>): (r: seq<Field>)
    ensures |r| == |fields|
    decreases fields, 0
  {
    if fields == [] then []
    else
      var Field(key, value) := fields[0];
      [Field(key, if IsSensitive(lower, key) then REDACTED_PLACEHOLDER else Redact(lower, value))]
      + RedactFields(lower, fields[1..])
  }

  /** One step into a value: an array index or a field name. */
  datatype Step = Index(i: nat) | Name(key: string)

  /** The value of the first field of that name. */
  function FieldValue(fields: seq<Field>, key: string): Option<Json> {
    if fields == [] then None else if fields[0].key == key then Some(fields[0].value) else FieldValue(fields[1..], key)
  }

  function Child(v: Json, step: Step): Option<Json> {
    match (v, step)
    case (Array(items), Index(i)) => if i < |items| then Some(items[i]) else None
    case (Object(fields), Name(key)) => FieldValue(fields, key)
    case _ => None
  }

  /** The value at the end of a path, if there is one. */
  function At(v: Json, path: seq<Step>): Option<Json>
    decreases |path|
  {
    if path == [] then Some(v)
    else match Child(v, path[0])
      case None => None
      case Some(c) => At(c, path[1..])
  }

  predicate SecretStep(lower: string -> string, step: Step) {
    step.Name? && IsSensitive(lower, step.key)
  }

  lemma {:induction false} RedactedItem(lower: string -> string, items: seq<Json>, i: nat)
    requires i < |items|
    ensures RedactItems(lower, items)[i] == Redact(lower, items[i])
  {
    if i > 0 {
      RedactedItem(lower, items[1..], i - 1);
    }
  }

  lemma {:induction false} RedactedField(lower: string -> string, fields: seq<Field>, key: string)
    ensures FieldValue(RedactFields(lower, fields), key)
            == match FieldValue(fields, key)
               case None => None
               case Some(v) => Some(if IsSensitive(lower, key) then REDACTED_PLACEHOLDER else Redact(lower, v))
  {
    if fields != [] {
      assert RedactFields(lower, fields)[1..] == RedactFields(lower, fields[1..]);
      RedactedField(lower, fields[1..], key);
    }
  }

  lemma RedactedChild(lower: string -> string, v: Json, step: Step)
    ensures Child(Redact(lower, v), step)
            == match Child(v, step)
               case None => None
               case Some(c) => Some(if SecretStep(lower, step) then REDACTED_PLACEHOLDER else Redact(lower, c))
  {
    match (v, step)
    case (Array(items), Index(i)) =>
      if i < |items| {
        RedactedItem(lower, items, i);
      }
    case (Object(fields), Name(key)) =>
      RedactedField(lower, fields, key);
    case _ =>
  }

  /**
  What redaction does at every path. Where the path crosses no secret field the redacted value
  is the redaction of the original one (for a string, number or boolean: that value itself).
  The first secret field on a path is the placeholder, and nothing lies beyond it.
  */
  lemma {:induction false} RedactedAt(lower: string -> string, v: Json, path: seq<Step>, k: nat)
    requires k <= |path| && forall i :: 0 <= i < k ==> !SecretStep(lower, path[i])
    requires k < |path| ==> SecretStep(lower, path[k])
    ensures k == |path| && At(v, path).Some? ==> At(Redact(lower, v), path) == Some(Redact(lower, At(v, path).value))
    ensures k == |path| && At(v, path).None? ==> At(Redact(lower, v), path).None?
    ensures k == |path| - 1 && At(v, path).Some? ==> At(Redact(lower, v), path) == Some(REDACTED_PLACEHOLDER)
    ensures k < |path| - 1 ==> At(Redact(lower, v), path).None?
    decreases |path|
  {
    if path != [] {
      RedactedChild(lower, v, path[0]);
      if k > 0 && Child(v, path[0]).Some? {
        RedactedAt(lower, Child(v, path[0]).value, path[1..], k - 1);
      }
      if k == 0 && |path| > 1 {
        assert Child(REDACTED_PLACEHOLDER, path[1]).None?;
      }
    }
  }

  /** Redacting twice is redacting once. */
  lemma {:induction false} RedactTwice(lower: string -> string, v: Json)
    ensures Redact(lower, Redact(lower, v)) == Redact(lower, v)
    decreases v, 1
  {
    match v
    case Array(items) => RedactItemsTwice(lower, items);
    case Object(fields) => RedactFieldsTwice(lower, fields);
    case _ =>
  }

  lemma {:induction false} RedactItemsTwice(lower: string -> string, items: seq<Json>)
    ensures RedactItems(lower, RedactItems(lower, items)) == RedactItems(lower, items)
    decreases items, 0
  {
    if items != [] {
      RedactTwice(lower, items[0]);
      RedactItemsTwice(lower, items[1..]);
      assert RedactItems(lower, items)[1..] == RedactItems(lower, items[1..]);
    }
  }

  lemma {:induction false} RedactFieldsTwice(lower: string -> string, fields: seq<Field>)
    ensures RedactFields(lower, RedactFields(lower, fields)) == RedactFields(lower, fields)
    decreases fields, 0
  {
    if fields != [] {
      RedactTwice(lower, fields[0].value);
      RedactFieldsTwice(lower, fields[1..]);
      assert RedactFields(lower, fields)[1..] == RedactFields(lower, fields[1..]);
    }
  }
}

/**
The idempotency middleware for the requests that share one user and one key, on any number of
server instances, each handler split at its awaits.
*/
module Idempotency {
  import opened Common
  import opened Redaction

  type RequestId = nat
  type Instance = nat

  /** Method and path. */
  datatype Target = Target(verb: string, path: string)

  /** A row of `idempotency_keys`. */
  datatype Row = Row(target: Target, status: int, body: Json, expiresAt: nat)

  datatype Phase =
    | Checking                              // passed the in-flight check, database asked
    | Checked(found: Option<Row>)           // database answered, not yet resumed
    | Conflict                              // 409
    | Failed                                // the database check threw
    | Replayed(row: Row)
    | Handling(addedAt: nat)                // the handler runs; the key was added at that step
    | Ended                                 // the response ended without `res.json`
    | Storing(status: int, body: Json)      // `res.json` was called with this body
    | Stored(status: int, body: Json, row: Row)
    | NotStored

  /**
  `checkedAt` is the step of the in-flight check, `freeSince` the last release of the key before
  it; `finished` once the timer of the response's `finish` event has run.
  */
  datatype Request = Request(
    instance: Instance, target: Target, checkedAt: nat, freeSince: nat, phase: Phase, finished: bool)

  /**
  `step` numbers the events; `keyHeld` are the instances with the key in their in-flight set,
  `releasedAt` when each last removed it.
  */
  datatype System = System(
    step: nat,
    now: nat,
    table: seq<Row>,
    keyHeld: set<Instance>,
    releasedAt: map<Instance, nat>,
    requests: map<RequestId, Request>)

  datatype Event =
    | Tick(seconds: nat)
    | Arrive(r: RequestId, instance: Instance, target: Target)
    | Query(r: RequestId)
    | QueryFails(r: RequestId)
    | Resume(r: RequestId)
    | Respond(r: RequestId, status: int, body: Json)
    | EndPlain(r: RequestId)
    | StoreSucceeds(r: RequestId)
    | StoreFails(r: RequestId)
    | FinishTimer(r: RequestId)
    | Cleanup

  /** The database's answer to the check: a live row of this method and path. */
  function Find(table: seq<Row>, target: Target, now: nat): (found: Option<Row>)
    ensures found.Some? ==> found.value in table && found.value.target == target && now < found.value.expiresAt
    ensures found.None? ==> forall row :: row in table ==> row.target != target || row.expiresAt <= now
  {
    if table == [] then None
    else if table[0].target == target && now < table[0].expiresAt then Some(table[0])
    else Find(table[1..], target, now)
  }

  function Live(table: seq<Row>, now: nat): (r: seq<Row>)
    ensures |r| <= |table| && forall row :: row in r ==> row in table
  {
    if table == [] then []
    else (if table[0].expiresAt <= now then [] else [table[0]]) + Live(table[1..], now)
  }

  /** The handler is done, with or without `res.json`. */
  predicate Answered(phase: Phase) {
    phase.Ended? || phase.Storing? || phase.Stored? || phase.NotStored?
  }

  predicate InPhase(s: System, e: Event)
    requires !e.Tick? && !e.Cleanup?
  {
    e.r in s.requests &&
    var phase := s.requests[e.r].phase;
    match e
    case Query(_) => phase.Checking?
    case QueryFails(_) => phase.Checking?
    case Resume(_) => phase.Checked?
    case Respond(_, _, _) => phase.Handling?
    case EndPlain(_) => phase.Handling?
    case StoreSucceeds(_) => phase.Storing? && s.table == []
    case StoreFails(_) => phase.Storing?
    case FinishTimer(_) => Answered(phase) && !s.requests[e.r].finished
    case _ => true
  }

  /** The table's unique key lets an insert through only when there is no row yet, live or expired. */
  predicate Enabled(s: System, e: Event) {
    match e
    case Tick(_) => true
    case Cleanup => true
    case Arrive(r, _, _) => r !in s.requests
    case _ => InPhase(s, e)
  }

  function Moved(s: System, r: RequestId, phase: Phase): System
    requires r in s.requests
  {
    s.(step := s.step + 1, requests := s.requests[r := s.requests[r].(phase := phase)])
  }

  /** `inFlightKeys.delete(key)` on the instance of request `r`. */
  function Released(s: System, r: RequestId, phase: Phase): System
    requires r in s.requests
  {
    var i := s.requests[r].instance;
    Moved(s, r, phase).(keyHeld := s.keyHeld - {i}, releasedAt := s.releasedAt[i := s.step])
  }

  function LastRelease(s: System, i: Instance): nat {
    if i in s.releasedAt then s.releasedAt[i] else 0
  }

  function Next(lower: string -> string, ttl: nat, s: System, e: Event): System
    requires Enabled(s, e)
  {
    match e
    case Tick(seconds) => s.(step := s.step + 1, now := s.now + seconds)
    case Cleanup => s.(step := s.step + 1, table := Live(s.table, s.now))
    case Arrive(r, i, target) =>
      var phase := if i in s.keyHeld then Conflict else Checking;
      s.(step := s.step + 1, requests := s.requests[r := Request(i, target, s.step, LastRelease(s, i), phase, false)])
    case Query(r) => Moved(s, r, Checked(Find(s.table, s.requests[r].target, s.now)))
    case QueryFails(r) => Released(s, r, Failed)
    case Resume(r) =>
      (match s.requests[r].phase.found
       case Some(row) => Moved(s, r, Replayed(row))
       case None => Moved(s, r, Handling(s.step)).(keyHeld := s.keyHeld + {s.requests[r].instance}))
    case Respond(r, status, body) => Moved(s, r, Storing(status, body))
    case EndPlain(r) => Moved(s, r, Ended)
    case StoreSucceeds(r) =>
      var q := s.requests[r];
      var row := Row(q.target, q.phase.status, Redact(lower, q.phase.body), s.now + ttl);
      Released(s, r, Stored(q.phase.status, q.phase.body, row)).(table := s.table + [row])
    case StoreFails(r) => Released(s, r, NotStored)
    case FinishTimer(r) =>
      var s' := Released(s, r, s.requests[r].phase);
      s'.(requests := s'.requests[r := s'.requests[r].(finished := true)])
  }

  const Initial := System(1, 0, [], {}, map[], map[])

  // ---------------------------------------------------------------- stored rows and replays

  /** `row` is what request `p` stored: its own method, path and status, and its redacted body. */
  ghost predicate StoredBy(lower: string -> string, s: System, row: Row, p: RequestId) {
    && p in s.requests
    && s.requests[p].phase.Stored?
    && s.requests[p].phase.row == row
    && row.target == s.requests[p].target
    && row.status == s.requests[p].phase.status
    && row.body == Redact(lower, s.requests[p].phase.body)
  }

  ghost predicate Genuine(lower: string -> string, s: System, row: Row) {
    exists p :: StoredBy(lower, s, row, p)
  }

  ghost predicate RowsGenuine(lower: string -> string, s: System) {
    && |s.table| <= 1
    && (forall row :: row in s.table ==> Genuine(lower, s, row))
    && (forall r :: r in s.requests ==> AnswerGenuine(lower, s, s.requests[r]))
  }

  /** What the database found for a request is a genuine row for its method and path. */
  ghost predicate AnswerGenuine(lower: string -> string, s: System, q: Request) {
    match q.phase
    case Checked(Some(row)) => Genuine(lower, s, row) && row.target == q.target
    case Replayed(row) => Genuine(lower, s, row) && row.target == q.target
    case _ => true
  }

  /** A request that has stored keeps its phase, so its row stays accounted for. */
  lemma GenuineStays(lower: string -> string, ttl: nat, s: System, e: Event, row: Row)
    requires Enabled(s, e) && Genuine(lower, s, row)
    ensures Genuine(lower, Next(lower, ttl, s, e), row)
  {
    var p :| StoredBy(lower, s, row, p);
    assert StoredBy(lower, Next(lower, ttl, s, e), row, p);
  }

  lemma StoreIsGenuine(lower: string -> string, ttl: nat, s: System, r: RequestId)
    requires Enabled(s, StoreSucceeds(r))
    ensures var s' := Next(lower, ttl, s, StoreSucceeds(r)); |s'.table| == 1 && Genuine(lower, s', s'.table[0])
  {
    var s' := Next(lower, ttl, s, StoreSucceeds(r));
    assert StoredBy(lower, s', s'.table[0], r);
  }

  lemma StepKeepsRows(lower: string -> string, ttl: nat, s: System, e: Event)
    requires RowsGenuine(lower, s) && Enabled(s, e)
    ensures RowsGenuine(lower, Next(lower, ttl, s, e))
  {
    var s' := Next(lower, ttl, s, e);
    forall row | Genuine(lower, s, row)
      ensures Genuine(lower, s', row)
    {
      GenuineStays(lower, ttl, s, e, row);
    }
    if e.StoreSucceeds? {
      StoreIsGenuine(lower, ttl, s, e.r);
    }
    forall r | r in s'.requests
      ensures AnswerGenuine(lower, s', s'.requests[r])
    {
      if r in s.requests {
        assert AnswerGenuine(lower, s, s.requests[r]);
      }
    }
  }

  // ---------------------------------------------------------------- overlapping handlers

  /** The handler of request `p` runs. */
  predicate Runs(s: System, p: RequestId) {
    p in s.requests && s.requests[p].phase.Handling?
  }

  /** While a handler runs its instance holds the key, or has removed it since. */
  ghost predicate HeldOrReleased(s: System, p: RequestId) {
    Runs(s, p) ==>
      var q := s.requests[p];
      && q.checkedAt < q.phase.addedAt < s.step
      && (q.instance in s.keyHeld || LastRelease(s, q.instance) > q.phase.addedAt)
  }

  /** A request past the in-flight check that came after the key was added saw it released in between. */
  ghost predicate SawRelease(s: System, p: RequestId, q: RequestId) {
    Runs(s, p) && q in s.requests && !s.requests[q].phase.Conflict? && s.requests[q].instance == s.requests[p].instance ==>
      s.requests[q].checkedAt < s.requests[p].phase.addedAt
      || s.requests[p].phase.addedAt < s.requests[q].freeSince < s.requests[q].checkedAt
      || q == p
  }

  ghost predicate Ordered(s: System) {
    && (forall i :: i in s.releasedAt ==> s.releasedAt[i] < s.step)
    && (forall r :: r in s.requests ==> s.requests[r].checkedAt < s.step)
    && (forall p: RequestId {:trigger HeldOrReleased(s, p)} :: HeldOrReleased(s, p))
    && (forall p: RequestId, q: RequestId {:trigger SawRelease(s, p, q)} :: SawRelease(s, p, q))
  }

  lemma StepKeepsHeld(lower: string -> string, ttl: nat, s: System, e: Event, p: RequestId)
    requires Ordered(s) && Enabled(s, e)
    ensures HeldOrReleased(Next(lower, ttl, s, e), p)
  {
    assert HeldOrReleased(s, p);
  }

  lemma StepKeepsSaw(lower: string -> string, ttl: nat, s: System, e: Event, p: RequestId, q: RequestId)
    requires Ordered(s) && Enabled(s, e)
    ensures SawRelease(Next(lower, ttl, s, e), p, q)
  {
    assert SawRelease(s, p, q);
    assert HeldOrReleased(s, p);
  }

  lemma StepKeepsOrder(lower: string -> string, ttl: nat, s: System, e: Event)
    requires Ordered(s) && Enabled(s, e)
    ensures Ordered(Next(lower, ttl, s, e))
  {
    var s' := Next(lower, ttl, s, e);
    forall p: RequestId
      ensures HeldOrReleased(s', p)
    {
      StepKeepsHeld(lower, ttl, s, e, p);
    }
    forall p: RequestId, q: RequestId
      ensures SawRelease(s', p, q)
    {
      StepKeepsSaw(lower, ttl, s, e, p, q);
    }
  }

  // ---------------------------------------------------------------- runs

  ghost predicate Possible(lower: string -> string, ttl: nat, s: System, events: seq<Event>)
    decreases |events|
  {
    events == [] || (Enabled(s, events[0]) && Possible(lower, ttl, Next(lower, ttl, s, events[0]), events[1..]))
  }

  ghost function After(lower: string -> string, ttl: nat, s: System, events: seq<Event>): System
    requires Possible(lower, ttl, s, events)
    decreases |events|
  {
    if events == [] then s else After(lower, ttl, Next(lower, ttl, s, events[0]), events[1..])
  }

  lemma {:induction false} RunKeepsInv(lower: string -> string, ttl: nat, s: System, events: seq<Event>)
    requires RowsGenuine(lower, s) && Ordered(s) && Possible(lower, ttl, s, events)
    ensures var s' := After(lower, ttl, s, events); RowsGenuine(lower, s') && Ordered(s')
    decreases |events|
  {
    if events != [] {
      StepKeepsRows(lower, ttl, s, events[0]);
      StepKeepsOrder(lower, ttl, s, events[0]);
      RunKeepsInv(lower, ttl, Next(lower, ttl, s, events[0]), events[1..]);
    }
  }

  /**
  Over every interleaving: the key has at most one row, and a replayed response is the status
  and the redacted body of the one request that stored it, for the same method and path.
  */
  lemma ReplaysAreGenuine(lower: string -> string, ttl: nat, events: seq<Event>, r: RequestId)
    requires Possible(lower, ttl, Initial, events)
    requires var s := After(lower, ttl, Initial, events); r in s.requests && s.requests[r].phase.Replayed?
    ensures var s := After(lower, ttl, Initial, events);
            && |s.table| <= 1
            && exists p :: StoredBy(lower, s, s.requests[r].phase.row, p) && s.requests[p].target == s.requests[r].target
  {
    RunKeepsInv(lower, ttl, Initial, events);
    var s := After(lower, ttl, Initial, events);
    assert AnswerGenuine(lower, s, s.requests[r]);
    var p :| StoredBy(lower, s, s.requests[r].phase.row, p);
    assert s.requests[p].target == s.requests[r].target;
  }

  /** While it has not expired, the row is the whole table: the key is unique and the clean-up spares it. */
  ghost predicate Keeps(s: System, row: Row) {
    s.now < row.expiresAt ==> s.table == [row]
  }

  lemma StepKeepsRow(lower: string -> string, ttl: nat, s: System, e: Event, row: Row)
    requires Keeps(s, row) && Enabled(s, e)
    ensures Keeps(Next(lower, ttl, s, e), row)
  {
    if e.Cleanup? && s.now < row.expiresAt {
      LiveRow(row, s.now);
    }
  }

  lemma LiveRow(row: Row, now: nat)
    ensures Live([row], now) == if row.expiresAt <= now then [] else [row]
    ensures Live([], now) == []
  {
    assert [row][1..] == [];
  }

  lemma {:induction false} RunKeepsRow(lower: string -> string, ttl: nat, s: System, events: seq<Event>, row: Row)
    requires Keeps(s, row) && Possible(lower, ttl, s, events)
    ensures Keeps(After(lower, ttl, s, events), row)
    decreases |events|
  {
    if events != [] {
      StepKeepsRow(lower, ttl, s, events[0], row);
      RunKeepsRow(lower, ttl, Next(lower, ttl, s, events[0]), events[1..], row);
    }
  }

  /** What the database answers a request for. */
  function Found(s: System, q: RequestId): Option<Row>
    requires q in s.requests && s.requests[q].phase.Checked?
  {
    s.requests[q].phase.found
  }

  /**
  A response stored at some time is what a query for its key, method and path finds, exactly
  until its time to live is over, whatever has happened in between, clean-ups included.
  */
  lemma FoundUntilExpiry(lower: string -> string, ttl: nat, s: System, p: RequestId, events: seq<Event>, q: RequestId)
    requires Enabled(s, StoreSucceeds(p)) && Possible(lower, ttl, Next(lower, ttl, s, StoreSucceeds(p)), events)
    requires var s' := After(lower, ttl, Next(lower, ttl, s, StoreSucceeds(p)), events);
             Enabled(s', Query(q)) && s'.requests[q].target == s.requests[p].target
    ensures var s' := After(lower, ttl, Next(lower, ttl, s, StoreSucceeds(p)), events);
            var row := Row(s.requests[p].target, s.requests[p].phase.status, Redact(lower, s.requests[p].phase.body), s.now + ttl);
            Found(Next(lower, ttl, s', Query(q)), q) == Some(row) <==> s'.now < s.now + ttl
  {
    var row := Row(s.requests[p].target, s.requests[p].phase.status, Redact(lower, s.requests[p].phase.body), s.now + ttl);
    var stored := Next(lower, ttl, s, StoreSucceeds(p));
    assert stored.now < row.expiresAt ==> stored.table == [row];
    RunKeepsRow(lower, ttl, stored, events, row);
  }

  /** A request for which a row was found never runs its handler: it is replayed that row. */
  ghost predicate Replaying(s: System, q: RequestId, row: Row) {
    q in s.requests && (s.requests[q].phase == Checked(Some(row)) || s.requests[q].phase == Replayed(row))
  }

  lemma {:induction false} FoundIsReplayed(lower: string -> string, ttl: nat, s: System, events: seq<Event>, q: RequestId, row: Row)
    requires Replaying(s, q, row) && Possible(lower, ttl, s, events)
    ensures Replaying(After(lower, ttl, s, events), q, row)
    ensures s.requests[q].phase.Checked? ==>
              Enabled(s, Resume(q)) && Next(lower, ttl, s, Resume(q)).requests[q].phase == Replayed(row)
    decreases |events|
  {
    if events != [] {
      assert Replaying(Next(lower, ttl, s, events[0]), q, row);
      FoundIsReplayed(lower, ttl, Next(lower, ttl, s, events[0]), events[1..], q, row);
    }
  }

  /** The clean-up removes the row exactly when it has expired, which lets the key be stored again. */
  lemma CleanupFreesIff(lower: string -> string, ttl: nat, s: System, row: Row)
    requires s.table == [row]
    ensures Next(lower, ttl, s, Cleanup).table == [] <==> row.expiresAt <= s.now
    ensures row.expiresAt > s.now ==> Next(lower, ttl, s, Cleanup).table == s.table
  {
    LiveRow(row, s.now);
  }

  // ---------------------------------------------------------------- the in-flight key

  /** What adds the key on an instance, and what removes it: a failed query, the end of storing, the timer of a finished response. */
  predicate AddsKey(s: System, e: Event, i: Instance)
    requires Enabled(s, e)
  {
    e.Resume? && s.requests[e.r].instance == i && s.requests[e.r].phase.found.None?
  }

  predicate RemovesKey(s: System, e: Event, i: Instance)
    requires Enabled(s, e)
  {
    (e.QueryFails? || e.StoreSucceeds? || e.StoreFails? || e.FinishTimer?) && s.requests[e.r].instance == i
  }

  /** After any event an instance holds the key exactly when the event adds it, or it did and the event does not remove it. */
  lemma KeyHeldIff(lower: string -> string, ttl: nat, s: System, e: Event, i: Instance)
    requires Enabled(s, e)
    ensures i in Next(lower, ttl, s, e).keyHeld <==> AddsKey(s, e, i) || (i in s.keyHeld && !RemovesKey(s, e, i))
    ensures e.Arrive? ==> (Next(lower, ttl, s, e).requests[e.r].phase.Conflict? <==> e.instance in s.keyHeld)
  {
    if e.QueryFails? || e.StoreSucceeds? || e.StoreFails? || e.FinishTimer? {
      var j := s.requests[e.r].instance;
      assert Next(lower, ttl, s, e).keyHeld == s.keyHeld - {j};
    }
  }

  /** The handler of request `r` runs on the instance, or the timer of its response is still to fire. */
  ghost predicate WillRemove(s: System, r: RequestId, i: Instance) {
    r in s.requests && s.requests[r].instance == i && (s.requests[r].phase.Handling? || (Answered(s.requests[r].phase) && !s.requests[r].finished))
  }

  ghost predicate HeldForSomeone(s: System) {
    && (forall i :: i in s.keyHeld ==> exists r :: WillRemove(s, r, i))
    && (forall r :: r in s.requests && s.requests[r].finished ==> Answered(s.requests[r].phase))
  }

  lemma StepHeldForSomeone(lower: string -> string, ttl: nat, s: System, e: Event)
    requires HeldForSomeone(s) && Enabled(s, e)
    ensures HeldForSomeone(Next(lower, ttl, s, e))
  {
    var s' := Next(lower, ttl, s, e);
    forall i | i in s'.keyHeld
      ensures exists r :: WillRemove(s', r, i)
    {
      KeyHeldIff(lower, ttl, s, e, i);
      if AddsKey(s, e, i) {
        assert WillRemove(s', e.r, i);
      } else {
        var r :| WillRemove(s, r, i);
        assert WillRemove(s', r, i);
      }
    }
  }

  /** No key leaks: in every run an instance that holds it still has a request that will remove it. */
  lemma {:induction false} HeldKeyIsRemoved(lower: string -> string, ttl: nat, s: System, events: seq<Event>)
    requires HeldForSomeone(s) && Possible(lower, ttl, s, events)
    ensures HeldForSomeone(After(lower, ttl, s, events))
    decreases |events|
  {
    if events != [] {
      StepHeldForSomeone(lower, ttl, s, events[0]);
      HeldKeyIsRemoved(lower, ttl, Next(lower, ttl, s, events[0]), events[1..]);
    }
  }

  lemma NoKeyLeaks(lower: string -> string, ttl: nat, events: seq<Event>, i: Instance)
    requires Possible(lower, ttl, Initial, events) && i in After(lower, ttl, Initial, events).keyHeld
    ensures exists r :: WillRemove(After(lower, ttl, Initial, events), r, i)
  {
    HeldKeyIsRemoved(lower, ttl, Initial, events);
  }

  /**
  Two handlers of one key run at once on an instance only if the second had passed the in-flight
  check before the first added the key, or the key was released between the first one adding it
  and the second one checking.
  */
  lemma OverlapExplained(lower: string -> string, ttl: nat, events: seq<Event>, p: RequestId, q: RequestId)
    requires Possible(lower, ttl, Initial, events) && p != q
    requires var s := After(lower, ttl, Initial, events);
             Runs(s, p) && Runs(s, q) && s.requests[p].instance == s.requests[q].instance &&
             s.requests[p].phase.addedAt <= s.requests[q].phase.addedAt
    ensures var s := After(lower, ttl, Initial, events);
            var a, b := s.requests[p], s.requests[q];
            || b.checkedAt < a.phase.addedAt
            || a.phase.addedAt < b.freeSince < b.checkedAt
  {
    RunKeepsInv(lower, ttl, Initial, events);
    var s := After(lower, ttl, Initial, events);
    assert SawRelease(s, p, q) && HeldOrReleased(s, p);
  }

  // ---------------------------------------------------------------- when a second handler can come to run

  /** Another request of the instance whose way may still lead to its handler, or which may still remove the key. */
  predicate StillOpen(q: Request) {
    || q.phase.Checking? || q.phase == Checked(None) || q.phase.Handling? || q.phase.Storing?
    || (Answered(q.phase) && !q.finished)
  }

  /** Nothing stands between the running handler of `p` and another one on its instance. */
  predicate Exposed(s: System, p: RequestId)
    requires Runs(s, p)
  {
    || s.requests[p].instance !in s.keyHeld
    || exists q :: q in s.requests && q != p && s.requests[q].instance == s.requests[p].instance && StillOpen(s.requests[q])
  }

  /** The handlers of `p` and of another request of its instance run. */
  ghost predicate Overlaps(s: System, p: RequestId) {
    Runs(s, p) && exists q :: q != p && Runs(s, q) && s.requests[q].instance == s.requests[p].instance
  }

  ghost predicate CanOverlap(lower: string -> string, ttl: nat, s: System, p: RequestId) {
    exists events :: Possible(lower, ttl, s, events) && Overlaps(After(lower, ttl, s, events), p)
  }

  /** The handler of `p` runs unexposed, or runs no more. */
  ghost predicate Sealed(s: System, p: RequestId) {
    p in s.requests && if Runs(s, p) then !Exposed(s, p) else Answered(s.requests[p].phase)
  }

  lemma StepKeepsSealed(lower: string -> string, ttl: nat, s: System, e: Event, p: RequestId)
    requires Sealed(s, p) && Enabled(s, e)
    ensures Sealed(Next(lower, ttl, s, e), p)
  {
    var s' := Next(lower, ttl, s, e);
    if Runs(s', p) {
      assert Runs(s, p);
      forall q | q in s'.requests && q != p && s'.requests[q].instance == s'.requests[p].instance
        ensures !StillOpen(s'.requests[q])
      {
        assert q in s.requests ==> !StillOpen(s.requests[q]);
      }
    }
  }

  lemma {:induction false} SealedRun(lower: string -> string, ttl: nat, s: System, events: seq<Event>, p: RequestId)
    requires Sealed(s, p) && Possible(lower, ttl, s, events)
    ensures !Overlaps(After(lower, ttl, s, events), p)
    decreases |events|
  {
    if events != [] {
      StepKeepsSealed(lower, ttl, s, events[0], p);
      SealedRun(lower, ttl, Next(lower, ttl, s, events[0]), events[1..], p);
    }
  }

  lemma OverlapLater(lower: string -> string, ttl: nat, s: System, e: Event, p: RequestId)
    requires Enabled(s, e) && CanOverlap(lower, ttl, Next(lower, ttl, s, e), p)
    ensures CanOverlap(lower, ttl, s, p)
  {
    var rest :| Possible(lower, ttl, Next(lower, ttl, s, e), rest) && Overlaps(After(lower, ttl, Next(lower, ttl, s, e), rest), p);
    Prepend(lower, ttl, s, e, rest);
  }

  lemma OverlapNow(lower: string -> string, ttl: nat, s: System, p: RequestId, q: RequestId)
    requires Runs(s, p) && Runs(s, q) && q != p && s.requests[q].instance == s.requests[p].instance
    ensures CanOverlap(lower, ttl, s, p)
  {
    assert Possible(lower, ttl, s, []) && Overlaps(After(lower, ttl, s, []), p);
  }

  /** Time enough for every row to expire. */
  lemma {:induction false} Expiry(table: seq<Row>, now: nat) returns (seconds: nat)
    ensures forall row :: row in table ==> row.expiresAt <= now + seconds
  {
    seconds := 0;
    if table != [] {
      seconds := Expiry(table[1..], now);
      if seconds < table[0].expiresAt { seconds := table[0].expiresAt; }
      assert forall row :: row in table ==> row == table[0] || row in table[1..];
    }
  }

  /** A request that the database has still to answer may be answered that there is no row, and then runs. */
  lemma CheckingCanRun(lower: string -> string, ttl: nat, s: System, p: RequestId, q: RequestId)
    requires Runs(s, p) && q in s.requests && q != p && s.requests[q].instance == s.requests[p].instance
    requires s.requests[q].phase.Checking? || s.requests[q].phase == Checked(None)
    ensures CanOverlap(lower, ttl, s, p)
  {
    if s.requests[q].phase.Checking? {
      var seconds := Expiry(s.table, s.now);
      var s1 := Next(lower, ttl, s, Tick(seconds));
      var s2 := Next(lower, ttl, s1, Query(q));
      assert s2.requests[q].phase == Checked(None);
      OverlapNow(lower, ttl, Next(lower, ttl, s2, Resume(q)), p, q);
      OverlapLater(lower, ttl, s2, Resume(q), p);
      OverlapLater(lower, ttl, s1, Query(q), p);
      OverlapLater(lower, ttl, s, Tick(seconds), p);
    } else {
      OverlapNow(lower, ttl, Next(lower, ttl, s, Resume(q)), p, q);
      OverlapLater(lower, ttl, s, Resume(q), p);
    }
  }

  /** Without the key a newcomer passes the check. */
  lemma NewcomerCanRun(lower: string -> string, ttl: nat, s: System, p: RequestId)
    requires Runs(s, p) && s.requests[p].instance !in s.keyHeld
    ensures CanOverlap(lower, ttl, s, p)
  {
    var q := FreshNumber(s.requests.Keys);
    assert q !in s.requests.Keys;
    var e := Arrive(q, s.requests[p].instance, s.requests[p].target);
    CheckingCanRun(lower, ttl, Next(lower, ttl, s, e), p, q);
    OverlapLater(lower, ttl, s, e, p);
  }

  /**
  Beside a running handler a second one of its instance can come to run exactly when the
  instance does not hold the key, or another request of it is past the check and may still be
  let through, or another request of it may still remove the key.
  */
  lemma CanOverlapIff(lower: string -> string, ttl: nat, s: System, p: RequestId)
    requires Runs(s, p)
    ensures CanOverlap(lower, ttl, s, p) <==> Exposed(s, p)
  {
    if !Exposed(s, p) {
      forall events | Possible(lower, ttl, s, events)
        ensures !Overlaps(After(lower, ttl, s, events), p)
      {
        SealedRun(lower, ttl, s, events, p);
      }
    } else if s.requests[p].instance !in s.keyHeld {
      NewcomerCanRun(lower, ttl, s, p);
    } else {
      var q :| q in s.requests && q != p && s.requests[q].instance == s.requests[p].instance && StillOpen(s.requests[q]);
      var phase := s.requests[q].phase;
      if phase.Checking? || phase == Checked(None) {
        CheckingCanRun(lower, ttl, s, p, q);
      } else if phase.Handling? {
        OverlapNow(lower, ttl, s, p, q);
      } else {
        var e := if phase.Storing? then StoreFails(q) else FinishTimer(q);
        NewcomerCanRun(lower, ttl, Next(lower, ttl, s, e), p);
        OverlapLater(lower, ttl, s, e, p);
      }
    }
  }

  // ---------------------------------------------------------------- two runs

  lemma Prepend(lower: string -> string, ttl: nat, s: System, e: Event, rest: seq<Event>)
    requires Enabled(s, e) && Possible(lower, ttl, Next(lower, ttl, s, e), rest)
    ensures Possible(lower, ttl, s, [e] + rest)
    ensures After(lower, ttl, s, [e] + rest) == After(lower, ttl, Next(lower, ttl, s, e), rest)
  {
    assert ([e] + rest)[1..] == rest;
  }

  /** It does happen: the key is added only after the database has answered, so both of two requests may get through. */
  lemma BothRun(lower: string -> string, ttl: nat, t: Target) returns (events: seq<Event>)
    ensures events == [Arrive(0, 0, t), Arrive(1, 0, t), Query(0), Query(1), Resume(0), Resume(1)]
    ensures Possible(lower, ttl, Initial, events)
    ensures var s := After(lower, ttl, Initial, events);
            && Runs(s, 0) && Runs(s, 1) && s.requests.Keys == {0, 1} && s.table == []
            && s.requests[0].instance == s.requests[1].instance && !s.requests[1].finished
  {
    var s1 := Next(lower, ttl, Initial, Arrive(0, 0, t));
    var s2 := Next(lower, ttl, s1, Arrive(1, 0, t));
    BothResume(lower, ttl, s2, 0, 1);
    events := [Query(0), Query(1), Resume(0), Resume(1)];
    Prepend(lower, ttl, s1, Arrive(1, 0, t), events);
    events := [Arrive(1, 0, t)] + events;
    Prepend(lower, ttl, Initial, Arrive(0, 0, t), events);
    events := [Arrive(0, 0, t)] + events;
  }

  /** Two requests past the check get through together: neither sees the key that the other adds. */
  lemma BothResume(lower: string -> string, ttl: nat, s: System, p: RequestId, q: RequestId)
    requires p in s.requests && q in s.requests && p != q && s.table == []
    requires s.requests[p].phase.Checking? && s.requests[q].phase.Checking?
    ensures var events := [Query(p), Query(q), Resume(p), Resume(q)];
            && Possible(lower, ttl, s, events)
            && var s' := After(lower, ttl, s, events);
            && Runs(s', p) && Runs(s', q) && s'.requests.Keys == s.requests.Keys && s'.table == []
            && (forall r :: r in s.requests ==> s'.requests[r].instance == s.requests[r].instance
                                                && s'.requests[r].finished == s.requests[r].finished)
  {
    var s1 := Next(lower, ttl, s, Query(p));
    var s2 := Next(lower, ttl, s1, Query(q));
    var s3 := Next(lower, ttl, s2, Resume(p));
    Prepend(lower, ttl, s3, Resume(q), []);
    var events := [Resume(q)] + [];
    Prepend(lower, ttl, s2, Resume(p), events);
    events := [Resume(p)] + events;
    Prepend(lower, ttl, s1, Query(q), events);
    events := [Query(q)] + events;
    Prepend(lower, ttl, s, Query(p), events);
    assert [Query(p)] + events == [Query(p), Query(q), Resume(p), Resume(q)];
  }

  /** While the instance does not hold the key, a newcomer passes the check and runs. */
  lemma NewcomerRuns(lower: string -> string, ttl: nat, s: System, p: RequestId, r: RequestId)
    requires Runs(s, p) && r !in s.requests && s.table == [] && s.requests[p].instance !in s.keyHeld
    ensures var q := s.requests[p];
            var events := [Arrive(r, q.instance, q.target), Query(r), Resume(r)];
            && Possible(lower, ttl, s, events)
            && var s' := After(lower, ttl, s, events);
            && Runs(s', p) && Runs(s', r) && s'.requests[p] == s.requests[p]
            && s'.requests[r].instance == q.instance
            && s'.requests[r].checkedAt == s.step && s'.requests[r].freeSince == LastRelease(s, q.instance)
  {
    var q := s.requests[p];
    var s1 := Next(lower, ttl, s, Arrive(r, q.instance, q.target));
    var s2 := Next(lower, ttl, s1, Query(r));
    Prepend(lower, ttl, s2, Resume(r), []);
    var events := [Resume(r)] + [];
    Prepend(lower, ttl, s1, Query(r), events);
    events := [Query(r)] + events;
    Prepend(lower, ttl, s, Arrive(r, q.instance, q.target), events);
    assert [Arrive(r, q.instance, q.target)] + events == [Arrive(r, q.instance, q.target), Query(r), Resume(r)];
  }

  /**
  The release in between, from any state with two handlers at work: one of them ends, its timer
  removes the key that the other one needs, and a third request comes to run beside it.
  */
  lemma ThirdRuns(lower: string -> string, ttl: nat, s: System, p: RequestId, q: RequestId, r: RequestId)
    requires Ordered(s) && Runs(s, p) && Runs(s, q) && p != q && r !in s.requests && s.table == []
    requires s.requests[q].instance == s.requests[p].instance && !s.requests[q].finished
    ensures var t, i := s.requests[p].target, s.requests[p].instance;
            var events := [EndPlain(q), FinishTimer(q), Arrive(r, i, t), Query(r), Resume(r)];
            && Possible(lower, ttl, s, events)
            && var s' := After(lower, ttl, s, events);
            && Runs(s', p) && Runs(s', r) && s'.requests[r].instance == s'.requests[p].instance
            && s'.requests[p].phase.addedAt < s'.requests[r].freeSince < s'.requests[r].checkedAt
  {
    var t, i := s.requests[p].target, s.requests[p].instance;
    assert HeldOrReleased(s, p);
    var s1 := Next(lower, ttl, s, EndPlain(q));
    var s2 := Next(lower, ttl, s1, FinishTimer(q));
    NewcomerRuns(lower, ttl, s2, p, r);
    var events := [Arrive(r, i, t), Query(r), Resume(r)];
    Prepend(lower, ttl, s1, FinishTimer(q), events);
    events := [FinishTimer(q)] + events;
    Prepend(lower, ttl, s, EndPlain(q), events);
    assert [EndPlain(q)] + events == [EndPlain(q), FinishTimer(q), Arrive(r, i, t), Query(r), Resume(r)];
  }

  lemma {:induction false} OneAfterTheOther(lower: string -> string, ttl: nat, s: System, a: seq<Event>, b: seq<Event>)
    requires Possible(lower, ttl, s, a) && Possible(lower, ttl, After(lower, ttl, s, a), b)
    ensures Possible(lower, ttl, s, a + b) && After(lower, ttl, s, a + b) == After(lower, ttl, After(lower, ttl, s, a), b)
    decreases |a|
  {
    if a == [] {
      assert a + b == b;
    } else {
      OneAfterTheOther(lower, ttl, Next(lower, ttl, s, a[0]), a[1..], b);
      Prepend(lower, ttl, s, a[0], a[1..] + b);
      assert [a[0]] + (a[1..] + b) == a + b;
    }
  }

  /** From the start: the first two run together, and then the first and a third that saw the key released. */
  lemma RunsAfterRelease(lower: string -> string, ttl: nat, t: Target) returns (events: seq<Event>)
    ensures Possible(lower, ttl, Initial, events)
    ensures var s := After(lower, ttl, Initial, events);
            && Runs(s, 0) && Runs(s, 2) && s.requests[0].instance == s.requests[2].instance
            && s.requests[0].phase.addedAt < s.requests[2].freeSince < s.requests[2].checkedAt
  {
    var first := BothRun(lower, ttl, t);
    var s := After(lower, ttl, Initial, first);
    RunKeepsInv(lower, ttl, Initial, first);
    ThirdRuns(lower, ttl, s, 0, 1, 2);
    var rest := [EndPlain(1), FinishTimer(1), Arrive(2, s.requests[0].instance, s.requests[0].target), Query(2), Resume(2)];
    OneAfterTheOther(lower, ttl, Initial, first, rest);
    events := first + rest;
  }
}
