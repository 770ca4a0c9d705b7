/** The archiving transaction of src/services/ArchiveService.ts. */
module Archive {
  import opened Common

  type Id = string

  datatype Plan = Plan(id: Id, isArchived: bool, status: Option<string>, year: Option<int>, archivedBy: Option<Id>)

  datatype Task = Task(id: Id, planId: Id, status: Option<string>)

  datatype Finding = Finding(id: Id, auditId: Option<Id>, status: Option<string>)

  datatype Recommendation = Recommendation(id: Id, findingId: Option<Id>, status: Option<string>)

  datatype Evidence = Evidence(id: Id, auditId: Option<Id>, findingId: Option<Id>)

  /** A row of `finding_risks`, which refers to a finding and does not cascade. */
  datatype FindingRisk = FindingRisk(findingId: Id, riskId: Id)

  /** An archived row and the plan it was archived with. */
  datatype Copy<T> = Copy(planId: Id, row: T)

  datatype Tables = Tables(
    users: set<Id>,
    plans: seq<Plan>,
    tasks: seq<Task>,
    findings: seq<Finding>,
    recommendations: seq<Recommendation>,
    evidence: seq<Evidence>,
    findingRisks: seq<FindingRisk>,
    archivedPlans: seq<Copy<Plan>>,
    archivedTasks: seq<Copy<Task>>,
    archivedFindings: seq<Copy<Finding>>,
    archivedRecommendations: seq<Copy<Recommendation>>,
    archivedEvidence: seq<Copy<Evidence>>)

  datatype Outcome =
    | Done
    | Forbidden
    | NotFound
    | OpenTasks(count: nat)
    | OpenFindings(count: nat)
    | OpenRecommendations(count: nat)
    | YearMissing
    | UserMissing
    | CopyIncomplete
    | FindingsReferenced

  /** The rows that satisfy a WHERE clause. */
  function Where<T>(rows: seq<T>, p: T -> bool): (r: seq<T>)
    ensures |r| <= |rows|
  {
    if rows == [] then [] else (if p(rows[0]) then [rows[0]] else []) + Where(rows[1..], p)
  }

  lemma {:induction false} WhereMembers<T>(rows: seq<T>, p: T -> bool)
    ensures forall x :: x in Where(rows, p) <==> x in rows && p(x)
  {
    if rows != [] {
      WhereMembers(rows[1..], p);
      assert forall x :: x in rows <==> x == rows[0] || x in rows[1..];
    }
  }

  lemma MultisetOf<T>(a: seq<T>, b: seq<T>)
    ensures multiset(a + b) == multiset(a) + multiset(b)
  {
  }

  /** Filtering by two clauses that never hold together leaves nothing; by one that implies the other, changes nothing. */
  lemma {:induction false} WhereWhere<T>(rows: seq<T>, p: T -> bool, q: T -> bool)
    requires forall x :: x in rows && p(x) ==> q(x)
    ensures Where(Where(rows, q), p) == Where(rows, p)
  {
    if rows != [] {
      var rest := Where(rows[1..], q);
      WhereWhere(rows[1..], p, q);
      assert ([rows[0]] + rest)[1..] == rest;
      assert [] + rest == rest;
      assert [] + Where(rows[1..], p) == Where(rows[1..], p);
    }
  }

  // The rows of one plan, and the rest of each table.

  function TasksOf(t: Tables, planId: Id): seq<Task> { Where(t.tasks, (x: Task) => x.planId == planId) }

  function TasksLeft(t: Tables, planId: Id): seq<Task> { Where(t.tasks, (x: Task) => x.planId != planId) }

  function FindingsOf(t: Tables, planId: Id): seq<Finding> {
    Where(t.findings, (x: Finding) => x.auditId == Some(planId))
  }

  function FindingsLeft(t: Tables, planId: Id): seq<Finding> {
    Where(t.findings, (x: Finding) => x.auditId != Some(planId))
  }

  function FindingIds(t: Tables, planId: Id): set<Id> {
    set f | f in FindingsOf(t, planId) :: f.id
  }

  predicate Refers(ids: set<Id>, findingId: Option<Id>) {
    findingId.Some? && findingId.value in ids
  }

  function RecommendationsOf(t: Tables, planId: Id): seq<Recommendation> {
    var ids := FindingIds(t, planId);
    Where(t.recommendations, (x: Recommendation) => Refers(ids, x.findingId))
  }

  function RecommendationsLeft(t: Tables, planId: Id): seq<Recommendation> {
    var ids := FindingIds(t, planId);
    Where(t.recommendations, (x: Recommendation) => !Refers(ids, x.findingId))
  }

  function EvidenceOf(t: Tables, planId: Id): seq<Evidence> {
    Where(t.evidence, (x: Evidence) => x.auditId == Some(planId))
  }

  function EvidenceLeft(t: Tables, planId: Id): seq<Evidence> {
    Where(t.evidence, (x: Evidence) => x.auditId != Some(planId))
  }

  function CopiesOf<T>(rows: seq<Copy<T>>, planId: Id): seq<Copy<T>> {
    Where(rows, (x: Copy<T>) => x.planId == planId)
  }

  // `status != 'x'` is not true of a NULL status.

  predicate IsOpenTask(x: Task) { x.status.Some? && x.status.value != "completed" }

  predicate IsOpenFinding(x: Finding) { x.status.Some? && x.status.value != "Closed" }

  predicate IsOpenRecommendation(x: Recommendation) {
    x.status.Some? && x.status.value != "Implemented" && x.status.value != "Closed"
  }

  function OpenTasksOf(t: Tables, planId: Id): seq<Task> { Where(TasksOf(t, planId), IsOpenTask) }

  function OpenFindingsOf(t: Tables, planId: Id): seq<Finding> { Where(FindingsOf(t, planId), IsOpenFinding) }

  function OpenRecommendationsOf(t: Tables, planId: Id): seq<Recommendation> {
    Where(RecommendationsOf(t, planId), IsOpenRecommendation)
  }

  function FindPlan(plans: seq<Plan>, planId: Id): (r: Option<Plan>)
    ensures r.Some? ==> r.value in plans && r.value.id == planId && !r.value.isArchived
    ensures r.None? ==> forall p :: p in plans && p.id == planId ==> p.isArchived
  {
    if plans == [] then None
    else if plans[0].id == planId && !plans[0].isArchived then Some(plans[0])
    else FindPlan(plans[1..], planId)
  }

  function Marked(plans: seq<Plan>, planId: Id, userId: Id): (r: seq<Plan>)
    ensures |r| == |plans|
  {
    if plans == [] then []
    else
      [if plans[0].id == planId then plans[0].(isArchived := true, status := Some("Archived"), archivedBy := Some(userId)) else plans[0]]
      + Marked(plans[1..], planId, userId)
  }

  /** The plan's row is marked and keeps the rest; every other plan's row is as it was. */
  ghost predicate OnlyThisPlanMarked(before: seq<Plan>, after: seq<Plan>, planId: Id, userId: Id) {
    |after| == |before| &&
    forall k :: 0 <= k < |before| ==>
      if before[k].id != planId then after[k] == before[k]
      else
        && after[k].isArchived && after[k].status == Some("Archived") && after[k].archivedBy == Some(userId)
        && after[k].id == planId && after[k].year == before[k].year
  }

  lemma {:induction false} MarkedIsOnlyThis(plans: seq<Plan>, planId: Id, userId: Id)
    ensures OnlyThisPlanMarked(plans, Marked(plans, planId, userId), planId, userId)
  {
    if plans != [] {
      MarkedIsOnlyThis(plans[1..], planId, userId);
      assert forall k :: 0 < k < |plans| ==> plans[k] == plans[1..][k - 1];
    }
  }

  function Copies<T>(planId: Id, rows: seq<T>): (r: seq<Copy<T>>)
    ensures |r| == |rows| && forall i :: 0 <= i < |r| ==> r[i] == Copy(planId, rows[i])
  {
    seq(|rows|, i requires 0 <= i < |rows| => Copy(planId, rows[i]))
  }

  /** The loop that inserts one archive row for each selected row. */
  method InsertCopies<T>(archived: seq<Copy<T>>, planId: Id, rows: seq<T>) returns (r: seq<Copy<T>>)
    ensures r == archived + Copies(planId, rows)
  {
    r := archived;
    for n := 0 to |rows|
      invariant r == archived + Copies(planId, rows[..n])
    {
      r := r + [Copy(planId, rows[n])];
      assert Copies(planId, rows[..n + 1]) == Copies(planId, rows[..n]) + [Copy(planId, rows[n])];
    }
    assert rows[..|rows|] == rows;
  }

  /** Whether a row outside the plan refers to one of its findings. */
  predicate FindingsStillReferenced(t: Tables, planId: Id) {
    var ids := FindingIds(t, planId);
    || Where(EvidenceLeft(t, planId), (x: Evidence) => Refers(ids, x.findingId)) != []
    || Where(t.findingRisks, (x: FindingRisk) => x.findingId in ids) != []
  }

  // The four DELETE statements, each on the rows that are there when it runs.

  function DeleteEvidence(t: Tables, planId: Id): Tables { t.(evidence := EvidenceLeft(t, planId)) }

  function DeleteRecommendations(t: Tables, planId: Id): Tables { t.(recommendations := RecommendationsLeft(t, planId)) }

  /** Whether any row at all refers to one of the plan's findings. */
  predicate Referenced(t: Tables, planId: Id) {
    var ids := FindingIds(t, planId);
    || Where(t.recommendations, (x: Recommendation) => Refers(ids, x.findingId)) != []
    || Where(t.evidence, (x: Evidence) => Refers(ids, x.findingId)) != []
    || Where(t.findingRisks, (x: FindingRisk) => x.findingId in ids) != []
  }

  /** Refused while a row refers to a finding that would go: these foreign keys do not cascade. */
  function DeleteFindings(t: Tables, planId: Id): Option<Tables> {
    if Referenced(t, planId) then None else Some(t.(findings := FindingsLeft(t, planId)))
  }

  function DeleteTasks(t: Tables, planId: Id): Tables { t.(tasks := TasksLeft(t, planId)) }

  /** The tables after a successful archive. */
  function Archived(t: Tables, plan: Plan, planId: Id, userId: Id): Tables {
    Tables(
      t.users,
      Marked(t.plans, planId, userId),
      TasksLeft(t, planId),
      FindingsLeft(t, planId),
      RecommendationsLeft(t, planId),
      EvidenceLeft(t, planId),
      t.findingRisks,
      t.archivedPlans + [Copy(planId, plan)],
      t.archivedTasks + Copies(planId, TasksOf(t, planId)),
      t.archivedFindings + Copies(planId, FindingsOf(t, planId)),
      t.archivedRecommendations + Copies(planId, RecommendationsOf(t, planId)),
      t.archivedEvidence + Copies(planId, EvidenceOf(t, planId)))
  }

  predicate NothingOpen(t: Tables, planId: Id) {
    OpenTasksOf(t, planId) == [] && OpenFindingsOf(t, planId) == [] && OpenRecommendationsOf(t, planId) == []
  }

  /** No archive table has a row of the plan yet. */
  predicate NoCopiesYet(t: Tables, planId: Id) {
    && CopiesOf(t.archivedTasks, planId) == []
    && CopiesOf(t.archivedFindings, planId) == []
    && CopiesOf(t.archivedRecommendations, planId) == []
    && CopiesOf(t.archivedEvidence, planId) == []
  }

  predicate CanArchive(t: Tables, planId: Id, userId: Id, role: string) {
    && role in {"Manager", "Admin"}
    && FindPlan(t.plans, planId).Some?
    && NothingOpen(t, planId)
    && FindPlan(t.plans, planId).value.year.Some?
    && userId in t.users
    && NoCopiesYet(t, planId)
    && !FindingsStillReferenced(t, planId)
  }

  lemma {:induction false} CountAfterCopies<T>(archived: seq<Copy<T>>, planId: Id, rows: seq<T>)
    ensures |CopiesOf(archived + Copies(planId, rows), planId)| == |CopiesOf(archived, planId)| + |rows|
  {
    var p := (x: Copy<T>) => x.planId == planId;
    WhereConcat(archived, Copies(planId, rows), p);
    WhereAll(Copies(planId, rows), p);
  }

  lemma {:induction false} WhereConcat<T>(a: seq<T>, b: seq<T>, p: T -> bool)
    ensures Where(a + b, p) == Where(a, p) + Where(b, p)
  {
    if a == [] {
      assert a + b == b;
    } else {
      var head, rest := if p(a[0]) then [a[0]] else [], a[1..];
      WhereConcat(rest, b, p);
      TailOfConcat(a, b);
      Associates(head, Where(rest, p), Where(b, p));
    }
  }

  lemma TailOfConcat<T>(a: seq<T>, b: seq<T>)
    requires a != []
    ensures (a + b)[0] == a[0] && (a + b)[1..] == a[1..] + b
  {
  }

  lemma Associates<T>(a: seq<T>, b: seq<T>, c: seq<T>)
    ensures (a + b) + c == a + (b + c)
  {
  }

  lemma {:induction false} WhereAll<T>(rows: seq<T>, p: T -> bool)
    requires forall i :: 0 <= i < |rows| ==> p(rows[i])
    ensures Where(rows, p) == rows
  {
    if rows != [] {
      WhereAll(rows[1..], p);
    }
  }

  class Store {
    var t: Tables

    constructor (t: Tables)
      ensures this.t == t
    {
      this.t := t;
    }

    /**
    `archivePlan`: one transaction, which commits as a whole or leaves the tables as they were.
    It commits exactly when the role may archive, the plan is there and not archived, nothing
    of it is open, it has a year, the user exists, no copy of it exists, and nothing outside it
    refers to its findings.
    */
    method ArchivePlan(planId: Id, userId: Id, role: string) returns (o: Outcome)
      modifies this
      ensures o.Done? <==> CanArchive(old(t), planId, userId, role)
      ensures o.Done? ==> t == Archived(old(t), FindPlan(old(t).plans, planId).value, planId, userId)
      ensures !o.Done? ==> t == old(t)
      ensures o.Done? ==> OnlyThisPlanMarked(old(t).plans, t.plans, planId, userId)
      ensures o.Forbidden? <==> role !in {"Manager", "Admin"}
      ensures o.NotFound? <==> !o.Forbidden? && FindPlan(old(t).plans, planId).None?
      // each of the following, of the plan that was found, before the ones after it
      ensures o.OpenTasks? ==> o.count == |OpenTasksOf(old(t), planId)|
      ensures o.OpenFindings? ==> o.count == |OpenFindingsOf(old(t), planId)|
      ensures o.OpenRecommendations? ==> o.count == |OpenRecommendationsOf(old(t), planId)|
      ensures o.OpenTasks? <==> !o.Forbidden? && !o.NotFound? && OpenTasksOf(old(t), planId) != []
      ensures var found := !o.Forbidden? && !o.NotFound? && !o.OpenTasks?;
              && (o.OpenFindings? <==> found && OpenFindingsOf(old(t), planId) != [])
              && (o.OpenRecommendations? <==> found && !o.OpenFindings? && OpenRecommendationsOf(old(t), planId) != [])
      ensures var closed := !o.Forbidden? && !o.NotFound? && NothingOpen(old(t), planId);
              && (o.YearMissing? <==> closed && FindPlan(old(t).plans, planId).value.year.None?)
              && (o.UserMissing? <==> closed && !o.YearMissing? && userId !in old(t).users)
              && (o.CopyIncomplete? <==> closed && !o.YearMissing? && !o.UserMissing? && !NoCopiesYet(old(t), planId))
              && (o.FindingsReferenced? <==>
                    closed && !o.YearMissing? && !o.UserMissing? && !o.CopyIncomplete? && FindingsStillReferenced(old(t), planId))
    {
      if role !in {"Manager", "Admin"} {
        return Forbidden;
      }
      var plan := FindPlan(t.plans, planId);
      if plan.None? {
        return NotFound;
      }
      var openTasks := OpenTasksOf(t, planId);
      if |openTasks| > 0 {
        return OpenTasks(|openTasks|);
      }
      var openFindings := OpenFindingsOf(t, planId);
      if |openFindings| > 0 {
        return OpenFindings(|openFindings|);
      }
      var openRecommendations := OpenRecommendationsOf(t, planId);
      if |openRecommendations| > 0 {
        return OpenRecommendations(|openRecommendations|);
      }

      // `year` of `archived_plans` may not be NULL, that of `audit_plans` may
      if plan.value.year.None? {
        return YearMissing;
      }
      if userId !in t.users {
        return UserMissing;
      }

      var tasks, findings := TasksOf(t, planId), FindingsOf(t, planId);
      var recommendations, evidence := RecommendationsOf(t, planId), EvidenceOf(t, planId);
      var archivedTasks := InsertCopies(t.archivedTasks, planId, tasks);
      var archivedFindings := InsertCopies(t.archivedFindings, planId, findings);
      var archivedRecommendations := InsertCopies(t.archivedRecommendations, planId, recommendations);
      var archivedEvidence := InsertCopies(t.archivedEvidence, planId, evidence);

      CountAfterCopies(t.archivedTasks, planId, tasks);
      CountAfterCopies(t.archivedFindings, planId, findings);
      CountAfterCopies(t.archivedRecommendations, planId, recommendations);
      CountAfterCopies(t.archivedEvidence, planId, evidence);
      if |CopiesOf(archivedTasks, planId)| != |tasks| || |CopiesOf(archivedFindings, planId)| != |findings| {
        return CopyIncomplete;
      }
      if |CopiesOf(archivedRecommendations, planId)| != |recommendations| || |CopiesOf(archivedEvidence, planId)| != |evidence| {
        return CopyIncomplete;
      }

      SourceOrderFailsIff(t, planId);
      MarkedIsOnlyThis(t.plans, planId, userId);
      var work := DeleteRecommendations(DeleteEvidence(t, planId), planId);
      var deleted := DeleteFindings(work, planId);
      if deleted.None? {
        return FindingsReferenced;
      }
      work := DeleteTasks(deleted.value, planId);
      t := Tables(
        t.users, Marked(t.plans, planId, userId), work.tasks, work.findings, work.recommendations,
        work.evidence, t.findingRisks, t.archivedPlans + [Copy(planId, plan.value)],
        archivedTasks, archivedFindings, archivedRecommendations, archivedEvidence);
      return Done;
    }
  }

  // ---------------------------------------------------------------- the order of the deletes

  lemma RecommendationsGone(t: Tables, planId: Id)
    ensures var t' := DeleteRecommendations(t, planId);
            Where(t'.recommendations, (x: Recommendation) => Refers(FindingIds(t', planId), x.findingId)) == []
  {
    var ids, t' := FindingIds(t, planId), DeleteRecommendations(t, planId);
    assert FindingIds(t', planId) == ids;
    WhereMembers(t.recommendations, (x: Recommendation) => !Refers(ids, x.findingId));
    EmptyIff(t'.recommendations, (x: Recommendation) => Refers(FindingIds(t', planId), x.findingId));
  }

  /** In the order of the source, the findings cannot be deleted exactly when a row outside the plan refers to one. */
  lemma SourceOrderFailsIff(t: Tables, planId: Id)
    ensures var t' := DeleteRecommendations(DeleteEvidence(t, planId), planId);
            && (DeleteFindings(t', planId).None? <==> FindingsStillReferenced(t, planId))
            && t' == t.(evidence := EvidenceLeft(t, planId), recommendations := RecommendationsLeft(t, planId))
  {
    var t1 := DeleteEvidence(t, planId);
    var t2 := DeleteRecommendations(t1, planId);
    assert FindingIds(t1, planId) == FindingIds(t, planId) == FindingIds(t2, planId);
    RecommendationsGone(t1, planId);
  }

  /** With the findings first they can be deleted only when nothing refers to them at all, not even rows of the plan. */
  lemma FindingsFirstFailsIff(t: Tables, planId: Id)
    ensures DeleteFindings(t, planId).None?
            <==> || (exists x :: x in t.recommendations && Refers(FindingIds(t, planId), x.findingId))
                 || (exists x :: x in t.evidence && Refers(FindingIds(t, planId), x.findingId))
                 || (exists x :: x in t.findingRisks && x.findingId in FindingIds(t, planId))
  {
    var ids := FindingIds(t, planId);
    EmptyIff(t.recommendations, (x: Recommendation) => Refers(ids, x.findingId));
    EmptyIff(t.evidence, (x: Evidence) => Refers(ids, x.findingId));
    EmptyIff(t.findingRisks, (x: FindingRisk) => x.findingId in ids);
  }

  // ---------------------------------------------------------------- conservation

  lemma {:induction false} WhereCounts<T>(rows: seq<T>, p: T -> bool, x: T)
    ensures multiset(Where(rows, p))[x] == if p(x) then multiset(rows)[x] else 0
  {
    if rows != [] {
      var head, rest := [rows[0]], rows[1..];
      WhereCounts(rest, p, x);
      assert rows == head + rest;
      MultisetOf(head, rest);
      MultisetOf(if p(rows[0]) then head else [], Where(rest, p));
    }
  }

  lemma {:induction false} CopiesCount<T>(planId: Id, rows: seq<T>, c: Copy<T>)
    ensures multiset(Copies(planId, rows))[c] == if c.planId == planId then multiset(rows)[c.row] else 0
  {
    if rows == [] {
      assert Copies(planId, rows) == [];
    } else {
      var n := |rows| - 1;
      CopiesCount(planId, rows[..n], c);
      assert rows == rows[..n] + [rows[n]];
      assert Copies(planId, rows) == Copies(planId, rows[..n]) + [Copy(planId, rows[n])];
      MultisetOf(rows[..n], [rows[n]]);
      MultisetOf(Copies(planId, rows[..n]), [Copy(planId, rows[n])]);
    }
  }

  /** Exactly the rows of which `mine` holds have left the table, each as often as it was there, for the archive. */
  ghost predicate Moved<T(!new)>(
    before: seq<T>, after: seq<T>, archive: seq<Copy<T>>, archive': seq<Copy<T>>, planId: Id, mine: T -> bool)
  {
    && (forall x :: multiset(after)[x] == if mine(x) then 0 else multiset(before)[x])
    && (forall c :: multiset(archive')[c]
                    == multiset(archive)[c] + if c.planId == planId && mine(c.row) then multiset(before)[c.row] else 0)
  }

  lemma WhereMoves<T(!new)>(
    before: seq<T>, after: seq<T>, archive: seq<Copy<T>>, archive': seq<Copy<T>>, planId: Id,
    p: T -> bool, q: T -> bool, mine: T -> bool)
    requires after == Where(before, q) && archive' == archive + Copies(planId, Where(before, p))
    requires forall x :: p(x) == mine(x) && q(x) == !mine(x)
    ensures Moved(before, after, archive, archive', planId, mine)
  {
    forall x
      ensures multiset(after)[x] == if mine(x) then 0 else multiset(before)[x]
    {
      WhereCounts(before, q, x);
    }
    forall c: Copy<T>
      ensures multiset(archive')[c]
              == multiset(archive)[c] + if c.planId == planId && mine(c.row) then multiset(before)[c.row] else 0
    {
      CopiesCount(planId, Where(before, p), c);
      WhereCounts(before, p, c.row);
      MultisetOf(archive, Copies(planId, Where(before, p)));
    }
  }

  /** A recommendation for a finding of the plan. */
  predicate ForFindingOf(t: Tables, planId: Id, x: Recommendation) {
    exists k :: 0 <= k < |t.findings| && t.findings[k].auditId == Some(planId) && x.findingId == Some(t.findings[k].id)
  }

  /** What is moved to the archive: the plan's tasks, findings and evidence, and the recommendations for its findings. */
  lemma RowsMoved(t: Tables, plan: Plan, planId: Id, userId: Id)
    ensures var t' := Archived(t, plan, planId, userId);
            && Moved(t.tasks, t'.tasks, t.archivedTasks, t'.archivedTasks, planId, (x: Task) => x.planId == planId)
            && Moved(t.findings, t'.findings, t.archivedFindings, t'.archivedFindings, planId,
                     (x: Finding) => x.auditId == Some(planId))
            && Moved(t.recommendations, t'.recommendations, t.archivedRecommendations, t'.archivedRecommendations, planId,
                     (x: Recommendation) => ForFindingOf(t, planId, x))
            && Moved(t.evidence, t'.evidence, t.archivedEvidence, t'.archivedEvidence, planId,
                     (x: Evidence) => x.auditId == Some(planId))
            && t'.archivedPlans == t.archivedPlans + [Copy(planId, plan)]
  {
    var t' := Archived(t, plan, planId, userId);
    var ids := FindingIds(t, planId);
    WhereMoves(t.tasks, t'.tasks, t.archivedTasks, t'.archivedTasks, planId,
               (x: Task) => x.planId == planId, (x: Task) => x.planId != planId, (x: Task) => x.planId == planId);
    WhereMoves(t.findings, t'.findings, t.archivedFindings, t'.archivedFindings, planId,
               (x: Finding) => x.auditId == Some(planId), (x: Finding) => x.auditId != Some(planId),
               (x: Finding) => x.auditId == Some(planId));
    RefersIff(t, planId);
    WhereMoves(t.recommendations, t'.recommendations, t.archivedRecommendations, t'.archivedRecommendations, planId,
               (x: Recommendation) => Refers(ids, x.findingId), (x: Recommendation) => !Refers(ids, x.findingId),
               (x: Recommendation) => ForFindingOf(t, planId, x));
    WhereMoves(t.evidence, t'.evidence, t.archivedEvidence, t'.archivedEvidence, planId,
               (x: Evidence) => x.auditId == Some(planId), (x: Evidence) => x.auditId != Some(planId),
               (x: Evidence) => x.auditId == Some(planId));
  }

  lemma RefersIff(t: Tables, planId: Id)
    ensures forall x: Recommendation :: Refers(FindingIds(t, planId), x.findingId) <==> ForFindingOf(t, planId, x)
  {
    WhereMembers(t.findings, (x: Finding) => x.auditId == Some(planId));
    forall x: Recommendation
      ensures Refers(FindingIds(t, planId), x.findingId) <==> ForFindingOf(t, planId, x)
    {
      if Refers(FindingIds(t, planId), x.findingId) {
        var f :| f in FindingsOf(t, planId) && f.id == x.findingId.value;
        var k :| 0 <= k < |t.findings| && t.findings[k] == f;
      }
      if k :| 0 <= k < |t.findings| && t.findings[k].auditId == Some(planId) && x.findingId == Some(t.findings[k].id) {
        assert t.findings[k] in FindingsOf(t, planId);
      }
    }
  }

  /** Every other plan keeps its tasks, findings, recommendations and evidence, in their order. */
  lemma OtherPlansKept(t: Tables, plan: Plan, planId: Id, userId: Id, other: Id)
    requires other != planId
    requires forall f, g :: f in t.findings && g in t.findings && f.id == g.id ==> f == g
    ensures var t' := Archived(t, plan, planId, userId);
            && TasksOf(t', other) == TasksOf(t, other)
            && FindingsOf(t', other) == FindingsOf(t, other)
            && RecommendationsOf(t', other) == RecommendationsOf(t, other)
            && EvidenceOf(t', other) == EvidenceOf(t, other)
  {
    WhereWhere(t.tasks, (x: Task) => x.planId == other, (x: Task) => x.planId != planId);
    WhereWhere(t.findings, (x: Finding) => x.auditId == Some(other), (x: Finding) => x.auditId != Some(planId));
    WhereWhere(t.evidence, (x: Evidence) => x.auditId == Some(other), (x: Evidence) => x.auditId != Some(planId));
    var ids, others := FindingIds(t, planId), FindingIds(t, other);
    WhereMembers(t.findings, (x: Finding) => x.auditId == Some(planId));
    WhereMembers(t.findings, (x: Finding) => x.auditId == Some(other));
    assert ids !! others;
    WhereWhere(t.recommendations, (x: Recommendation) => Refers(others, x.findingId), (x: Recommendation) => !Refers(ids, x.findingId));
  }

  // ---------------------------------------------------------------- the count checks

  /** A plan that is not archived has no copies. */
  predicate OnlyArchivedCopied(t: Tables) {
    forall p :: p in t.plans && !p.isArchived ==> NoCopiesYet(t, p.id)
  }

  lemma CopiesOfOther<T>(archived: seq<Copy<T>>, planId: Id, rows: seq<T>, other: Id)
    requires other != planId
    ensures CopiesOf(archived + Copies(planId, rows), other) == CopiesOf(archived, other)
  {
    var p := (x: Copy<T>) => x.planId == other;
    WhereConcat(archived, Copies(planId, rows), p);
    EmptyIff(Copies(planId, rows), p);
  }

  lemma {:induction false} MarkedMembers(plans: seq<Plan>, planId: Id, userId: Id)
    ensures forall p :: p in Marked(plans, planId, userId) && !p.isArchived ==> p in plans && p.id != planId
  {
    if plans != [] {
      MarkedMembers(plans[1..], planId, userId);
    }
  }

  /**
  Archiving keeps it so, which is why the count checks never fail: `ArchivePlan` answers
  `CopyIncomplete` only for a plan that already has copies.
  */
  lemma CountsNeverFail(t: Tables, planId: Id, userId: Id, role: string)
    requires OnlyArchivedCopied(t)
    ensures FindPlan(t.plans, planId).Some? ==> NoCopiesYet(t, planId)
    ensures CanArchive(t, planId, userId, role) ==>
              OnlyArchivedCopied(Archived(t, FindPlan(t.plans, planId).value, planId, userId))
  {
    if CanArchive(t, planId, userId, role) {
      var t' := Archived(t, FindPlan(t.plans, planId).value, planId, userId);
      MarkedMembers(t.plans, planId, userId);
      forall p | p in t'.plans && !p.isArchived
        ensures NoCopiesYet(t', p.id)
      {
        CopiesOfOther(t.archivedTasks, planId, TasksOf(t, planId), p.id);
        CopiesOfOther(t.archivedFindings, planId, FindingsOf(t, planId), p.id);
        CopiesOfOther(t.archivedRecommendations, planId, RecommendationsOf(t, planId), p.id);
        CopiesOfOther(t.archivedEvidence, planId, EvidenceOf(t, planId), p.id);
      }
    }
  }

  // ---------------------------------------------------------------- foreign keys

  predicate Known(t: Tables, id: Id) {
    exists i :: 0 <= i < |t.findings| && t.findings[i].id == id
  }

  /** Whoever refers to a finding refers to one that is there. */
  ghost predicate ReferencesHold(t: Tables) {
    && (forall r :: r in t.recommendations && r.findingId.Some? ==> Known(t, r.findingId.value))
    && (forall e :: e in t.evidence && e.findingId.Some? ==> Known(t, e.findingId.value))
    && (forall x :: x in t.findingRisks ==> Known(t, x.findingId))
  }

  lemma KnownStays(t: Tables, planId: Id, t': Tables, id: Id)
    requires Known(t, id) && id !in FindingIds(t, planId) && t'.findings == FindingsLeft(t, planId)
    ensures Known(t', id)
  {
    var i :| 0 <= i < |t.findings| && t.findings[i].id == id;
    var f := t.findings[i];
    WhereMembers(t.findings, (x: Finding) => x.auditId == Some(planId));
    WhereMembers(t.findings, (x: Finding) => x.auditId != Some(planId));
    assert f in t.findings;
    assert f.auditId != Some(planId);
    assert f in t'.findings;
    var j :| 0 <= j < |t'.findings| && t'.findings[j] == f;
  }

  /** No DELETE leaves a reference dangling, whatever the tables are when it runs. */
  lemma DeletesKeepReferences(t: Tables, planId: Id)
    requires ReferencesHold(t)
    ensures ReferencesHold(DeleteEvidence(t, planId))
    ensures ReferencesHold(DeleteRecommendations(t, planId))
    ensures DeleteFindings(t, planId).Some? ==> ReferencesHold(DeleteFindings(t, planId).value)
    ensures ReferencesHold(DeleteTasks(t, planId))
  {
    var ids := FindingIds(t, planId);
    WhereMembers(t.evidence, (x: Evidence) => x.auditId != Some(planId));
    WhereMembers(t.recommendations, (x: Recommendation) => !Refers(ids, x.findingId));
    assert forall id :: Known(t, id) ==> Known(DeleteEvidence(t, planId), id);
    assert forall id :: Known(t, id) ==> Known(DeleteRecommendations(t, planId), id);
    assert forall id :: Known(t, id) ==> Known(DeleteTasks(t, planId), id);
    if DeleteFindings(t, planId).Some? {
      FindingsDeleteKeepsReferences(t, planId);
    }
  }

  lemma FindingsDeleteKeepsReferences(t: Tables, planId: Id)
    requires ReferencesHold(t) && DeleteFindings(t, planId).Some?
    ensures ReferencesHold(DeleteFindings(t, planId).value)
  {
    var t' := DeleteFindings(t, planId).value;
    FindingsFirstFailsIff(t, planId);
    forall r | r in t'.recommendations && r.findingId.Some?
      ensures Known(t', r.findingId.value)
    {
      KnownStays(t, planId, t', r.findingId.value);
    }
    forall e | e in t'.evidence && e.findingId.Some?
      ensures Known(t', e.findingId.value)
    {
      KnownStays(t, planId, t', e.findingId.value);
    }
    forall x | x in t'.findingRisks
      ensures Known(t', x.findingId)
    {
      KnownStays(t, planId, t', x.findingId);
    }
  }

  /** So the references hold after every statement of the transaction, and after it. */
  lemma ReferencesKept(t: Tables, planId: Id, userId: Id, role: string)
    requires ReferencesHold(t) && CanArchive(t, planId, userId, role)
    ensures ReferencesHold(DeleteEvidence(t, planId))
    ensures ReferencesHold(DeleteRecommendations(DeleteEvidence(t, planId), planId))
    ensures ReferencesHold(Archived(t, FindPlan(t.plans, planId).value, planId, userId))
  {
    var t1 := DeleteEvidence(t, planId);
    var t2 := DeleteRecommendations(t1, planId);
    SourceOrderFailsIff(t, planId);
    DeletesKeepReferences(t, planId);
    DeletesKeepReferences(t1, planId);
    DeletesKeepReferences(t2, planId);
    var t3 := DeleteFindings(t2, planId).value;
    var t' := Archived(t, FindPlan(t.plans, planId).value, planId, userId);
    assert t'.findings == t3.findings && t'.recommendations == t3.recommendations
           && t'.evidence == t3.evidence && t'.findingRisks == t3.findingRisks;
    assert forall id :: Known(t3, id) ==> Known(t', id);
  }

  /** Evidence that agrees with its finding's plan, and findings without risks, never stop the deletes. */
  lemma AgreeingEvidenceIsEnough(t: Tables, planId: Id)
    requires forall e, f :: e in t.evidence && f in t.findings && e.findingId == Some(f.id) ==> e.auditId == f.auditId
    requires forall x, f :: x in t.findingRisks && f in FindingsOf(t, planId) ==> x.findingId != f.id
    ensures !FindingsStillReferenced(t, planId)
  {
    var ids := FindingIds(t, planId);
    WhereMembers(t.findings, (x: Finding) => x.auditId == Some(planId));
    WhereMembers(t.evidence, (x: Evidence) => x.auditId != Some(planId));
    EmptyIff(EvidenceLeft(t, planId), (x: Evidence) => Refers(ids, x.findingId));
    EmptyIff(t.findingRisks, (x: FindingRisk) => x.findingId in ids);
  }

  // ---------------------------------------------------------------- archiving twice, and NULL

  lemma {:induction false} MarkedPlans(plans: seq<Plan>, planId: Id, userId: Id)
    ensures FindPlan(Marked(plans, planId, userId), planId).None?
  {
    if plans != [] {
      MarkedPlans(plans[1..], planId, userId);
    }
  }

  /** An archived plan cannot be archived again. */
  lemma NotTwice(t: Tables, plan: Plan, planId: Id, userId: Id, role: string)
    ensures !CanArchive(Archived(t, plan, planId, userId), planId, userId, role)
  {
    MarkedPlans(t.plans, planId, userId);
  }

  /** The guards pass exactly when every row of the plan has a closing status or none at all. */
  lemma GuardsIgnoreNull(t: Tables, planId: Id)
    ensures NothingOpen(t, planId)
            <==> && (forall x :: x in t.tasks && x.planId == planId ==> x.status.None? || x.status.value == "completed")
                 && (forall x :: x in t.findings && x.auditId == Some(planId) ==> x.status.None? || x.status.value == "Closed")
                 && (forall x :: x in t.recommendations && ForFindingOf(t, planId, x) ==>
                       x.status.None? || x.status.value == "Implemented" || x.status.value == "Closed")
  {
    var ids := FindingIds(t, planId);
    EmptyIff(TasksOf(t, planId), IsOpenTask);
    EmptyIff(FindingsOf(t, planId), IsOpenFinding);
    EmptyIff(RecommendationsOf(t, planId), IsOpenRecommendation);
    WhereMembers(t.tasks, (x: Task) => x.planId == planId);
    WhereMembers(t.findings, (x: Finding) => x.auditId == Some(planId));
    WhereMembers(t.recommendations, (x: Recommendation) => Refers(ids, x.findingId));
    RefersIff(t, planId);
  }

  lemma EmptyIff<T>(rows: seq<T>, p: T -> bool)
    ensures Where(rows, p) == [] <==> forall x :: x in rows ==> !p(x)
  {
    WhereMembers(rows, p);
    var r := Where(rows, p);
    assert r != [] ==> r[0] in r;
  }
}
