/** The issue auditor (scripts/issue_tool/audit.py) against the reconciler and the queue. */
module Audit {
  import opened Prelude
  import opened Issues
  import opened Queue

  datatype Finding =
    | ParentIsTask(number: nat)
    | ParentInProgress(number: nat)
    | ParentHasLifecycle(number: nat)
    | ParentHasSeq(number: nat)
    | ParentHasDependencies(number: nat)
    | StatusCount(number: nat)
    | OpenTaskDone(number: nat)
    | ClosedTaskNotDone(number: nat)
    | ReadyNotStartable(number: nat)
    | MissingSeq(number: nat)
    | MissingTaskId(number: nat)
    | SelfDependency(number: nat)
    | NextNotStartable(number: nat)

  /** The findings about status labels and `ready`. */
  predicate IsLabelFinding(f: Finding) {
    f.StatusCount? || f.OpenTaskDone? || f.ClosedTaskNotDone? || f.ReadyNotStartable?
  }

  function When(condition: bool, f: Finding): (r: seq<Finding>)
    ensures forall x :: x in r <==> condition && x == f
  {
    if condition then [f] else []
  }

  function ParentFindings(i: Issue): seq<Finding> {
    if !IsParentCr(i) then []
    else
      When("type:task" in i.labels, ParentIsTask(i.number))
      + When(IN_PROGRESS in i.labels, ParentInProgress(i.number))
      + When(NOT_STARTED in i.labels || BLOCKED in i.labels, ParentHasLifecycle(i.number))
      + When(i.seqNo.Some?, ParentHasSeq(i.number))
      + When(i.dependsOn != [], ParentHasDependencies(i.number))
  }

  predicate OneStatus(states: seq<string>) {
    states != [] && forall s :: s in states ==> s == states[0]
  }

  function SelfDependencies(i: Issue, refs: seq<string>): (r: seq<Finding>)
    ensures forall f :: f in r ==> f == SelfDependency(i.number)
  {
    if refs == [] then []
    else
      var ref := refs[|refs| - 1];
      SelfDependencies(i, refs[..|refs| - 1]) + When("TASK-" <= ref && Some(ref) == i.taskId, SelfDependency(i.number))
  }

  /** With anything but one status label the auditor reports that and looks no further. */
  function TaskFindings(i: Issue): seq<Finding> {
    var states := StatusLabels(i);
    if !OneStatus(states) then [StatusCount(i.number)]
    else
      LabelFindings(i, states[0]) + MarkerFindings(i) + SelfDependencies(i, i.dependsOn)
  }

  function LabelFindings(i: Issue, status: string): seq<Finding> {
    When(i.state == Open && status == DONE, OpenTaskDone(i.number))
    + When(i.state == Closed && status != DONE, ClosedTaskNotDone(i.number))
    + When(READY in i.labels && status != NOT_STARTED, ReadyNotStartable(i.number))
  }

  function MarkerFindings(i: Issue): seq<Finding> {
    When(i.state == Open && i.seqNo.None?, MissingSeq(i.number))
    + When(i.state == Open && i.taskId.None?, MissingTaskId(i.number))
  }

  const AUTOMATIC := Selection("", None, None, Auto)

  /** The closing gate: what the automatic queue would start next must not have been started. */
  function GateFindings(issues: seq<Issue>): seq<Finding> {
    match FirstRunnable(QueueOf(issues, AUTOMATIC).items)
    case None => []
    case Some(next) => When(LifecycleStatus(next.issue) != NotStarted, NextNotStartable(next.issue.number))
  }

  function Collect(findings: Issue -> seq<Finding>, issues: seq<Issue>): seq<Finding> {
    if issues == [] then [] else Collect(findings, issues[..|issues| - 1]) + findings(issues[|issues| - 1])
  }

  function AuditOf(issues: seq<Issue>): seq<Finding> {
    Collect(ParentFindings, issues) + Collect(TaskFindings, TaskIssues(issues)) + GateFindings(issues)
  }

  method AuditLabels(i: Issue, status: string) returns (findings: seq<Finding>)
    ensures findings == LabelFindings(i, status)
  {
    hide NOT_STARTED, DONE, READY;
    findings := [];
    if i.state == Open && status == DONE { findings := findings + [OpenTaskDone(i.number)]; }
    if i.state == Closed && status != DONE { findings := findings + [ClosedTaskNotDone(i.number)]; }
    if READY in i.labels && status != NOT_STARTED { findings := findings + [ReadyNotStartable(i.number)]; }
  }

  method AuditTask(i: Issue) returns (findings: seq<Finding>)
    ensures findings == TaskFindings(i)
  {
    hide StatusLabels, LabelFindings, SelfDependencies;
    var states := StatusLabels(i);
    if !OneStatus(states) {
      return [StatusCount(i.number)];
    }
    findings := AuditLabels(i, states[0]);
    ghost var labelFindings := findings;
    if i.state == Open && i.seqNo.None? { findings := findings + [MissingSeq(i.number)]; }
    if i.state == Open && i.taskId.None? { findings := findings + [MissingTaskId(i.number)]; }
    assert findings == labelFindings + MarkerFindings(i);
    hide MarkerFindings;
    ghost var before := findings;
    var refs := i.dependsOn;
    assert SelfDependencies(i, refs[..0]) == [] by { NoRefsNoSelfDependency(i); }
    for d := 0 to |refs|
      invariant findings == before + SelfDependencies(i, refs[..d])
    {
      SelfDependenciesStep(i, refs, d);
      if "TASK-" <= refs[d] && Some(refs[d]) == i.taskId {
        findings := findings + [SelfDependency(i.number)];
      }
    }
    assert refs[..|refs|] == refs;
  }

  lemma NoRefsNoSelfDependency(i: Issue)
    ensures SelfDependencies(i, []) == []
  {}

  lemma SelfDependenciesStep(i: Issue, refs: seq<string>, d: nat)
    requires d < |refs|
    ensures SelfDependencies(i, refs[..d + 1])
         == SelfDependencies(i, refs[..d]) + When("TASK-" <= refs[d] && Some(refs[d]) == i.taskId, SelfDependency(i.number))
  {
    assert refs[..d + 1][..d] == refs[..d] && refs[..d + 1][d] == refs[d];
  }

  lemma CollectStep(f: Issue -> seq<Finding>, issues: seq<Issue>, k: nat)
    requires k < |issues|
    ensures Collect(f, issues[..k + 1]) == Collect(f, issues[..k]) + f(issues[k])
  {
    assert issues[..k + 1][..k] == issues[..k];
  }

  method AuditIssues(issues: seq<Issue>) returns (findings: seq<Finding>)
    ensures findings == AuditOf(issues)
  {
    hide ParentFindings, TaskFindings, TaskIssues, QueueOf, LifecycleStatus, FirstRunnable;
    findings := [];
    var taskIssues := TaskIssues(issues);
    for k := 0 to |issues|
      invariant findings == Collect(ParentFindings, issues[..k])
    {
      CollectStep(ParentFindings, issues, k);
      findings := findings + ParentFindings(issues[k]);
    }
    assert issues[..|issues|] == issues;
    ghost var parents := findings;
    for k := 0 to |taskIssues|
      invariant findings == parents + Collect(TaskFindings, taskIssues[..k])
    {
      CollectStep(TaskFindings, taskIssues, k);
      var more := AuditTask(taskIssues[k]);
      findings := findings + more;
    }
    assert taskIssues[..|taskIssues|] == taskIssues;
    var selection := BuildQueue(issues, AUTOMATIC);
    var next := ChooseNextRunnable(selection);
    if next.Some? && LifecycleStatus(next.value.issue) != NotStarted {
      findings := findings + [NextNotStartable(next.value.issue.number)];
    }
  }

  // ---- The auditor agrees with the reconciler ----

  ghost predicate NoLabelFinding(findings: seq<Finding>) {
    forall f :: f in findings ==> !IsLabelFinding(f)
  }

  lemma OneStatusIff(i: Issue)
    ensures OneStatus(StatusLabels(i)) <==> exists s :: SetOf(StatusLabels(i)) == {s}
    ensures OneStatus(StatusLabels(i)) ==> SetOf(StatusLabels(i)) == {StatusLabels(i)[0]}
  {
    hide StatusLabels;
    var states := StatusLabels(i);
    assert OneStatus(states) ==> SetOf(states) == {states[0]};
    if s :| SetOf(states) == {s} {
      assert s in SetOf(states);
      assert forall t :: t in states ==> t in SetOf(states);
      assert states != [] && states[0] in states;
    }
  }

  lemma LabelFindingsOf(i: Issue)
    requires OneStatus(StatusLabels(i))
    ensures var status := StatusLabels(i)[0];
            NoLabelFinding(TaskFindings(i))
            <==> && (i.state == Open ==> status != DONE)
                 && (i.state == Closed ==> status == DONE)
                 && (READY in i.labels ==> status == NOT_STARTED)
  {
    hide StatusLabels, NOT_STARTED, DONE, READY, When, SelfDependencies;
    var status := StatusLabels(i)[0];
    assert OpenTaskDone(i.number) in TaskFindings(i) <==> i.state == Open && status == DONE;
    assert ClosedTaskNotDone(i.number) in TaskFindings(i) <==> i.state == Closed && status != DONE;
    assert ReadyNotStartable(i.number) in TaskFindings(i) <==> READY in i.labels && status != NOT_STARTED;
    assert forall f :: f in TaskFindings(i) && IsLabelFinding(f) ==>
      f == OpenTaskDone(i.number) || f == ClosedTaskNotDone(i.number) || f == ReadyNotStartable(i.number);
  }

  /** The status label, the state and the choice of the reconciler. */
  lemma ChoiceWithOneStatus(i: Issue)
    requires OneStatus(StatusLabels(i))
    ensures var status := StatusLabels(i)[0];
            ChooseReconciledStatus(i) == status
            <==> (i.state == Open ==> status != DONE) && (i.state == Closed ==> status == DONE)
  {
    StatusLabelsMembers(i);
    var states := StatusLabels(i);
    assert states[0] in states && IsStatusLabel(states[0]);
    hide StatusLabels;
  }

  /** On one task the auditor has nothing to say about labels exactly when its labels are clean, that is
      exactly when the reconciler would leave it alone. */
  lemma AuditorAgreesWithReconciler(i: Issue)
    ensures NoLabelFinding(TaskFindings(i)) <==> CleanLabels(i)
    ensures NoLabelFinding(TaskFindings(i)) <==> ReconcileIssueLabelChanges(i) == NO_CHANGE
  {
    hide ReconcileIssueLabelChanges;
    ReconcileIdleIffClean(i);
    OneStatusIff(i);
    if OneStatus(StatusLabels(i)) {
      LabelFindingsOf(i);
      ChoiceWithOneStatus(i);
      CleanWithOneStatus(i);
    } else {
      assert TaskFindings(i) == [StatusCount(i.number)];
      assert TaskFindings(i)[0] in TaskFindings(i);
    }
  }

  lemma CleanWithOneStatus(i: Issue)
    requires OneStatus(StatusLabels(i))
    ensures CleanLabels(i)
       <==> ChooseReconciledStatus(i) == StatusLabels(i)[0] && (READY in i.labels ==> StatusLabels(i)[0] == NOT_STARTED)
  {
    OneStatusIff(i);
    StatusLabelsMembers(i);
    StatusLabelFacts(i);
    hide StatusLabels, IsStatusLabel, ChooseReconciledStatus;
    var states := StatusLabels(i);
    assert states[0] in states;
    assert SetOf(states) == {ChooseReconciledStatus(i)} ==> states[0] in {ChooseReconciledStatus(i)};
    if NOT_STARTED in i.labels { assert NOT_STARTED in states; }
  }

  lemma {:induction false} CollectMembers(f: Issue -> seq<Finding>, issues: seq<Issue>)
    ensures forall x :: x in Collect(f, issues) <==> exists i :: i in issues && x in f(i)
  {
    if issues != [] {
      var init, last := issues[..|issues| - 1], issues[|issues| - 1];
      CollectMembers(f, init);
      assert issues == init + [last];
    }
  }

  /** A clean queue candidate that is not in progress and not blocked has not been started. */
  lemma CleanCandidateIsNotStarted(i: Issue)
    requires CleanLabels(i) && i.state == Open && LifecycleStatus(i) != InProgress && LifecycleStatus(i) != Blocked
    ensures LifecycleStatus(i) == NotStarted
  {
    CleanLabelsIff(i);
    StatusLabelsMembers(i);
    assert IsStatusLabel(DONE) && IsStatusLabel(BLOCKED) && IsStatusLabel(IN_PROGRESS);
    hide StatusLabels, IsStatusLabel;
  }

  /** With clean labels on every task the gate never fires. */
  lemma GateIsSilentOnCleanLabels(issues: seq<Issue>)
    requires forall i :: i in TaskIssues(issues) ==> CleanLabels(i)
    ensures GateFindings(issues) == []
  {
    hide QueueOf, Candidates, FirstRunnable, CleanLabels, LifecycleStatus, IsTask, IssueLe;
    CandidatesAreIssues(issues, AUTOMATIC);
    NextIsLeastRunnable(issues, AUTOMATIC);
    var next := FirstRunnable(QueueOf(issues, AUTOMATIC).items);
    if next.Some? {
      CleanCandidateIsNotStarted(next.value.issue);
    }
  }

  /** `make issues-reconcile`: the change applied to every task issue. */
  function ReconcileTask(i: Issue): Issue {
    if IsTask(i) then Reconciled(i) else i
  }

  function ReconcileAll(issues: seq<Issue>): seq<Issue> {
    Map(ReconcileTask, issues)
  }

  method ReconcileIssues(issues: seq<Issue>) returns (changed: nat, reconciled: seq<Issue>)
    ensures reconciled == ReconcileAll(issues)
    ensures changed == 0 <==> forall i :: i in TaskIssues(issues) ==> ReconcileIssueLabelChanges(i) == NO_CHANGE
  {
    hide ReconcileIssueLabelChanges, IsTask, Relabelled;
    changed, reconciled := 0, [];
    for k := 0 to |issues|
      invariant reconciled == ReconcileAll(issues)[..k]
      invariant changed == 0 <==> forall j :: 0 <= j < k && IsTask(issues[j]) ==> ReconcileIssueLabelChanges(issues[j]) == NO_CHANGE
    {
      var issue := issues[k];
      if IsTask(issue) {
        var change := ReconcileIssueLabelChanges(issue);
        if change != NO_CHANGE {
          changed := changed + 1;
        }
        reconciled := reconciled + [issue.(labels := Relabelled(issue.labels, change))];
      } else {
        reconciled := reconciled + [issue];
      }
    }
  }

  lemma ReconcileTaskKeepsKind(i: Issue)
    ensures IsTask(ReconcileTask(i)) <==> IsTask(i)
    ensures IsTask(i) ==> CleanLabels(ReconcileTask(i))
    ensures ReconcileTask(i) == i.(labels := ReconcileTask(i).labels)
    ensures IsTask(i) ==> ReconcileIssueLabelChanges(ReconcileTask(i)) == NO_CHANGE
  {
    hide ReconcileIssueLabelChanges, CleanLabels, Reconciled, IsStatusLabel, IsParentCr, READY;
    TaskLabelIsKept();
    ReconcileCleans(i);
    SameTitleSameKind(i, Reconciled(i));
  }

  lemma TaskLabelIsKept()
    ensures !IsStatusLabel("type:task") && "type:task" != READY
  {}

  lemma SameTitleSameKind(i: Issue, j: Issue)
    requires i.title == j.title
    ensures IsParentCr(i) <==> IsParentCr(j)
  {}

  lemma ReconciledTasksAreClean(issues: seq<Issue>)
    ensures forall i :: i in TaskIssues(ReconcileAll(issues)) ==> CleanLabels(i) && ReconcileIssueLabelChanges(i) == NO_CHANGE
  {
    hide ReconcileIssueLabelChanges, CleanLabels, ReconcileTask, IsTask;
    forall i | i in TaskIssues(ReconcileAll(issues)) ensures CleanLabels(i) && ReconcileIssueLabelChanges(i) == NO_CHANGE {
      var k :| 0 <= k < |issues| && ReconcileAll(issues)[k] == i;
      ReconcileTaskKeepsKind(issues[k]);
    }
  }

  lemma UpdateWithNothing(labels: seq<string>)
    ensures Relabelled(labels, NO_CHANGE) == labels
  {
    FilterAll((l: string) => l !in NO_CHANGE.remove, labels);
  }

  /** The command reaches every task, and nothing but the tasks. */
  lemma ReconcileAllIs(issues: seq<Issue>, k: nat)
    requires k < |issues|
    ensures |ReconcileAll(issues)| == |issues|
    ensures ReconcileAll(issues)[k] == if "type:task" in issues[k].labels && !IsParentCr(issues[k]) then Reconciled(issues[k]) else issues[k]
  {
    hide IsParentCr, Reconciled;
  }

  /** A second reconcile changes nothing at all. */
  lemma ReconcileAllIsIdempotent(issues: seq<Issue>)
    ensures ReconcileAll(ReconcileAll(issues)) == ReconcileAll(issues)
  {
    hide ReconcileIssueLabelChanges, CleanLabels, IsTask, Relabelled;
    forall k | 0 <= k < |issues| ensures ReconcileTask(ReconcileTask(issues[k])) == ReconcileTask(issues[k]) {
      ReconcileTaskKeepsKind(issues[k]);
      UpdateWithNothing(ReconcileTask(issues[k]).labels);
    }
  }

  ghost predicate NoLabelOrGateFinding(findings: seq<Finding>) {
    NoLabelFinding(findings) && forall f :: f in findings ==> !f.NextNotStartable?
  }

  lemma OtherFindingsAreNot(i: Issue)
    ensures NoLabelOrGateFinding(ParentFindings(i))
    ensures forall f :: f in TaskFindings(i) ==> !f.NextNotStartable?
  {
    hide IsParentCr, StatusLabels, OneStatus, When, SelfDependencies, IN_PROGRESS, NOT_STARTED, BLOCKED, DONE, READY;
    assert forall f :: f in ParentFindings(i) ==>
        f.ParentIsTask? || f.ParentInProgress? || f.ParentHasLifecycle? || f.ParentHasSeq? || f.ParentHasDependencies?;
  }

  lemma AuditMembers(issues: seq<Issue>)
    ensures forall f :: f in AuditOf(issues) <==>
              || (exists i :: i in issues && f in ParentFindings(i))
              || (exists i :: i in TaskIssues(issues) && f in TaskFindings(i))
              || f in GateFindings(issues)
  {
    hide ParentFindings, TaskFindings, GateFindings, TaskIssues;
    CollectMembers(ParentFindings, issues);
    CollectMembers(TaskFindings, TaskIssues(issues));
  }

  lemma GateMembers(issues: seq<Issue>)
    ensures forall f :: f in GateFindings(issues) ==> f.NextNotStartable?
  {
    hide QueueOf, FirstRunnable, LifecycleStatus;
  }

  /** The auditor reports no label error and its gate stays silent exactly when the reconciler has
      nothing to do on any task. */
  lemma AuditCleanIffNothingToReconcile(issues: seq<Issue>)
    ensures NoLabelOrGateFinding(AuditOf(issues))
       <==> forall i :: i in TaskIssues(issues) ==> ReconcileIssueLabelChanges(i) == NO_CHANGE
  {
    hide ParentFindings, TaskFindings, GateFindings, TaskIssues, AuditOf, ReconcileIssueLabelChanges, CleanLabels;
    AuditMembers(issues);
    GateMembers(issues);
    forall i: Issue
      ensures NoLabelFinding(TaskFindings(i)) <==> ReconcileIssueLabelChanges(i) == NO_CHANGE
      ensures NoLabelFinding(TaskFindings(i)) <==> CleanLabels(i)
      ensures NoLabelOrGateFinding(ParentFindings(i))
      ensures forall f :: f in TaskFindings(i) ==> !f.NextNotStartable?
    {
      AuditorAgreesWithReconciler(i);
      OtherFindingsAreNot(i);
    }
    if forall i :: i in TaskIssues(issues) ==> ReconcileIssueLabelChanges(i) == NO_CHANGE {
      GateIsSilentOnCleanLabels(issues);
    }
  }

  /** Reconcile, then audit: no label error, no gate finding. */
  lemma ReconcileThenAuditIsClean(issues: seq<Issue>)
    ensures NoLabelOrGateFinding(AuditOf(ReconcileAll(issues)))
  {
    ReconciledTasksAreClean(issues);
    AuditCleanIffNothingToReconcile(ReconcileAll(issues));
  }

  // ---- When each finding is raised ----

  /** The one status label of a task that carries no other. */
  ghost predicate OnlyStatus(i: Issue, status: string) {
    && status in ["status:not-started", "status:in-progress", "status:blocked", "status:done"] && status in i.labels
    && forall l :: l in i.labels && l in ["status:not-started", "status:in-progress", "status:blocked", "status:done"] ==> l == status
  }

  /** The findings on one parent, by its fields. */
  lemma ParentFindingsByFields(i: Issue, f: Finding)
    ensures f in ParentFindings(i)
       <==> && IsParentCr(i) && f.number == i.number
            && match f
               case ParentIsTask(_) => "type:task" in i.labels
               case ParentInProgress(_) => "status:in-progress" in i.labels
               case ParentHasLifecycle(_) => "status:not-started" in i.labels || "status:blocked" in i.labels
               case ParentHasSeq(_) => i.seqNo.Some?
               case ParentHasDependencies(_) => i.dependsOn != []
               case _ => false
  {
    hide IsParentCr;
  }

  lemma OnlyStatusIff(i: Issue, status: string)
    ensures OnlyStatus(i, status) <==> OneStatus(StatusLabels(i)) && StatusLabels(i)[0] == status
  {
    StatusLabelsMembers(i);
    var states := StatusLabels(i);
    hide StatusLabels;
    assert states != [] ==> states[0] in states;
  }

  lemma SelfDependencyIff(i: Issue, refs: seq<string>)
    ensures SelfDependency(i.number) in SelfDependencies(i, refs)
       <==> exists d :: d in refs && |d| >= 5 && d[..5] == "TASK-" && i.taskId == Some(d)
  {
    if refs != [] {
      var init, last := refs[..|refs| - 1], refs[|refs| - 1];
      SelfDependencyIff(i, init);
      assert refs == init + [last];
    }
  }

  /** The findings on one task that has one status label, by its fields. */
  lemma TaskFindingsByFields(i: Issue, status: string, f: Finding)
    requires OnlyStatus(i, status)
    ensures f in TaskFindings(i)
       <==> && f.number == i.number
            && match f
               case OpenTaskDone(_) => i.state == Open && status == "status:done"
               case ClosedTaskNotDone(_) => i.state == Closed && status != "status:done"
               case ReadyNotStartable(_) => "ready" in i.labels && status != "status:not-started"
               case MissingSeq(_) => i.state == Open && i.seqNo.None?
               case MissingTaskId(_) => i.state == Open && i.taskId.None?
               case SelfDependency(_) => exists d :: d in i.dependsOn && |d| >= 5 && d[..5] == "TASK-" && i.taskId == Some(d)
               case _ => false
  {
    OnlyStatusIff(i, status);
    SelfDependencyIff(i, i.dependsOn);
    hide StatusLabels, OneStatus, OnlyStatus, SelfDependencies;
    assert f in TaskFindings(i) <==> f in LabelFindings(i, status) || f in MarkerFindings(i) || f in SelfDependencies(i, i.dependsOn);
  }

  /** Without exactly one, the count is the only finding. */
  lemma TaskWithoutOneStatus(i: Issue)
    requires forall status :: !OnlyStatus(i, status)
    ensures TaskFindings(i) == [StatusCount(i.number)]
  {
    hide StatusLabels, OneStatus, OnlyStatus;
    if OneStatus(StatusLabels(i)) { FirstStatus(i); }
  }

  lemma FirstStatus(i: Issue)
    requires OneStatus(StatusLabels(i))
    ensures exists status :: OnlyStatus(i, status)
  {
    OnlyStatusIff(i, StatusLabels(i)[0]);
  }

  /** The whole audit: the findings on every parent, on every task, and the gate. */
  lemma AuditByFields(issues: seq<Issue>, f: Finding)
    ensures f in AuditOf(issues)
       <==> || (exists i :: i in issues && f in ParentFindings(i))
            || (exists i :: i in issues && "type:task" in i.labels && !IsParentCr(i) && f in TaskFindings(i))
            || f in GateFindings(issues)
  {
    hide ParentFindings, TaskFindings, GateFindings, IsParentCr, AuditOf;
    AuditMembers(issues);
  }

  /** The gate fires exactly when the issue that the automatic queue would start next is done, or not marked
      as not started. */
  lemma GateFiresIff(issues: seq<Issue>, f: Finding)
    ensures f in GateFindings(issues)
       <==> match FirstRunnable(QueueOf(issues, Selection("", None, None, Auto)).items)
            case None => false
            case Some(next) =>
              && f == NextNotStartable(next.issue.number)
              && ("status:done" in next.issue.labels || "status:not-started" !in next.issue.labels)
  {
    hide QueueOf, FirstRunnable, IsTask, IssueLe;
    CandidatesAreIssues(issues, AUTOMATIC);
    NextIsLeastRunnable(issues, AUTOMATIC);
    hide Candidates, SourceMode;
  }
}
