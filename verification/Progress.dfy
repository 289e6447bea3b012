/** When the queue of scripts/issue_tool/issue_queue.py can stall. */
module Progress {
  import opened Prelude
  import opened Issues
  import opened Queue

  const EVERYTHING := Selection("", None, None, OpenTask)

  predicate IsOpenTask(issues: seq<Issue>, i: Issue) {
    i in TaskIssues(issues) && i.state == Open
  }

  /** Open task `i` waits for open task `j`. */
  ghost predicate WaitsFor(issues: seq<Issue>, i: Issue, j: Issue) {
    && IsOpenTask(issues, i) && IsOpenTask(issues, j)
    && exists d :: d in i.dependsOn && Resolve(TaskIssues(issues), d) == Some(j)
  }

  ghost predicate Walk(issues: seq<Issue>, p: seq<Issue>) {
    && (forall k :: 0 <= k < |p| ==> IsOpenTask(issues, p[k]))
    && (forall k :: 0 <= k < |p| - 1 ==> WaitsFor(issues, p[k], p[k + 1]))
  }

  ghost predicate Cycle(issues: seq<Issue>, p: seq<Issue>) {
    |p| >= 2 && Walk(issues, p) && p[0] == p[|p| - 1]
  }

  ghost predicate Acyclic(issues: seq<Issue>) {
    forall p :: !Cycle(issues, p)
  }

  ghost predicate AllDependenciesResolve(issues: seq<Issue>) {
    forall i, d :: IsOpenTask(issues, i) && d in i.dependsOn ==> Resolve(TaskIssues(issues), d).Some?
  }

  /** Every open task waits for some open task. */
  ghost predicate AllWaiting(issues: seq<Issue>) {
    forall i :: IsOpenTask(issues, i) ==> exists j :: WaitsFor(issues, i, j)
  }

  lemma WaitingTasksAreOpen(issues: seq<Issue>, i: Issue, j: Issue)
    requires WaitsFor(issues, i, j)
    ensures IsOpenTask(issues, i) && IsOpenTask(issues, j)
  {}

  lemma {:induction false} LongWalk(issues: seq<Issue>, start: Issue, n: nat) returns (p: seq<Issue>)
    requires AllWaiting(issues) && IsOpenTask(issues, start)
    ensures |p| == n + 1 && Walk(issues, p) && p[0] == start
    decreases n
  {
    hide IsOpenTask, WaitsFor;
    if n == 0 {
      p := [start];
    } else {
      var next :| WaitsFor(issues, start, next);
      WaitingTasksAreOpen(issues, start, next);
      var rest := LongWalk(issues, next, n - 1);
      p := [start] + rest;
    }
  }

  lemma RepeatedVisitMeansCycle(issues: seq<Issue>, walk: seq<Issue>, a: nat, b: nat)
    requires Walk(issues, walk) && a < b < |walk| && walk[a] == walk[b]
    ensures Cycle(issues, walk[a..b + 1])
  {
    hide WaitsFor, IsOpenTask;
  }

  lemma WalkStaysInside(issues: seq<Issue>, walk: seq<Issue>)
    requires Walk(issues, walk)
    ensures forall i :: i in walk ==> i in set j | j in issues
  {
    hide WaitsFor;
  }

  lemma WaitingForEverMeansCycle(issues: seq<Issue>, start: Issue) returns (p: seq<Issue>)
    requires AllWaiting(issues) && IsOpenTask(issues, start)
    ensures Cycle(issues, p)
  {
    hide AllWaiting, IsOpenTask, Walk, Cycle;
    var pool := set i | i in issues;
    var walk := LongWalk(issues, start, |pool|);
    WalkStaysInside(issues, walk);
    var a, b := Pigeonhole(walk, pool);
    RepeatedVisitMeansCycle(issues, walk, a, b);
    p := walk[a..b + 1];
  }

  /** An open task that can neither be claimed nor is in progress waits for another one. */
  lemma StuckTaskWaits(issues: seq<Issue>, i: Issue)
    requires AllDependenciesResolve(issues) && IsOpenTask(issues, i)
    requires LifecycleStatus(i) != Blocked && !Runnable(issues, i)
    ensures exists j :: WaitsFor(issues, i, j)
  {
    var d :| d in i.dependsOn && !(Resolve(TaskIssues(issues), d).Some? && Resolve(TaskIssues(issues), d).value.state == Closed);
    assert WaitsFor(issues, i, Resolve(TaskIssues(issues), d).value);
  }

  /** The queue never deadlocks: with every dependency found, no cycle among the open tasks, none of
      them blocked by label and at least one open task, either one is in progress or the queue over all
      open tasks has a next item. */
  lemma QueueNeverDeadlocks(issues: seq<Issue>)
    requires AllDependenciesResolve(issues) && Acyclic(issues)
    requires forall i :: IsOpenTask(issues, i) ==> LifecycleStatus(i) != Blocked
    requires exists i :: IsOpenTask(issues, i)
    ensures || (exists i :: IsOpenTask(issues, i) && LifecycleStatus(i) == InProgress)
            || FirstRunnable(QueueOf(issues, EVERYTHING).items).Some?
  {
    hide LifecycleStatus, QueueOf, FirstRunnable, Acyclic, Runnable, AllDependenciesResolve, Candidates;
    var start :| IsOpenTask(issues, start);
    NextIsLeastRunnable(issues, EVERYTHING);
    if (forall i :: IsOpenTask(issues, i) ==> LifecycleStatus(i) != InProgress && !Runnable(issues, i)) {
      forall i | IsOpenTask(issues, i) ensures exists j :: WaitsFor(issues, i, j) {
        StuckTaskWaits(issues, i);
      }
      var p := WaitingForEverMeansCycle(issues, start);
      AcyclicHasNo(issues, p);
    } else {
      var i :| IsOpenTask(issues, i) && (LifecycleStatus(i) == InProgress || Runnable(issues, i));
      CandidatesOfEverything(issues, i);
    }
  }

  lemma AcyclicHasNo(issues: seq<Issue>, p: seq<Issue>)
    requires Acyclic(issues)
    ensures !Cycle(issues, p)
  {}

  lemma CandidatesOfEverything(issues: seq<Issue>, i: Issue)
    ensures i in Candidates(issues, EVERYTHING) <==> IsOpenTask(issues, i) && LifecycleStatus(i) != InProgress
  {
    CandidatesAreIssues(issues, EVERYTHING);
  }

  // ---- Automatic mode can stall where open-task mode does not ----

  ghost predicate QueuedRunnable(issues: seq<Issue>, sel: Selection, i: Issue) {
    i in issues && IsTask(i) && Queued(sel, i) && Runnable(issues, i)
  }

  /** With any filters, open-task mode has a next item while automatic mode has none exactly when some
      queued task is labelled ready, no ready one can run, and some other queued task can. */
  lemma AutoStallsIff(issues: seq<Issue>, sel: Selection)
    requires sel.mode == Auto
    ensures && FirstRunnable(QueueOf(issues, sel).items).None?
            && FirstRunnable(QueueOf(issues, sel.(mode := OpenTask)).items).Some?
       <==> && (exists i :: i in issues && IsTask(i) && Queued(sel, i) && IsReady(i))
            && (forall i :: QueuedRunnable(issues, sel, i) ==> !IsReady(i))
            && (exists i :: QueuedRunnable(issues, sel, i))
  {
    hide Queued, IsTask, IsReady, SourceMode, QueuedRunnable, QueueOf, FirstRunnable;
    SourceModeIff(issues, sel);
    NextItemIff(issues, sel, sel);
    NextItemIff(issues, sel.(mode := OpenTask), sel);
    OpenTaskMode(issues, sel);
    if SourceMode(issues, sel) == ReadyOnly {
      assert FirstRunnable(QueueOf(issues, sel).items).Some? <==> exists i :: QueuedRunnable(issues, sel, i) && IsReady(i);
    }
  }

  lemma OpenTaskMode(issues: seq<Issue>, sel: Selection)
    ensures SourceMode(issues, sel.(mode := OpenTask)) == OpenTask
  {}

  /** A queue has a next item exactly when some queued issue of the chosen source can run. */
  lemma NextItemIff(issues: seq<Issue>, sel: Selection, like: Selection)
    requires sel == like.(mode := sel.mode)
    ensures FirstRunnable(QueueOf(issues, sel).items).Some?
       <==> exists i :: QueuedRunnable(issues, like, i) && (SourceMode(issues, sel) == ReadyOnly ==> IsReady(i))
  {
    forall i ensures Queued(sel, i) <==> Queued(like, i) {}
    hide Queued, IsTask, IsReady, Candidates, SourceMode, QueueOf, FirstRunnable, IssueLe, Runnable;
    CandidatesAreIssues(issues, sel);
    NextIsLeastRunnable(issues, sel);
    var r := FirstRunnable(QueueOf(issues, sel).items);
    if r.Some? { assert QueuedRunnable(issues, like, r.value.issue); }
  }

  lemma SourceModeIff(issues: seq<Issue>, sel: Selection)
    requires sel.mode == Auto
    ensures SourceMode(issues, sel) == ReadyOnly <==> exists i :: i in issues && IsTask(i) && Queued(sel, i) && IsReady(i)
    ensures SourceMode(issues, sel) == ReadyOnly || SourceMode(issues, sel) == OpenTask
  {
    hide Queued, IsTask, IsReady;
    var r := Filter(IsReady, QueuedTasks(issues, sel));
    if r != [] { assert r[0] in r; }
  }

  /** It happens whenever the only ready task waits for an open one that nobody labelled ready. */
  lemma AutoCanStall(a: Issue, b: Issue)
    requires IsTask(a) && a.state == Open && LifecycleStatus(a) == NotStarted && a.dependsOn == [] && !IsReady(a)
    requires IsTask(b) && b.state == Open && LifecycleStatus(b) == NotStarted && IsReady(b)
    requires a.number != b.number && b.dependsOn == [IssueRef(a.number)]
    ensures var sel := Selection("", None, None, Auto);
            && FirstRunnable(QueueOf([a, b], sel).items).None?
            && FirstRunnable(QueueOf([a, b], sel.(mode := OpenTask)).items).Some?
  {
    hide IsTask, IsReady, LifecycleStatus, IssueRef;
    var sel := Selection("", None, None, Auto);
    var issues := [a, b];
    var d := IssueRef(a.number);
    assert TaskIssues(issues) == issues by { FilterAll(IsTask, issues); }
    IssueRefInjective(a.number, b.number);
    assert ByIssueRef(issues[..1], d) == Some(a) by { assert issues[..1] == [a]; }
    assert ByIssueRef(issues, d) == Some(a);
    assert Resolve(issues, d) == Some(a) by { RefStartsWithHash(a.number); }
    assert d in b.dependsOn;
    assert !Runnable(issues, b) && Runnable(issues, a);
    assert a in issues && b in issues;
    assert QueuedRunnable(issues, sel, a) && Queued(sel, b);
    hide Runnable, Queued, TaskIssues;
    AutoStallsIff(issues, sel);
  }

  lemma RefStartsWithHash(n: nat)
    ensures "#" <= IssueRef(n)
  {}
}
