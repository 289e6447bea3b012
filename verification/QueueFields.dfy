/** The queue of `Queue`, said by the fields and labels of the issues alone: what it holds, what can start,
    and in which order. */
module QueueFields {
  import opened Prelude
  import opened Text
  import opened Sorting
  import opened Issues
  import opened Queue

  // ---- What the queue holds ----

  /** An open task that the selection does not leave out and that nobody works on. */
  ghost predicate IsWaiting(sel: Selection, i: Issue) {
    && "type:task" in i.labels && !IsParentCr(i) && i.state == Open
    && (sel.streamLabel == "" || sel.streamLabel in i.labels)
    && (sel.fromIssue.Some? ==> i.number >= sel.fromIssue.value)
    && (sel.fromSeq.Some? ==> i.seqNo.Some? && i.seqNo.value >= sel.fromSeq.value)
    && ("status:in-progress" in i.labels ==> "status:blocked" in i.labels)
  }

  /** Only tasks labelled `ready` count: on request, or automatically as soon as there is one. */
  ghost predicate OnlyReady(issues: seq<Issue>, sel: Selection) {
    sel.mode == ReadyOnly || (sel.mode == Auto && exists i :: i in issues && IsWaiting(sel, i) && "ready" in i.labels)
  }

  lemma WaitingIsQueued(sel: Selection, i: Issue)
    ensures IsWaiting(sel, i) <==> IsTask(i) && Queued(sel, i)
  {
    hide IsParentCr;
  }

  lemma SourceModeByFields(issues: seq<Issue>, sel: Selection)
    ensures SourceMode(issues, sel) == if OnlyReady(issues, sel) then ReadyOnly else OpenTask
  {
    hide IsWaiting, Queued, IsTask;
    var ready := Filter(IsReady, QueuedTasks(issues, sel));
    forall i ensures i in ready <==> i in issues && IsWaiting(sel, i) && "ready" in i.labels {
      WaitingIsQueued(sel, i);
    }
    assert ready != [] ==> ready[0] in ready;
  }

  /** An issue is in the queue exactly when it is waiting, and labelled `ready` where only those count; and the
      queue says which of the two it is. */
  lemma QueueHoldsIff(issues: seq<Issue>, sel: Selection, i: Issue)
    ensures (exists it :: it in QueueOf(issues, sel).items && it.issue == i)
       <==> i in issues && IsWaiting(sel, i) && (OnlyReady(issues, sel) ==> "ready" in i.labels)
    ensures QueueOf(issues, sel).sourceMode == if OnlyReady(issues, sel) then ReadyOnly else OpenTask
  {
    hide IsWaiting, Queued, IsTask, OnlyReady, SourceMode, Candidates, ToItem;
    QueueMembers(issues, sel);
    CandidatesAreIssues(issues, sel);
    SourceModeByFields(issues, sel);
    WaitingIsQueued(sel, i);
    var item := ToItem(TaskIssues(issues), i);
    ToItemKeepsIssue(issues, i);
    assert i in Candidates(issues, sel) ==> item in QueueOf(issues, sel).items;
  }

  // ---- What can start ----

  /** `d` is written "#" and the number of task `j`, or is its task id. */
  predicate Names(d: string, j: Issue) {
    if d != "" && d[0] == '#' then d == "#" + Decimal(j.number) else d != "" && j.taskId == Some(d)
  }

  lemma ResolveByFields(issues: seq<Issue>, d: string, j: Issue)
    requires UniqueIds(issues)
    ensures Resolve(TaskIssues(issues), d) == Some(j) <==> j in issues && IsTask(j) && Names(d, j)
  {
    hide Decimal, IsTask, ByTaskId, ByIssueRef;
    var tasks := TaskIssues(issues);
    var r := Resolve(tasks, d);
    assert StartsWith(d, "#") <==> d != "" && d[0] == '#';
    if r.Some? && j in tasks && Names(d, j) {
      if StartsWith(d, "#") { IssueRefInjective(r.value.number, j.number); }
    }
  }

  /** With unique ids, an item can start exactly when it is not labelled blocked and each dependency names a
      closed task. */
  lemma RunnableByFields(issues: seq<Issue>, sel: Selection, it: QueueItem)
    requires UniqueIds(issues) && it in QueueOf(issues, sel).items
    ensures it.runnable
       <==> && "status:blocked" !in it.issue.labels
            && forall d :: d in it.issue.dependsOn ==>
                 exists j :: j in issues && "type:task" in j.labels && !IsParentCr(j) && Names(d, j) && j.state == Closed
  {
    hide QueueOf, Names, IsParentCr, UniqueIds, Resolve, TaskIssues;
    QueueMembers(issues, sel);
    var tasks := TaskIssues(issues);
    forall d ensures (Resolve(tasks, d).Some? && Resolve(tasks, d).value.state == Closed)
                <==> exists j :: j in issues && IsTask(j) && Names(d, j) && j.state == Closed
    {
      if Resolve(tasks, d).Some? { ResolveByFields(issues, d, Resolve(tasks, d).value); }
      if j :| j in issues && IsTask(j) && Names(d, j) && j.state == Closed { ResolveByFields(issues, d, j); }
    }
    assert LifecycleStatus(it.issue) == Blocked <==> "status:blocked" in it.issue.labels;
  }

  // ---- In which order ----

  /** The labels of the four priorities, compared without regard to case. */
  const PRIORITIES: seq<seq<string>> :=
    [["p0", "priority:p0", "priority:high", "priority:critical"],
     ["p1", "priority:p1", "priority:medium"],
     ["p2", "priority:p2", "priority:low"],
     ["p3", "priority:p3"]]

  ghost predicate Carries(i: Issue, names: seq<string>) {
    exists l :: l in i.labels && Lower(l) in names
  }

  /** The first priority with a label on the issue; without any it comes after all of them. */
  ghost predicate HasPriority(i: Issue, p: nat) {
    && p <= 4 && (forall q :: 0 <= q < p ==> !Carries(i, PRIORITIES[q])) && (p < 4 ==> Carries(i, PRIORITIES[p]))
  }

  /** Before, or equal, in code points. */
  ghost predicate NotAfter(s: string, t: string) {
    s <= t || exists k :: 0 <= k < |s| && k < |t| && s[..k] == t[..k] && s[k] as int < t[k] as int
  }

  function SeqOrLast(i: Issue): int {
    match i.seqNo
    case None => 999999999
    case Some(n) => n
  }

  /** What of two issues comes first: by Seq, those without one last; then by priority; then by the time of
      creation; then by number. */
  ghost predicate Precedes(a: Issue, p: nat, b: Issue, q: nat) {
    || SeqOrLast(a) < SeqOrLast(b)
    || (&& SeqOrLast(a) == SeqOrLast(b)
        && (|| p < q
            || (&& p == q
                && (if a.createdAt != b.createdAt then NotAfter(a.createdAt, b.createdAt) else a.number <= b.number))))
  }

  lemma AnyMeansCarries(i: Issue, names: seq<string>)
    ensures HasAny(Map(Lower, i.labels), names) <==> Carries(i, names)
  {
    hide Lower;
    var lowered := Map(Lower, i.labels);
    if w :| w in names && w in lowered {
      var k :| 0 <= k < |lowered| && lowered[k] == w;
      assert i.labels[k] in i.labels && Lower(i.labels[k]) in names;
    }
    if l :| l in i.labels && Lower(l) in names {
      var k :| 0 <= k < |i.labels| && i.labels[k] == l;
      assert lowered[k] == Lower(l);
    }
  }

  lemma RankIsPriority(i: Issue, p: nat)
    requires HasPriority(i, p)
    ensures PriorityRank(i) == if p == 4 then 50 else p
  {
    hide Carries, HasAny, Map;
    AnyMeansCarries(i, PRIORITIES[0]);
    AnyMeansCarries(i, PRIORITIES[1]);
    AnyMeansCarries(i, PRIORITIES[2]);
    AnyMeansCarries(i, PRIORITIES[3]);
  }

  lemma SomePriority(i: Issue) returns (p: nat)
    ensures HasPriority(i, p)
  {
    hide Carries;
    p := if Carries(i, PRIORITIES[0]) then 0 else if Carries(i, PRIORITIES[1]) then 1
         else if Carries(i, PRIORITIES[2]) then 2 else if Carries(i, PRIORITIES[3]) then 3 else 4;
  }

  /** Every queue is in this order. */
  lemma QueueIsSortedByFields(issues: seq<Issue>, sel: Selection, j: nat, k: nat, p: nat, q: nat)
    requires j < k < |QueueOf(issues, sel).items|
    requires HasPriority(QueueOf(issues, sel).items[j].issue, p) && HasPriority(QueueOf(issues, sel).items[k].issue, q)
    ensures Precedes(QueueOf(issues, sel).items[j].issue, p, QueueOf(issues, sel).items[k].issue, q)
  {
    hide QueueOf, PriorityRank, HasPriority, StringLe;
    QueueIsSorted(issues, sel);
    var a, b := QueueOf(issues, sel).items[j], QueueOf(issues, sel).items[k];
    assert ItemLe(a, b);
    RankIsPriority(a.issue, p);
    RankIsPriority(b.issue, q);
    PriorityIsSmall(a.issue, p);
    PriorityIsSmall(b.issue, q);
    StringLeIff(a.issue.createdAt, b.issue.createdAt);
  }

  lemma PriorityIsSmall(i: Issue, p: nat)
    requires HasPriority(i, p)
    ensures p <= 4
  {}

  /** So the next item comes first, in this order, of all that can start. */
  lemma NextPrecedes(issues: seq<Issue>, sel: Selection, other: QueueItem, p: nat, q: nat)
    requires FirstRunnable(QueueOf(issues, sel).items).Some?
    requires other in QueueOf(issues, sel).items && other.runnable
    requires HasPriority(FirstRunnable(QueueOf(issues, sel).items).value.issue, p) && HasPriority(other.issue, q)
    ensures var next := FirstRunnable(QueueOf(issues, sel).items).value;
            next == other || Precedes(next.issue, p, other.issue, q)
  {
    hide QueueOf, PriorityRank, HasPriority, StringLe;
    QueueIsSorted(issues, sel);
    var items := QueueOf(issues, sel).items;
    FirstRunnableIsLeast(items);
    var next := FirstRunnable(items).value;
    RankIsPriority(next.issue, p);
    RankIsPriority(other.issue, q);
    PriorityIsSmall(next.issue, p);
    PriorityIsSmall(other.issue, q);
    StringLeIff(next.issue.createdAt, other.issue.createdAt);
  }
}
