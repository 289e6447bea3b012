/** The dependency-gated queue of scripts/issue_tool/issue_queue.py. */
module Queue {
  import opened Prelude
  import opened Text
  import opened Sorting
  import opened Issues

  datatype QueueMode = Auto | ReadyOnly | OpenTask

  /** The selection arguments; an empty stream label selects every stream. */
  datatype Selection = Selection(streamLabel: string, fromIssue: Option<int>, fromSeq: Option<int>, mode: QueueMode)

  datatype Reason =
    | BlockedByStatus
    | MissingDependency(ref: string)
    | OpenDependency(ref: string, number: nat)

  datatype QueueItem = QueueItem(issue: Issue, runnable: bool, blockedReasons: seq<Reason>)

  datatype QueueSelection = QueueSelection(sourceMode: QueueMode, items: seq<QueueItem>)

  // ---- Resolving a dependency reference ----

  function IssueRef(n: nat): string {
    "#" + Decimal(n)
  }

  /** The dictionary from task ids: of several tasks with one id, the last counts. */
  function ByTaskId(tasks: seq<Issue>, id: string): (r: Option<Issue>)
    ensures r.Some? ==> r.value in tasks && r.value.taskId == Some(id) && id != ""
    ensures r.None? ==> forall i :: i in tasks && id != "" ==> i.taskId != Some(id)
  {
    if tasks == [] then None
    else
      var last := tasks[|tasks| - 1];
      if id != "" && last.taskId == Some(id) then Some(last) else ByTaskId(tasks[..|tasks| - 1], id)
  }

  function ByIssueRef(tasks: seq<Issue>, ref: string): (r: Option<Issue>)
    ensures r.Some? ==> r.value in tasks && IssueRef(r.value.number) == ref
    ensures r.None? ==> forall i :: i in tasks ==> IssueRef(i.number) != ref
  {
    if tasks == [] then None
    else
      var last := tasks[|tasks| - 1];
      if IssueRef(last.number) == ref then Some(last) else ByIssueRef(tasks[..|tasks| - 1], ref)
  }

  function Resolve(tasks: seq<Issue>, ref: string): (r: Option<Issue>)
    ensures r.Some? ==> r.value in tasks
  {
    if StartsWith(ref, "#") then ByIssueRef(tasks, ref) else ByTaskId(tasks, ref)
  }

  // ---- Selection and gating ----

  predicate InStream(sel: Selection, i: Issue) {
    sel.streamLabel == "" || sel.streamLabel in i.labels
  }

  predicate FromIssue(sel: Selection, i: Issue) {
    sel.fromIssue.None? || i.number >= sel.fromIssue.value
  }

  predicate FromSeq(sel: Selection, i: Issue) {
    sel.fromSeq.None? || (i.seqNo.Some? && i.seqNo.value >= sel.fromSeq.value)
  }

  predicate Queued(sel: Selection, i: Issue) {
    i.state == Open && InStream(sel, i) && FromIssue(sel, i) && FromSeq(sel, i) && LifecycleStatus(i) != InProgress
  }

  predicate IsReady(i: Issue) {
    READY in i.labels
  }

  function QueuedTasks(issues: seq<Issue>, sel: Selection): seq<Issue> {
    Filter((i: Issue) => Queued(sel, i), TaskIssues(issues))
  }

  /** `auto` means: only what is labelled ready, or everything when nothing queued is. */
  function SourceMode(issues: seq<Issue>, sel: Selection): QueueMode {
    if sel.mode != Auto then sel.mode
    else if Filter(IsReady, QueuedTasks(issues, sel)) != [] then ReadyOnly
    else OpenTask
  }

  function Candidates(issues: seq<Issue>, sel: Selection): seq<Issue> {
    if SourceMode(issues, sel) == ReadyOnly then Filter(IsReady, QueuedTasks(issues, sel)) else QueuedTasks(issues, sel)
  }

  /** At most one reason for one reference, given what it resolves to. */
  function ReasonFor(ref: string, dep: Option<Issue>): seq<Reason> {
    if dep.None? then [MissingDependency(ref)]
    else if dep.value.state != Closed then [OpenDependency(ref, dep.value.number)]
    else []
  }

  function DependencyReasons(tasks: seq<Issue>, refs: seq<string>): (r: seq<Reason>)
    ensures r == [] <==> forall d :: d in refs ==> Resolve(tasks, d).Some? && Resolve(tasks, d).value.state == Closed
  {
    if refs == [] then []
    else
      var ref := refs[|refs| - 1];
      assert forall d :: d in refs <==> d in refs[..|refs| - 1] || d == ref;
      DependencyReasons(tasks, refs[..|refs| - 1]) + ReasonFor(ref, Resolve(tasks, ref))
  }

  function BlockedReasons(tasks: seq<Issue>, i: Issue): seq<Reason> {
    (if LifecycleStatus(i) == Blocked then [BlockedByStatus] else []) + DependencyReasons(tasks, i.dependsOn)
  }

  function ToItem(tasks: seq<Issue>, i: Issue): QueueItem {
    var reasons := BlockedReasons(tasks, i);
    QueueItem(i, reasons == [], reasons)
  }

  // ---- Order ----

  function SeqKey(i: Issue): int {
    if i.seqNo.Some? then i.seqNo.value else 999_999_999
  }

  /** The four-part key: sequence number, priority, creation time, issue number. */
  predicate IssueLe(a: Issue, b: Issue) {
    if SeqKey(a) != SeqKey(b) then SeqKey(a) < SeqKey(b)
    else if PriorityRank(a) != PriorityRank(b) then PriorityRank(a) < PriorityRank(b)
    else if a.createdAt != b.createdAt then StringLe(a.createdAt, b.createdAt)
    else a.number <= b.number
  }

  predicate ItemLe(a: QueueItem, b: QueueItem) {
    IssueLe(a.issue, b.issue)
  }

  lemma ItemLeIsTotalPreorder()
    ensures TotalPreorder(ItemLe)
  {
    hide PriorityRank;
    forall a: QueueItem, b: QueueItem ensures ItemLe(a, b) || ItemLe(b, a) {
      LexTotal(Codes(a.issue.createdAt), Codes(b.issue.createdAt));
    }
    forall a: QueueItem, b: QueueItem, c: QueueItem | ItemLe(a, b) && ItemLe(b, c) ensures ItemLe(a, c) {
      var x, y, z := a.issue.createdAt, b.issue.createdAt, c.issue.createdAt;
      if StringLe(x, y) && StringLe(y, z) {
        LexTransitive(Codes(x), Codes(y), Codes(z));
        if StringLe(z, x) { StringAntisymmetric(x, z); }
        if x == z { StringAntisymmetric(x, y); }
      }
    }
  }

  // ---- The queue ----

  function QueueOf(issues: seq<Issue>, sel: Selection): QueueSelection {
    var tasks := TaskIssues(issues);
    QueueSelection(SourceMode(issues, sel),
                   SortBy(ItemLe, Map((i: Issue) => ToItem(tasks, i), Candidates(issues, sel))))
  }

  method BuildTaskIndex(tasks: seq<Issue>) returns (index: map<string, Issue>)
    ensures forall id :: (id in index <==> ByTaskId(tasks, id).Some?) && (id in index ==> Some(index[id]) == ByTaskId(tasks, id))
  {
    index := map[];
    for k := 0 to |tasks|
      invariant forall id :: (id in index <==> ByTaskId(tasks[..k], id).Some?)
                             && (id in index ==> Some(index[id]) == ByTaskId(tasks[..k], id))
    {
      var i := tasks[k];
      assert tasks[..k + 1][..k] == tasks[..k] && tasks[..k + 1][k] == i;
      if i.taskId.Some? && i.taskId.value != "" {
        index := index[i.taskId.value := i];
      }
    }
    assert tasks[..|tasks|] == tasks;
  }

  method BuildRefIndex(tasks: seq<Issue>) returns (index: map<string, Issue>)
    ensures forall r :: (r in index <==> ByIssueRef(tasks, r).Some?) && (r in index ==> Some(index[r]) == ByIssueRef(tasks, r))
  {
    hide IssueRef;
    index := map[];
    for k := 0 to |tasks|
      invariant forall r :: (r in index <==> ByIssueRef(tasks[..k], r).Some?)
                            && (r in index ==> Some(index[r]) == ByIssueRef(tasks[..k], r))
    {
      assert tasks[..k + 1][..k] == tasks[..k] && tasks[..k + 1][k] == tasks[k];
      index := index[IssueRef(tasks[k].number) := tasks[k]];
    }
    assert tasks[..|tasks|] == tasks;
  }

  /** The two dictionaries that stand for `tasks`. */
  ghost predicate IndexesTasks(tasks: seq<Issue>, byTaskId: map<string, Issue>, byIssueRef: map<string, Issue>) {
    && (forall id :: (id in byTaskId <==> ByTaskId(tasks, id).Some?)
                     && (id in byTaskId ==> Some(byTaskId[id]) == ByTaskId(tasks, id)))
    && (forall r :: (r in byIssueRef <==> ByIssueRef(tasks, r).Some?)
                    && (r in byIssueRef ==> Some(byIssueRef[r]) == ByIssueRef(tasks, r)))
  }

  lemma LookupResolves(tasks: seq<Issue>, byTaskId: map<string, Issue>, byIssueRef: map<string, Issue>, ref: string)
    requires IndexesTasks(tasks, byTaskId, byIssueRef)
    ensures var index := if StartsWith(ref, "#") then byIssueRef else byTaskId;
            && Resolve(tasks, ref) == (if ref in index then Some(index[ref]) else None)
            && ReasonFor(ref, Resolve(tasks, ref))
               == (if ref !in index then [MissingDependency(ref)]
                   else if index[ref].state != Closed then [OpenDependency(ref, index[ref].number)]
                   else [])
  {}

  /** The inner loop: why one issue cannot start. */
  method CollectReasons(ghost tasks: seq<Issue>, byTaskId: map<string, Issue>, byIssueRef: map<string, Issue>,
                        issue: Issue) returns (reasons: seq<Reason>)
    requires IndexesTasks(tasks, byTaskId, byIssueRef)
    ensures reasons == BlockedReasons(tasks, issue)
  {
    hide LifecycleStatus, DependencyReasons, Resolve, IndexesTasks, ReasonFor;
    reasons := if LifecycleStatus(issue) == Blocked then [BlockedByStatus] else [];
    ghost var status := reasons;
    var refs := issue.dependsOn;
    assert DependencyReasons(tasks, refs[..0]) == [] by { NoReferencesNoReasons(tasks); }
    for d := 0 to |refs|
      invariant reasons == status + DependencyReasons(tasks, refs[..d])
    {
      var ref := refs[d];
      var index := if StartsWith(ref, "#") then byIssueRef else byTaskId;
      DependencyReasonsStep(tasks, refs, d);
      LookupResolves(tasks, byTaskId, byIssueRef, ref);
      if ref !in index {
        reasons := reasons + [MissingDependency(ref)];
      } else if index[ref].state != Closed {
        reasons := reasons + [OpenDependency(ref, index[ref].number)];
      } else {
        assert reasons + [] == reasons;
      }
    }
    assert refs[..|refs|] == refs;
  }

  lemma NoReferencesNoReasons(tasks: seq<Issue>)
    ensures DependencyReasons(tasks, []) == []
  {}

  lemma DependencyReasonsStep(tasks: seq<Issue>, refs: seq<string>, d: nat)
    requires d < |refs|
    ensures DependencyReasons(tasks, refs[..d + 1])
         == DependencyReasons(tasks, refs[..d]) + ReasonFor(refs[d], Resolve(tasks, refs[d]))
  {
    assert refs[..d + 1][..d] == refs[..d] && refs[..d + 1][d] == refs[d];
  }

  method BuildQueue(issues: seq<Issue>, sel: Selection) returns (q: QueueSelection)
    ensures q == QueueOf(issues, sel)
  {
    hide BlockedReasons, SortBy, ByTaskId, ByIssueRef, TaskIssues, Candidates, SourceMode;
    var tasks := TaskIssues(issues);
    var byTaskId := BuildTaskIndex(tasks);
    var byIssueRef := BuildRefIndex(tasks);
    var candidates := Candidates(issues, sel);
    var items: seq<QueueItem> := [];
    for k := 0 to |candidates|
      invariant |items| == k && forall j :: 0 <= j < k ==> items[j] == ToItem(tasks, candidates[j])
    {
      var reasons := CollectReasons(tasks, byTaskId, byIssueRef, candidates[k]);
      items := items + [QueueItem(candidates[k], reasons == [], reasons)];
    }
    assert items == Map((i: Issue) => ToItem(tasks, i), candidates);
    q := QueueSelection(SourceMode(issues, sel), SortBy(ItemLe, items));
  }

  /** The first runnable item; None is the error for an empty or fully blocked queue. */
  function FirstRunnable(items: seq<QueueItem>): Option<QueueItem> {
    if items == [] then None else if items[0].runnable then Some(items[0]) else FirstRunnable(items[1..])
  }

  method ChooseNextRunnable(selection: QueueSelection) returns (r: Option<QueueItem>)
    ensures r == FirstRunnable(selection.items)
  {
    for k := 0 to |selection.items|
      invariant FirstRunnable(selection.items) == FirstRunnable(selection.items[k..])
    {
      if selection.items[k].runnable {
        return Some(selection.items[k]);
      }
    }
    r := None;
  }

  // ---- What a queue contains ----

  /** The gate: open, selected, not in progress, not blocked, every dependency found and closed. */
  ghost predicate Runnable(issues: seq<Issue>, i: Issue) {
    && LifecycleStatus(i) != Blocked
    && forall d :: d in i.dependsOn ==> Resolve(TaskIssues(issues), d).Some? && Resolve(TaskIssues(issues), d).value.state == Closed
  }

  lemma QueueMembers(issues: seq<Issue>, sel: Selection)
    ensures forall it :: it in QueueOf(issues, sel).items
                    <==> it.issue in Candidates(issues, sel) && it == ToItem(TaskIssues(issues), it.issue)
    ensures forall it :: it in QueueOf(issues, sel).items ==> (it.runnable <==> Runnable(issues, it.issue))
  {
    hide SortBy, Candidates, TaskIssues, LifecycleStatus;
    var f := (i: Issue) => ToItem(TaskIssues(issues), i);
    var mapped := Map(f, Candidates(issues, sel));
    SortByElements(ItemLe, mapped);
    forall it ensures it in mapped <==> it.issue in Candidates(issues, sel) && it == f(it.issue) {
      if it.issue in Candidates(issues, sel) && it == f(it.issue) {
        var k :| 0 <= k < |Candidates(issues, sel)| && Candidates(issues, sel)[k] == it.issue;
        assert mapped[k] == it;
      }
    }
  }

  lemma QueueIsSorted(issues: seq<Issue>, sel: Selection)
    ensures Sorted(ItemLe, QueueOf(issues, sel).items)
  {
    ItemLeIsTotalPreorder();
    SortBySorted(ItemLe, Map((i: Issue) => ToItem(TaskIssues(issues), i), Candidates(issues, sel)));
  }

  lemma {:induction false} FirstRunnableIsLeast(items: seq<QueueItem>)
    requires Sorted(ItemLe, items)
    ensures match FirstRunnable(items)
            case None => forall it :: it in items ==> !it.runnable
            case Some(x) => x in items && x.runnable && forall it :: it in items && it.runnable && it != x ==> ItemLe(x, it)
  {
    if items != [] && !items[0].runnable {
      FirstRunnableIsLeast(items[1..]);
    }
  }

  /** The next item is a least runnable candidate, and there is none only if no candidate is runnable. */
  lemma NextIsLeastRunnable(issues: seq<Issue>, sel: Selection)
    ensures match FirstRunnable(QueueOf(issues, sel).items)
            case None => forall i :: i in Candidates(issues, sel) ==> !Runnable(issues, i)
            case Some(x) =>
              && x.issue in Candidates(issues, sel) && Runnable(issues, x.issue)
              && forall i :: i in Candidates(issues, sel) && Runnable(issues, i) && i != x.issue ==> IssueLe(x.issue, i)
  {
    hide Candidates, Runnable, QueueOf, IssueLe;
    var items := QueueOf(issues, sel).items;
    var f := (i: Issue) => ToItem(TaskIssues(issues), i);
    QueueMembers(issues, sel);
    QueueIsSorted(issues, sel);
    FirstRunnableIsLeast(items);
    forall i | i in Candidates(issues, sel) ensures f(i) in items && f(i).issue == i {}
  }

  // ---- Order independence ----

  predicate SameTaskId(a: Issue, b: Issue) {
    a.taskId.Some? && a.taskId.value != "" && a.taskId == b.taskId
  }

  /** Unique issue numbers, and unique task ids among task issues. */
  ghost predicate UniqueIds(issues: seq<Issue>) {
    && Distinct(issues)
    && (forall a, b :: a in issues && b in issues && a.number == b.number ==> a == b)
    && (forall a, b :: a in TaskIssues(issues) && b in TaskIssues(issues) && SameTaskId(a, b) ==> a == b)
  }

  ghost predicate SameElements<T(!new)>(xs: seq<T>, ys: seq<T>) {
    forall x :: x in xs <==> x in ys
  }

  lemma IssueRefInjective(m: nat, n: nat)
    ensures IssueRef(m) == IssueRef(n) <==> m == n
  {
    DecimalInjective(m, n);
    assert IssueRef(m)[1..] == Decimal(m) && IssueRef(n)[1..] == Decimal(n);
  }

  lemma ResolveIgnoresOrder(issues: seq<Issue>, other: seq<Issue>, ref: string)
    requires UniqueIds(issues) && SameElements(issues, other)
    ensures Resolve(TaskIssues(issues), ref) == Resolve(TaskIssues(other), ref)
  {
    hide Decimal, IsTask, ByTaskId, ByIssueRef;
    var a, b := Resolve(TaskIssues(issues), ref), Resolve(TaskIssues(other), ref);
    assert forall i :: i in TaskIssues(issues) <==> i in TaskIssues(other);
    if StartsWith(ref, "#") && a.Some? && b.Some? {
      IssueRefInjective(a.value.number, b.value.number);
    }
  }

  lemma {:induction false} ReasonsIgnoreOrder(issues: seq<Issue>, other: seq<Issue>, refs: seq<string>)
    requires UniqueIds(issues) && SameElements(issues, other)
    ensures DependencyReasons(TaskIssues(issues), refs) == DependencyReasons(TaskIssues(other), refs)
  {
    if refs != [] {
      ReasonsIgnoreOrder(issues, other, refs[..|refs| - 1]);
      ResolveIgnoresOrder(issues, other, refs[|refs| - 1]);
    }
  }

  lemma CandidatesIgnoreOrder(issues: seq<Issue>, other: seq<Issue>, sel: Selection)
    requires SameElements(issues, other)
    ensures SourceMode(issues, sel) == SourceMode(other, sel)
    ensures SameElements(Candidates(issues, sel), Candidates(other, sel))
  {
    var a, b := QueuedTasks(issues, sel), QueuedTasks(other, sel);
    assert SameElements(a, b);
    assert SameElements(Filter(IsReady, a), Filter(IsReady, b));
    hide QueuedTasks;
    var x, y := Filter(IsReady, a), Filter(IsReady, b);
    assert x == [] <==> y == [] by {
      assert x != [] ==> x[0] in x;
      assert y != [] ==> y[0] in y;
    }
  }

  lemma ItemsAreDistinct(issues: seq<Issue>, sel: Selection)
    requires Distinct(issues)
    ensures Distinct(QueueOf(issues, sel).items)
  {
    hide LifecycleStatus, SortBy, ToItem;
    FilterDistinct(IsTask, issues);
    FilterDistinct((i: Issue) => Queued(sel, i), TaskIssues(issues));
    FilterDistinct(IsReady, QueuedTasks(issues, sel));
    var c := Candidates(issues, sel);
    assert Distinct(c);
    hide Candidates;
    var mapped := Map((i: Issue) => ToItem(TaskIssues(issues), i), c);
    assert Distinct(mapped) by {
      forall j, k | 0 <= j < k < |c| ensures mapped[j] != mapped[k] {
        assert mapped[j].issue == c[j] && mapped[k].issue == c[k] by { ToItemKeepsIssue(issues, c[j]); ToItemKeepsIssue(issues, c[k]); }
      }
    }
    SortByDistinct(ItemLe, mapped);
  }

  lemma ToItemKeepsIssue(issues: seq<Issue>, i: Issue)
    ensures ToItem(TaskIssues(issues), i).issue == i
  {}

  lemma CandidatesAreIssues(issues: seq<Issue>, sel: Selection)
    ensures forall i :: i in Candidates(issues, sel) <==>
              i in issues && IsTask(i) && Queued(sel, i) && (SourceMode(issues, sel) == ReadyOnly ==> IsReady(i))
  {
    hide LifecycleStatus, SourceMode;
  }

  /** The queue does not depend on the order in which the tracker returned the issues. */
  lemma QueueIgnoresFetchOrder(issues: seq<Issue>, other: seq<Issue>, sel: Selection)
    requires UniqueIds(issues) && multiset(issues) == multiset(other)
    ensures QueueOf(issues, sel) == QueueOf(other, sel)
  {
    hide Candidates, SourceMode, QueueOf, TaskIssues;
    forall x ensures x in issues <==> x in other {
      assert x in issues <==> x in multiset(issues);
      assert x in other <==> x in multiset(other);
    }
    DistinctCounts(issues);
    CountsDistinct(other);
    CandidatesIgnoreOrder(issues, other, sel);
    CandidatesAreIssues(issues, sel);
    QueueMembers(issues, sel);
    QueueMembers(other, sel);
    forall i: Issue ensures ToItem(TaskIssues(issues), i) == ToItem(TaskIssues(other), i) {
      ReasonsIgnoreOrder(issues, other, i.dependsOn);
    }
    var xs, ys := QueueOf(issues, sel).items, QueueOf(other, sel).items;
    forall it ensures it in xs <==> it in ys {
      assert ToItem(TaskIssues(issues), it.issue) == ToItem(TaskIssues(other), it.issue);
    }
    QueueIsSorted(issues, sel);
    QueueIsSorted(other, sel);
    ItemsAreDistinct(issues, sel);
    ItemsAreDistinct(other, sel);
    forall a, b | a in xs && b in xs && ItemLe(a, b) && ItemLe(b, a) ensures a == b {
      EquallyRanked(a.issue, b.issue);
    }
    SortedUnique(ItemLe, xs, ys);
    SelectionMode(issues, sel);
    SelectionMode(other, sel);
  }

  lemma SelectionMode(issues: seq<Issue>, sel: Selection)
    ensures QueueOf(issues, sel).sourceMode == SourceMode(issues, sel)
  {}

  lemma EquallyRanked(a: Issue, b: Issue)
    requires IssueLe(a, b) && IssueLe(b, a)
    ensures a.number == b.number
  {
    hide PriorityRank;
    if a.createdAt != b.createdAt && StringLe(a.createdAt, b.createdAt) && StringLe(b.createdAt, a.createdAt) {
      StringAntisymmetric(a.createdAt, b.createdAt);
    }
  }
}
