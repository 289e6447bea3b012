/** Several workers take work from the queue (scripts/issue_tool): each snapshots the tracker, chooses a
    runnable item of its possibly stale snapshot, claims it after re-reading the labels, and closes what
    was claimed. Dependencies are not edited, issues are not reopened or created. */
module Workflow {
  import opened Prelude
  import opened Issues
  import opened Queue

  /** `claimed` is every issue number ever claimed, `closedLog` the numbers closed since the start, in order. */
  datatype State = State(
    tracker: seq<Issue>,
    snapshots: map<nat, seq<Issue>>,
    claimed: set<nat>,
    closedLog: seq<nat>)

  datatype Step =
    | Snapshot(worker: nat, fetched: seq<Issue>)
    | Claim(worker: nat, sel: Selection, item: QueueItem, at: nat)
    | Relabel(at: nat, labels: seq<string>)
    | Close(at: nat)

  /** What each step needs, and what it does. A snapshot may list the issues in any order. Relabelling
      stands for every other label change: unclaim, reconcile, closeout, manual edits. */
  ghost predicate Next(s: State, step: Step, t: State) {
    match step
    case Snapshot(w, fetched) =>
      multiset(fetched) == multiset(s.tracker) && t == s.(snapshots := s.snapshots[w := fetched])
    case Claim(w, sel, item, at) =>
      && w in s.snapshots && item in QueueOf(s.snapshots[w], sel).items && item.runnable
      && at < |s.tracker| && s.tracker[at].number == item.issue.number
      && Claimable(s.tracker[at].labels)
      && t == s.(tracker := s.tracker[at := WithLabels(s.tracker[at], Relabelled(s.tracker[at].labels, ClaimChange(s.tracker[at].labels)))],
                 claimed := s.claimed + {s.tracker[at].number})
    case Relabel(at, labels) =>
      at < |s.tracker| && t == s.(tracker := s.tracker[at := WithLabels(s.tracker[at], labels)])
    case Close(at) =>
      && at < |s.tracker| && s.tracker[at].state == Open && s.tracker[at].number in s.claimed
      && t == s.(tracker := s.tracker[at := s.tracker[at].(state := Closed)],
                 closedLog := s.closedLog + [s.tracker[at].number])
  }

  function WithLabels(i: Issue, labels: seq<string>): Issue {
    i.(labels := labels)
  }

  /** Which steps can be taken: a worker may fetch the tracker at any time; it may claim an item that can start
      in its snapshot and whose issue is, by now, marked as not started and nothing else; labels may change at
      any time; and an open issue that was claimed may be closed. */
  lemma StepsAreTaken(s: State, w: nat, fetched: seq<Issue>, sel: Selection, item: QueueItem, at: nat, labels: seq<string>)
    ensures (exists t :: Next(s, Snapshot(w, fetched), t)) <==> multiset(fetched) == multiset(s.tracker)
    ensures (exists t :: Next(s, Claim(w, sel, item, at), t))
       <==> && w in s.snapshots && item in QueueOf(s.snapshots[w], sel).items && item.runnable
            && at < |s.tracker| && s.tracker[at].number == item.issue.number
            && "status:not-started" in s.tracker[at].labels && "status:in-progress" !in s.tracker[at].labels
            && "status:blocked" !in s.tracker[at].labels && "status:done" !in s.tracker[at].labels
    ensures (exists t :: Next(s, Relabel(at, labels), t)) <==> at < |s.tracker|
    ensures (exists t :: Next(s, Close(at), t))
       <==> at < |s.tracker| && s.tracker[at].state == Open && s.tracker[at].number in s.claimed
    ensures forall t :: Next(s, Claim(w, sel, item, at), t) ==>
              t.claimed == s.claimed + {item.issue.number} && t.snapshots == s.snapshots && t.closedLog == s.closedLog
    ensures forall t :: Next(s, Close(at), t) ==>
              && t.closedLog == s.closedLog + [s.tracker[at].number] && t.claimed == s.claimed
              && t.tracker == s.tracker[at := s.tracker[at].(state := Closed)]
  {
    hide QueueOf, Relabelled, ClaimChange;
    assert multiset(fetched) == multiset(s.tracker) ==> Next(s, Snapshot(w, fetched), s.(snapshots := s.snapshots[w := fetched]));
    if at < |s.tracker| {
      var i := s.tracker[at];
      assert Next(s, Relabel(at, labels), s.(tracker := s.tracker[at := WithLabels(i, labels)]));
      var claimed := s.(tracker := s.tracker[at := WithLabels(i, Relabelled(i.labels, ClaimChange(i.labels)))],
                        claimed := s.claimed + {i.number});
      var closed := s.(tracker := s.tracker[at := i.(state := Closed)], closedLog := s.closedLog + [i.number]);
      assert i.state == Open && i.number in s.claimed ==> Next(s, Close(at), closed);
      if w in s.snapshots && item in QueueOf(s.snapshots[w], sel).items && item.runnable {
        assert i.number == item.issue.number && Claimable(i.labels) ==> Next(s, Claim(w, sel, item, at), claimed);
      }
    }
  }

  ghost predicate Starts(s: State) {
    s.snapshots == map[] && s.claimed == {} && s.closedLog == [] && NumbersAreUnique(s.tracker)
  }

  ghost predicate Run(states: seq<State>, steps: seq<Step>) {
    && |states| == |steps| + 1 && Starts(states[0])
    && forall k :: 0 <= k < |steps| ==> Next(states[k], steps[k], states[k + 1])
  }

  /** No two issues of the tracker share a number. */
  ghost predicate NumbersAreUnique(tracker: seq<Issue>) {
    forall a, b :: 0 <= a < b < |tracker| ==> tracker[a].number != tracker[b].number
  }

  /** No two issues of the tracker share a task id. */
  ghost predicate TaskIdsAreUnique(tracker: seq<Issue>) {
    forall a, b :: 0 <= a < b < |tracker| ==> !SameTaskId(tracker[a], tracker[b])
  }

  /** `ref` names issue `j`. */
  predicate RefersTo(ref: string, j: Issue) {
    if "#" <= ref then IssueRef(j.number) == ref else ref != "" && j.taskId == Some(ref)
  }

  /** The dependency `ref` is one of the tracker's issues, and it is closed. */
  ghost predicate DependencyClosed(tracker: seq<Issue>, ref: string) {
    exists j :: 0 <= j < |tracker| && RefersTo(ref, tracker[j]) && tracker[j].state == Closed
  }

  ghost predicate ReadyToWork(tracker: seq<Issue>, k: nat)
    requires k < |tracker|
  {
    forall d :: d in tracker[k].dependsOn ==> DependencyClosed(tracker, d)
  }

  /** The same issue later on: its identity and dependencies stay, and it is not reopened. */
  predicate Later(i: Issue, j: Issue) {
    i.number == j.number && i.taskId == j.taskId && i.dependsOn == j.dependsOn && (i.state == Closed ==> j.state == Closed)
  }

  ghost predicate SnapshotIsOld(snapshot: seq<Issue>, tracker: seq<Issue>) {
    forall i :: i in snapshot ==> exists k :: 0 <= k < |tracker| && Later(i, tracker[k])
  }

  /** What every step keeps; `first` is the tracker at the start. */
  ghost predicate Invariant(first: seq<Issue>, s: State) {
    && |s.tracker| == |first| && NumbersAreUnique(s.tracker)
    && (forall k :: 0 <= k < |first| ==> Later(first[k], s.tracker[k]))
    && (forall w :: w in s.snapshots ==> SnapshotIsOld(s.snapshots[w], s.tracker))
    && (forall k :: 0 <= k < |first| && s.tracker[k].number in s.claimed ==> ReadyToWork(s.tracker, k))
    && (forall k :: 0 <= k < |first| && s.tracker[k].state == Closed ==>
          first[k].state == Closed || s.tracker[k].number in s.closedLog)
    && (forall n :: n in s.closedLog ==> exists k :: 0 <= k < |first| && s.tracker[k].number == n && s.tracker[k].state == Closed)
    && (forall k :: 0 <= k < |first| && first[k].state == Closed ==> first[k].number !in s.closedLog)
    && Distinct(s.closedLog)
    && (forall p, k :: 0 <= p < |s.closedLog| && 0 <= k < |first| && first[k].number == s.closedLog[p] ==>
          ClosedInTurn(first, s.closedLog, p, k))
  }

  /** Before entry `p` of the closing log, all dependencies of issue `k` were closed: at the start, or
      earlier in the log. */
  ghost predicate ClosedInTurn(first: seq<Issue>, closedLog: seq<nat>, p: nat, k: nat)
    requires p < |closedLog| && k < |first|
  {
    forall d :: d in first[k].dependsOn ==> ClosedBefore(first, closedLog[..p], d)
  }

  ghost predicate ClosedBefore(first: seq<Issue>, earlier: seq<nat>, d: string) {
    exists j :: 0 <= j < |first| && RefersTo(d, first[j]) && (first[j].state == Closed || first[j].number in earlier)
  }

  lemma ResolvedIsReferred(tasks: seq<Issue>, ref: string)
    ensures Resolve(tasks, ref).Some? ==> RefersTo(ref, Resolve(tasks, ref).value)
  {}

  lemma ReadyStaysReady(tracker: seq<Issue>, later: seq<Issue>, k: nat)
    requires |tracker| == |later| && k < |tracker| && ReadyToWork(tracker, k)
    requires forall j :: 0 <= j < |tracker| ==> Later(tracker[j], later[j])
    ensures ReadyToWork(later, k)
  {
    forall d | d in later[k].dependsOn ensures DependencyClosed(later, d) {
      assert DependencyClosed(tracker, d);
      var j :| 0 <= j < |tracker| && RefersTo(d, tracker[j]) && tracker[j].state == Closed;
      assert Later(tracker[j], later[j]) && RefersTo(d, later[j]);
    }
  }

  lemma OldStaysOld(snapshot: seq<Issue>, tracker: seq<Issue>, later: seq<Issue>)
    requires SnapshotIsOld(snapshot, tracker) && |tracker| == |later|
    requires forall j :: 0 <= j < |tracker| ==> Later(tracker[j], later[j])
    ensures SnapshotIsOld(snapshot, later)
  {
    forall i | i in snapshot ensures exists k :: 0 <= k < |later| && Later(i, later[k]) {
      var k :| 0 <= k < |tracker| && Later(i, tracker[k]);
      assert Later(tracker[k], later[k]);
    }
  }

  /** A runnable item of a stale snapshot: its dependencies are closed in the tracker now. */
  lemma RunnableMeansReady(snapshot: seq<Issue>, tracker: seq<Issue>, sel: Selection, item: QueueItem, at: nat)
    requires SnapshotIsOld(snapshot, tracker) && NumbersAreUnique(tracker)
    requires item in QueueOf(snapshot, sel).items && item.runnable
    requires at < |tracker| && tracker[at].number == item.issue.number
    ensures ReadyToWork(tracker, at)
  {
    hide QueueOf, LifecycleStatus, IsTask, Candidates, RefersTo;
    QueueMembers(snapshot, sel);
    CandidatesAreIssues(snapshot, sel);
    assert item.issue in snapshot;
    var k :| 0 <= k < |tracker| && Later(item.issue, tracker[k]);
    assert k == at;
    forall d | d in tracker[at].dependsOn ensures DependencyClosed(tracker, d) {
      var dep := Resolve(TaskIssues(snapshot), d);
      assert dep.Some? && dep.value.state == Closed;
      ResolvedIsReferred(TaskIssues(snapshot), d);
      assert dep.value in snapshot;
      var j :| 0 <= j < |tracker| && Later(dep.value, tracker[j]);
      SameReference(d, dep.value, tracker[j]);
    }
  }

  lemma SameReference(d: string, i: Issue, j: Issue)
    requires RefersTo(d, i) && i.number == j.number && i.taskId == j.taskId
    ensures RefersTo(d, j)
  {}

  /** Changing one entry to a later version of itself keeps everything that speaks only of the tracker. */
  lemma EntryChange(first: seq<Issue>, s: State, at: nat, entry: Issue, t: State)
    requires Invariant(first, s) && at < |s.tracker| && Later(s.tracker[at], entry)
    requires t.tracker == s.tracker[at := entry] && t.snapshots == s.snapshots
    ensures |t.tracker| == |first| && NumbersAreUnique(t.tracker)
    ensures forall k :: 0 <= k < |first| ==> Later(first[k], t.tracker[k])
    ensures forall w :: w in t.snapshots ==> SnapshotIsOld(t.snapshots[w], t.tracker)
    ensures forall k :: 0 <= k < |first| && ReadyToWork(s.tracker, k) ==> ReadyToWork(t.tracker, k)
  {
    hide ReadyToWork, SnapshotIsOld;
    assert forall j :: 0 <= j < |s.tracker| ==> Later(s.tracker[j], t.tracker[j]);
    forall w | w in t.snapshots ensures SnapshotIsOld(t.snapshots[w], t.tracker) {
      OldStaysOld(s.snapshots[w], s.tracker, t.tracker);
    }
    forall k | 0 <= k < |first| && ReadyToWork(s.tracker, k) ensures ReadyToWork(t.tracker, k) {
      ReadyStaysReady(s.tracker, t.tracker, k);
    }
  }

  lemma SnapshotKeeps(first: seq<Issue>, s: State, w: nat, fetched: seq<Issue>, t: State)
    requires Invariant(first, s) && Next(s, Snapshot(w, fetched), t)
    ensures Invariant(first, t)
  {
    hide ReadyToWork, ClosedInTurn;
    forall i | i in fetched ensures exists k :: 0 <= k < |t.tracker| && Later(i, t.tracker[k]) {
      assert i in multiset(fetched);
      assert i in s.tracker;
      var k :| 0 <= k < |s.tracker| && s.tracker[k] == i;
      assert Later(i, t.tracker[k]);
    }
  }

  lemma ClaimKeeps(first: seq<Issue>, s: State, w: nat, sel: Selection, item: QueueItem, at: nat, t: State)
    requires Invariant(first, s) && Next(s, Claim(w, sel, item, at), t)
    ensures Invariant(first, t)
    ensures ReadyToWork(s.tracker, at)
  {
    hide ReadyToWork, ClosedInTurn, SnapshotIsOld, QueueOf, Relabelled, ClaimChange, Claimable;
    RunnableMeansReady(s.snapshots[w], s.tracker, sel, item, at);
    EntryChange(first, s, at, t.tracker[at], t);
  }

  lemma RelabelKeeps(first: seq<Issue>, s: State, at: nat, labels: seq<string>, t: State)
    requires Invariant(first, s) && Next(s, Relabel(at, labels), t)
    ensures Invariant(first, t)
  {
    hide ReadyToWork, ClosedInTurn, SnapshotIsOld;
    EntryChange(first, s, at, t.tracker[at], t);
  }

  /** When a claimed issue is closed, its dependencies have been closed before. */
  lemma ClosesInTurn(first: seq<Issue>, s: State, at: nat)
    requires Invariant(first, s) && at < |s.tracker| && s.tracker[at].number in s.claimed
    ensures forall d :: d in first[at].dependsOn ==> ClosedBefore(first, s.closedLog, d)
  {
    hide RefersTo, ClosedInTurn, SnapshotIsOld;
    forall d | d in first[at].dependsOn ensures ClosedBefore(first, s.closedLog, d) {
      assert Later(first[at], s.tracker[at]);
      assert ReadyToWork(s.tracker, at) && DependencyClosed(s.tracker, d);
      var j :| 0 <= j < |s.tracker| && RefersTo(d, s.tracker[j]) && s.tracker[j].state == Closed;
      assert Later(first[j], s.tracker[j]);
      SameReference(d, s.tracker[j], first[j]);
    }
  }

  lemma CloseKeeps(first: seq<Issue>, s: State, at: nat, t: State)
    requires Invariant(first, s) && Next(s, Close(at), t)
    ensures Invariant(first, t)
  {
    hide ReadyToWork, SnapshotIsOld, ClosedBefore;
    EntryChange(first, s, at, t.tracker[at], t);
    ClosesInTurn(first, s, at);
    var n := s.tracker[at].number;
    assert forall k :: 0 <= k < |first| ==> Later(first[k], s.tracker[k]);
    assert n !in s.closedLog;
    forall p, k | 0 <= p < |t.closedLog| && 0 <= k < |first| && first[k].number == t.closedLog[p]
      ensures ClosedInTurn(first, t.closedLog, p, k)
    {
      if p < |s.closedLog| {
        assert t.closedLog[..p] == s.closedLog[..p];
        assert ClosedInTurn(first, s.closedLog, p, k);
      } else {
        assert t.closedLog[..p] == s.closedLog;
        assert k == at;
      }
    }
  }

  lemma StepKeeps(first: seq<Issue>, s: State, step: Step, t: State)
    requires Invariant(first, s) && Next(s, step, t)
    ensures Invariant(first, t)
  {
    hide Invariant, Next;
    match step
    case Snapshot(w, fetched) => SnapshotKeeps(first, s, w, fetched, t);
    case Claim(w, sel, item, at) => ClaimKeeps(first, s, w, sel, item, at, t);
    case Relabel(at, labels) => RelabelKeeps(first, s, at, labels, t);
    case Close(at) => CloseKeeps(first, s, at, t);
  }

  lemma {:induction false} RunKeeps(states: seq<State>, steps: seq<Step>, n: nat)
    requires Run(states, steps) && n < |states|
    ensures Invariant(states[0].tracker, states[n])
  {
    hide Next;
    if n > 0 {
      RunKeeps(states, steps, n - 1);
      StepKeeps(states[0].tracker, states[n - 1], steps[n - 1], states[n]);
    }
  }

  /** Whatever the workers do and however stale their snapshots are, an issue is claimed only when all of
      its dependencies are closed in the tracker at that moment. */
  lemma ClaimsAreGated(states: seq<State>, steps: seq<Step>, n: nat)
    requires Run(states, steps) && n < |steps| && steps[n].Claim?
    ensures steps[n].at < |states[n].tracker| && ReadyToWork(states[n].tracker, steps[n].at)
  {
    hide Invariant, ReadyToWork;
    RunKeeps(states, steps, n);
    assert Next(states[n], steps[n], states[n + 1]);
    var Claim(w, sel, item, at) := steps[n];
    ClaimKeeps(states[0].tracker, states[n], w, sel, item, at, states[n + 1]);
  }

  /** The issues that dependency `ref` of issue `i` names. */
  ghost predicate DependsOnIssue(i: Issue, j: Issue) {
    exists d :: d in i.dependsOn && RefersTo(d, j)
  }

  lemma ReferenceIsUnique(first: seq<Issue>, d: string, j: nat, k: nat)
    requires NumbersAreUnique(first) && TaskIdsAreUnique(first) && j < |first| && k < |first|
    requires RefersTo(d, first[j]) && RefersTo(d, first[k])
    ensures j == k
  {
    hide RefersTo;
    if j < k {
      LaterIssueHasOtherReferences(first, d, j, k);
    } else if k < j {
      LaterIssueHasOtherReferences(first, d, k, j);
    }
  }

  lemma LaterIssueHasOtherReferences(first: seq<Issue>, d: string, j: nat, k: nat)
    requires NumbersAreUnique(first) && TaskIdsAreUnique(first) && j < k < |first| && RefersTo(d, first[j])
    ensures !RefersTo(d, first[k])
  {
    IssueRefInjective(first[j].number, first[k].number);
    hide IssueRef;
    assert !SameTaskId(first[j], first[k]);
  }

  /** If only claimed issues are closed, the order in which they are closed extends the dependency order:
      an issue is closed after every issue it depends on. */
  lemma ClosingOrderExtendsDependencies(states: seq<State>, steps: seq<Step>, n: nat, p: nat, q: nat, i: nat, j: nat)
    requires Run(states, steps) && n < |states| && TaskIdsAreUnique(states[0].tracker)
    requires p < |states[n].closedLog| && q < |states[n].closedLog|
    requires i < |states[0].tracker| && states[0].tracker[i].number == states[n].closedLog[p]
    requires j < |states[0].tracker| && states[0].tracker[j].number == states[n].closedLog[q]
    requires DependsOnIssue(states[0].tracker[i], states[0].tracker[j])
    ensures q < p
  {
    hide RefersTo, ReadyToWork, SnapshotIsOld, Next;
    RunKeeps(states, steps, n);
    var first, log := states[0].tracker, states[n].closedLog;
    var d :| d in first[i].dependsOn && RefersTo(d, first[j]);
    assert ClosedInTurn(first, log, p, i) && ClosedBefore(first, log[..p], d);
    var c :| 0 <= c < |first| && RefersTo(d, first[c]) && (first[c].state == Closed || first[c].number in log[..p]);
    ReferenceIsUnique(first, d, j, c);
    var r :| 0 <= r < p && log[..p][r] == first[j].number;
    assert log[r] == log[q];
  }
}
