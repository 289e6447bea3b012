/** Issues of the tracker (scripts/issue_tool/models.py) and their lifecycle labels
    (scripts/issue_tool/logic.py, and the claim steps of scripts/issue_tool/worktree.py). */
module Issues {
  import opened Prelude
  import opened Text
  import opened Sorting

  datatype IssueState = Open | Closed

  datatype Issue = Issue(
    number: nat,
    title: string,
    state: IssueState,
    createdAt: string,
    labels: seq<string>,
    taskId: Option<string>,
    seqNo: Option<int>,
    dependsOn: seq<string>)

  predicate IsWordChar(c: char) {
    IsDigit(c) || c == '_' || 'a' <= c <= 'z' || 'A' <= c <= 'Z'
  }

  /** A title "CR-<digits>" at a word boundary, in any case. */
  predicate IsParentCr(i: Issue) {
    var t := Strip(i.title);
    && |t| > 3 && Lower(t[..3]) == "cr-"
    && var digits := LeadingDigits(t[3..]);
       digits != [] && (|t| == 3 + |digits| || !IsWordChar(t[3 + |digits|]))
  }

  predicate HasAny(labels: seq<string>, wanted: seq<string>) {
    exists w :: w in wanted && w in labels
  }

  function PriorityRank(i: Issue): int {
    var lowered := Map(Lower, i.labels);
    if HasAny(lowered, ["p0", "priority:p0", "priority:high", "priority:critical"]) then 0
    else if HasAny(lowered, ["p1", "priority:p1", "priority:medium"]) then 1
    else if HasAny(lowered, ["p2", "priority:p2", "priority:low"]) then 2
    else if HasAny(lowered, ["p3", "priority:p3"]) then 3
    else 50
  }

  /** `queue_task_issues`: the issues that the queue, the reconciler and the auditor work on. */
  predicate IsTask(i: Issue) {
    "type:task" in i.labels && !IsParentCr(i)
  }

  function TaskIssues(issues: seq<Issue>): seq<Issue> {
    Filter(IsTask, issues)
  }

  // ---- Lifecycle labels ----

  const NOT_STARTED := "status:not-started"
  const IN_PROGRESS := "status:in-progress"
  const BLOCKED := "status:blocked"
  const DONE := "status:done"
  const READY := "ready"

  predicate IsStatusLabel(l: string) {
    l == NOT_STARTED || l == IN_PROGRESS || l == BLOCKED || l == DONE
  }

  datatype Lifecycle = Blocked | InProgress | Done | NotStarted | Unknown

  function LifecycleStatus(i: Issue): Lifecycle {
    if BLOCKED in i.labels then Blocked
    else if IN_PROGRESS in i.labels then InProgress
    else if DONE in i.labels then Done
    else if NOT_STARTED in i.labels then NotStarted
    else Unknown
  }

  function StatusLabels(i: Issue): seq<string> {
    Filter(IsStatusLabel, i.labels)
  }

  ghost function SetOf<T>(xs: seq<T>): set<T> {
    set x | x in xs
  }

  function ChooseReconciledStatus(i: Issue): string {
    var statuses := StatusLabels(i);
    if i.state == Closed then DONE
    else if IN_PROGRESS in statuses then IN_PROGRESS
    else if BLOCKED in statuses then BLOCKED
    else NOT_STARTED
  }

  /** One of each element, the last occurrence kept. */
  function Dedup(xs: seq<string>): (r: seq<string>)
    ensures forall x :: x in r <==> x in xs
  {
    if xs == [] then [] else if xs[0] in xs[1..] then Dedup(xs[1..]) else [xs[0]] + Dedup(xs[1..])
  }

  /** `sorted(set(xs))`. */
  function SortedSet(xs: seq<string>): (r: seq<string>)
    ensures forall x :: x in r <==> x in xs
  {
    SortByElements(StringLe, Dedup(xs));
    SortBy(StringLe, Dedup(xs))
  }

  datatype LabelChange = LabelChange(add: seq<string>, remove: seq<string>)

  const NO_CHANGE := LabelChange([], [])

  function ReconcileIssueLabelChanges(i: Issue): LabelChange {
    var desired := ChooseReconciledStatus(i);
    var stale := SortedSet(Filter((l: string) => l != desired, StatusLabels(i)));
    var add := if desired !in i.labels then [desired] else [];
    var remove := if READY in i.labels && desired != NOT_STARTED then stale + [READY] else stale;
    LabelChange(add, SortedSet(remove))
  }

  /** The change made when an issue is closed out. */
  function CloseoutDoneLabelChanges(i: Issue): LabelChange {
    var change := ReconcileIssueLabelChanges(i);
    var workflow := Filter((l: string) => l in i.labels, ["in-progress", READY, "review"]);
    LabelChange(SortedSet(change.add), SortedSet(change.remove + workflow))
  }

  /** The tracker's update: drop the labels to remove, add the ones that are missing. */
  function Relabelled(labels: seq<string>, change: LabelChange): (r: seq<string>)
    ensures forall l :: l in r <==> (l in labels && l !in change.remove) || l in change.add
  {
    var kept := Filter((l: string) => l !in change.remove, labels);
    kept + Filter((l: string) => l !in kept, Dedup(change.add))
  }

  function Reconciled(i: Issue): Issue {
    i.(labels := Relabelled(i.labels, ReconcileIssueLabelChanges(i)))
  }

  /** Exactly the one status label that suits the issue's state, and `ready` only on what can start. */
  ghost predicate CleanLabels(i: Issue) {
    && SetOf(StatusLabels(i)) == {ChooseReconciledStatus(i)}
    && (READY in i.labels ==> NOT_STARTED in i.labels)
  }

  lemma StatusLabelsMembers(i: Issue)
    ensures forall l :: l in StatusLabels(i) <==> l in i.labels && IsStatusLabel(l)
  {}

  /** What the reconciler asks for, label by label. */
  lemma ReconcileMembers(i: Issue)
    ensures var c := ReconcileIssueLabelChanges(i);
            var desired := ChooseReconciledStatus(i);
            && (forall l :: l in c.add <==> l == desired && desired !in i.labels)
            && (forall l :: l in c.remove <==>
                  (l in i.labels && IsStatusLabel(l) && l != desired) || (l == READY && READY in i.labels && desired != NOT_STARTED))
  {
    StatusLabelsMembers(i);
  }

  lemma ReconcileNothingIff(i: Issue)
    ensures ReconcileIssueLabelChanges(i) == NO_CHANGE
       <==> && ChooseReconciledStatus(i) in i.labels
            && (forall l :: l in i.labels && IsStatusLabel(l) ==> l == ChooseReconciledStatus(i))
            && (READY in i.labels ==> ChooseReconciledStatus(i) == NOT_STARTED)
  {
    ReconcileMembers(i);
    var c := ReconcileIssueLabelChanges(i);
    EmptyIff(c.remove);
  }

  lemma CleanLabelsIff(i: Issue)
    ensures CleanLabels(i)
       <==> && ChooseReconciledStatus(i) in i.labels
            && (forall l :: l in i.labels && IsStatusLabel(l) ==> l == ChooseReconciledStatus(i))
            && (READY in i.labels ==> ChooseReconciledStatus(i) == NOT_STARTED)
  {
    var desired := ChooseReconciledStatus(i);
    assert IsStatusLabel(desired) && IsStatusLabel(NOT_STARTED);
    StatusLabelsMembers(i);
    hide ChooseReconciledStatus, IsStatusLabel, StatusLabels;
    if CleanLabels(i) {
      assert desired in SetOf(StatusLabels(i));
      forall l | l in i.labels && IsStatusLabel(l) ensures l == desired {
        assert l in SetOf(StatusLabels(i));
      }
    }
  }

  /** The reconciler is idle exactly on clean labels. */
  lemma ReconcileIdleIffClean(i: Issue)
    ensures ReconcileIssueLabelChanges(i) == NO_CHANGE <==> CleanLabels(i)
  {
    hide CleanLabels, ReconcileIssueLabelChanges, ChooseReconciledStatus, IsStatusLabel;
    CleanLabelsIff(i);
    ReconcileNothingIff(i);
  }

  /** Which labels an issue carries after its reconcile. */
  lemma ReconciledMembers(i: Issue)
    ensures var desired := ChooseReconciledStatus(i);
            forall l :: l in Reconciled(i).labels <==>
              if IsStatusLabel(l) then l == desired
              else if l == READY then READY in i.labels && desired == NOT_STARTED
              else l in i.labels
  {
    assert IsStatusLabel(ChooseReconciledStatus(i)) && !IsStatusLabel(READY);
    ReconcileMembers(i);
    hide ReconcileIssueLabelChanges, ChooseReconciledStatus, IsStatusLabel;
  }

  /** An issue whose only status label is the one chosen for another issue in the same state. */
  lemma ChoiceIsStable(i: Issue, r: Issue)
    requires r.state == i.state
    requires forall l :: IsStatusLabel(l) ==> (l in r.labels <==> l == ChooseReconciledStatus(i))
    ensures ChooseReconciledStatus(r) == ChooseReconciledStatus(i)
  {
    assert IsStatusLabel(IN_PROGRESS) && IsStatusLabel(BLOCKED);
    StatusLabelsMembers(i);
    StatusLabelsMembers(r);
    hide StatusLabels, IsStatusLabel;
  }

  /** Reconciling leaves exactly one suitable status label, touches no label but status labels and
      `ready`, keeps the state, and a second reconcile asks for nothing. */
  lemma ReconcileCleans(i: Issue)
    ensures CleanLabels(Reconciled(i))
    ensures ReconcileIssueLabelChanges(Reconciled(i)) == NO_CHANGE
    ensures ChooseReconciledStatus(Reconciled(i)) == ChooseReconciledStatus(i)
    ensures Reconciled(i) == i.(labels := Reconciled(i).labels)
    ensures forall l :: !IsStatusLabel(l) && l != READY ==> (l in Reconciled(i).labels <==> l in i.labels)
  {
    hide CleanLabels, ReconcileIssueLabelChanges, ChooseReconciledStatus, IsStatusLabel, Relabelled;
    var r := Reconciled(i);
    StatusLabelFacts(i);
    ReconciledMembers(i);
    ChoiceIsStable(i, r);
    CleanLabelsIff(r);
    ReconcileIdleIffClean(r);
  }

  lemma StatusLabelFacts(i: Issue)
    ensures IsStatusLabel(ChooseReconciledStatus(i)) && IsStatusLabel(DONE) && IsStatusLabel(NOT_STARTED)
    ensures !IsStatusLabel(READY) && !IsStatusLabel("in-progress") && !IsStatusLabel("review")
    ensures i.state == Closed ==> ChooseReconciledStatus(i) == DONE
  {}

  // ---- The same by the labels themselves ----

  predicate BreaksWord(rest: string) {
    rest == "" || !(IsDigit(rest[0]) || 'a' <= rest[0] <= 'z' || 'A' <= rest[0] <= 'Z' || rest[0] == '_')
  }

  /** `t` is CR- in any case, digits, and a word boundary. */
  predicate IsCrTitle(t: string, c: char, r: char, digits: string, rest: string) {
    && t == [c, r, '-'] + digits + rest && c in "Cc" && r in "Rr"
    && digits != "" && AllDigits(digits) && BreaksWord(rest)
  }

  /** A parent's title is, but for white space before it, CR- in any case, digits, and a word boundary. */
  lemma ParentCrIff(i: Issue)
    ensures IsParentCr(i) <==> exists c, r, digits, rest :: IsCrTitle(Strip(i.title), c, r, digits, rest)
  {
    hide IsCrTitle, Strip;
    if IsParentCr(i) { ParentTitleParts(i); }
    if c, r, digits, rest :| IsCrTitle(Strip(i.title), c, r, digits, rest) { CrTitleIsParent(i, c, r, digits, rest); }
  }

  lemma ParentTitleParts(i: Issue)
    requires IsParentCr(i)
    ensures exists c, r, digits, rest :: IsCrTitle(Strip(i.title), c, r, digits, rest)
  {
    hide Strip, LeadingDigits;
    var t := Strip(i.title);
    var digits := LeadingDigits(t[3..]);
    var rest := t[3 + |digits|..];
    LowerOfThree(t[0], t[1], t[2]);
    assert t[..3] == [t[0], t[1], t[2]];
    assert t == [t[0], t[1], '-'] + digits + rest;
    assert IsCrTitle(t, t[0], t[1], digits, rest);
  }

  lemma CrTitleIsParent(i: Issue, c: char, r: char, digits: string, rest: string)
    requires IsCrTitle(Strip(i.title), c, r, digits, rest)
    ensures IsParentCr(i)
  {
    hide Strip, LeadingDigits, Lower;
    var t := Strip(i.title);
    LowerOfThree(c, r, '-');
    assert t[..3] == [c, r, '-'] && t[3..] == digits + rest;
    LeadingDigitsOf(digits, rest);
    assert rest != "" ==> rest[0] == t[3 + |digits|];
  }

  lemma LowerOfThree(c: char, r: char, d: char)
    ensures Lower([c, r, d]) == "cr-" <==> c in "Cc" && r in "Rr" && d == '-'
  {
    var l := Lower([c, r, d]);
    assert l == [LowerChar(c), LowerChar(r), LowerChar(d)];
  }

  /** What reconciling makes of the labels: an open issue keeps in-progress, else blocked, and is otherwise
      ready to be started; a closed one is done; `ready` stays only beside not-started; nothing else moves. */
  lemma ReconciledByLabels(i: Issue)
    ensures var before, after := i.labels, Reconciled(i).labels;
            var going := "status:in-progress" in before;
            var blocked := "status:blocked" in before;
            && ("status:in-progress" in after <==> i.state == Open && going)
            && ("status:blocked" in after <==> i.state == Open && blocked && !going)
            && ("status:not-started" in after <==> i.state == Open && !blocked && !going)
            && ("status:done" in after <==> i.state == Closed)
            && ("ready" in after <==> "ready" in before && i.state == Open && !blocked && !going)
            && (forall l :: l !in ["status:in-progress", "status:blocked", "status:not-started", "status:done", "ready"] ==>
                  (l in after <==> l in before))
  {
    ReconciledMembers(i);
    StatusLabelsMembers(i);
    hide Reconciled, StatusLabels;
  }

  /** What closing out a closed issue makes of them. */
  lemma ClosedOutByLabels(i: Issue, l: string)
    requires i.state == Closed
    ensures l in ClosedOut(i).labels <==>
              || l == "status:done"
              || (l in i.labels && l !in ["status:in-progress", "status:blocked", "status:not-started", "in-progress", "ready", "review"])
  {
    hide ClosedOut, CleanLabels, CloseoutDoneLabelChanges, ChooseReconciledStatus;
    CloseoutCleans(i);
  }

  lemma {:induction false} DedupIsDistinct(xs: seq<string>)
    ensures Distinct(Dedup(xs))
  {
    if xs != [] { DedupIsDistinct(xs[1..]); }
  }

  /** Labels are always listed once each, ascending by code points. */
  lemma SortedSetAscends(xs: seq<string>, j: nat, k: nat)
    requires j < k < |SortedSet(xs)|
    ensures var s, t := SortedSet(xs)[j], SortedSet(xs)[k];
            s != t && (s <= t || exists n :: 0 <= n < |s| && n < |t| && s[..n] == t[..n] && s[n] as int < t[n] as int)
  {
    hide Dedup, StringLe;
    StringLeIsTotalPreorder();
    DedupIsDistinct(xs);
    SortByDistinct(StringLe, Dedup(xs));
    SortBySorted(StringLe, Dedup(xs));
    StringLeIff(SortedSet(xs)[j], SortedSet(xs)[k]);
  }

  // ---- edit_issue_labels: label operations written as one list ----

  predicate IsOtherLabel(l: string) {
    !IsStatusLabel(l)
  }

  function Dashed(l: string): string {
    "-" + l
  }

  /** `add` as it stands, and `remove` with a leading '-'. */
  function LabelOps(change: LabelChange): seq<string> {
    change.add + Map(Dashed, change.remove)
  }

  function RemovePrefixDash(l: string): string {
    if StartsWith(l, "-") then l[1..] else l
  }

  /** A status label is added; anything else loses one leading '-' and is removed. */
  function OpsChange(ops: seq<string>): LabelChange {
    LabelChange(Filter(IsStatusLabel, ops),
                Map(RemovePrefixDash, Filter(IsOtherLabel, ops)))
  }

  method EditIssueLabels(ops: seq<string>) returns (change: LabelChange)
    ensures change == OpsChange(ops)
  {
    hide IsStatusLabel, RemovePrefixDash, Filter, Map;
    assert Filter(IsStatusLabel, ops[..0]) == [] && Map(RemovePrefixDash, Filter(IsOtherLabel, ops[..0])) == [] by {
      FilterNone(IsStatusLabel, ops[..0]);
      FilterNone(IsOtherLabel, ops[..0]);
    }
    var add: seq<string>, remove: seq<string> := [], [];
    for k := 0 to |ops|
      invariant add == Filter(IsStatusLabel, ops[..k])
      invariant remove == Map(RemovePrefixDash, Filter(IsOtherLabel, ops[..k]))
    {
      var op := ops[k];
      assert ops[..k + 1] == ops[..k] + [op];
      FilterAppend(IsStatusLabel, ops[..k], op);
      FilterAppend(IsOtherLabel, ops[..k], op);
      MapAppend(RemovePrefixDash, Filter(IsOtherLabel, ops[..k]), op);
      if IsStatusLabel(op) {
        add := add + [op];
      } else {
        remove := remove + [RemovePrefixDash(op)];
      }
    }
    assert ops[..|ops|] == ops;
    change := LabelChange(add, remove);
  }

  lemma {:induction false} FilterAll<T(!new)>(p: T -> bool, xs: seq<T>)
    requires forall x :: x in xs ==> p(x)
    ensures Filter(p, xs) == xs
  {
    if xs != [] { FilterAll(p, xs[1..]); }
  }

  lemma {:induction false} FilterNone<T(!new)>(p: T -> bool, xs: seq<T>)
    requires forall x :: x in xs ==> !p(x)
    ensures Filter(p, xs) == []
  {
    if xs != [] { FilterNone(p, xs[1..]); }
  }

  lemma DashedComesBack(remove: seq<string>)
    ensures Map(RemovePrefixDash, Map(Dashed, remove)) == remove
    ensures forall l :: l in Map(Dashed, remove) ==> IsOtherLabel(l)
  {
    var dashed := Map(Dashed, remove);
    forall k | 0 <= k < |remove| ensures RemovePrefixDash(dashed[k]) == remove[k] && IsOtherLabel(dashed[k]) {
      assert dashed[k] == "-" + remove[k] && dashed[k][0] == '-';
    }
    forall l | l in dashed ensures IsOtherLabel(l) {
      var k :| 0 <= k < |dashed| && dashed[k] == l;
    }
  }

  /** Which labels a list of operations adds, and which it removes. */
  lemma OpsByText(ops: seq<string>)
    ensures forall l :: l in OpsChange(ops).add <==>
              l in ops && l in ["status:not-started", "status:in-progress", "status:blocked", "status:done"]
    ensures forall l :: l in OpsChange(ops).remove <==>
              exists op :: && op in ops && op !in ["status:not-started", "status:in-progress", "status:blocked", "status:done"]
                           && (op == "-" + l || (op == l && (l == "" || l[0] != '-')))
  {
    var others := Filter(IsOtherLabel, ops);
    var removed := Map(RemovePrefixDash, others);
    forall l | l in removed
      ensures exists op :: op in others && (op == "-" + l || (op == l && (l == "" || l[0] != '-')))
    {
      var k :| 0 <= k < |removed| && removed[k] == l;
      assert others[k] in others && RemovePrefixDash(others[k]) == l;
    }
    forall op, l | op in others && (op == "-" + l || (op == l && (l == "" || l[0] != '-'))) ensures l in removed {
      var k :| 0 <= k < |others| && others[k] == op;
      assert removed[k] == RemovePrefixDash(op) == l;
    }
  }

  /** Writing a change as one list and reading it back gives the change, as long as it only adds
      status labels - which is all that reconcile and closeout ever add. */
  lemma LabelOpsRoundTrip(change: LabelChange)
    requires forall l :: l in change.add ==> IsStatusLabel(l)
    ensures OpsChange(LabelOps(change)) == change
  {
    hide IsStatusLabel, Filter, Map, Dashed, RemovePrefixDash;
    var dashed := Map(Dashed, change.remove);
    DashedComesBack(change.remove);
    FilterConcat(IsStatusLabel, change.add, dashed);
    FilterConcat(IsOtherLabel, change.add, dashed);
    FilterAll(IsStatusLabel, change.add);
    FilterNone(IsStatusLabel, dashed);
    FilterNone(IsOtherLabel, change.add);
    FilterAll(IsOtherLabel, dashed);
  }

  /** The labels after the closeout of an issue that has just been closed. */
  function ClosedOut(i: Issue): Issue {
    i.(labels := Relabelled(i.labels, OpsChange(LabelOps(CloseoutDoneLabelChanges(i)))))
  }

  lemma CloseoutMembers(i: Issue)
    ensures var c := CloseoutDoneLabelChanges(i);
            var r := ReconcileIssueLabelChanges(i);
            && (forall l :: l in c.add <==> l in r.add)
            && (forall l :: l in c.remove <==>
                  l in r.remove || (l in i.labels && (l == "in-progress" || l == READY || l == "review")))
  {
    hide ReconcileIssueLabelChanges;
  }

  /** Closing out a closed issue leaves `status:done` as its only status, no workflow label, every other
      label as it was; and a second closeout asks for nothing. */
  lemma CloseoutCleans(i: Issue)
    requires i.state == Closed
    ensures CleanLabels(ClosedOut(i)) && ChooseReconciledStatus(ClosedOut(i)) == DONE
    ensures forall l :: l in ClosedOut(i).labels <==>
              l == DONE || (l in i.labels && !IsStatusLabel(l) && l != "in-progress" && l != READY && l != "review")
    ensures CloseoutDoneLabelChanges(ClosedOut(i)) == NO_CHANGE
  {
    hide CleanLabels, ReconcileIssueLabelChanges, CloseoutDoneLabelChanges, OpsChange, LabelOps, IsStatusLabel,
         ChooseReconciledStatus, Relabelled;
    var c := CloseoutDoneLabelChanges(i);
    var r := ClosedOut(i);
    StatusLabelFacts(i);
    StatusLabelFacts(r);
    ReconcileMembers(i);
    CloseoutMembers(i);
    LabelOpsRoundTrip(c);
    ReconcileMembers(r);
    CloseoutMembers(r);
    CleanLabelsIff(r);
    var again := CloseoutDoneLabelChanges(r);
    EmptyIff(again.add);
    EmptyIff(again.remove);
  }

  lemma EmptyIff(xs: seq<string>)
    ensures xs == [] <==> forall x :: x !in xs
  {
    if xs != [] { assert xs[0] in xs; }
  }

  // ---- Claiming ----

  datatype ClaimError = InvalidStatus | NotStartable | PostconditionFailed

  /** The claim goes ahead exactly on `status:not-started` alone. */
  predicate Claimable(labels: seq<string>) {
    NOT_STARTED in labels && forall l :: l in labels && IsStatusLabel(l) ==> l == NOT_STARTED
  }

  function ClaimChange(labels: seq<string>): LabelChange {
    LabelChange(if IN_PROGRESS !in labels then [IN_PROGRESS] else [],
                if READY in labels then [NOT_STARTED, READY] else [NOT_STARTED])
  }

  function UnclaimChange(addReady: bool): LabelChange {
    LabelChange(if addReady then [NOT_STARTED, READY] else [NOT_STARTED], [IN_PROGRESS])
  }

  /** What the verification asks for: in-progress as the only status, and no `ready`. */
  predicate ClaimVerified(labels: seq<string>) {
    IN_PROGRESS in labels && READY !in labels && forall l :: l in labels && IsStatusLabel(l) ==> l == IN_PROGRESS
  }

  /** What other clients do to the labels in the meantime. */
  type Interference = seq<string> -> seq<string>

  const NOBODY: Interference := (labels: seq<string>) => labels

  function Claimed(labels: seq<string>): seq<string> {
    Relabelled(labels, ClaimChange(labels))
  }

  /** The labels and the answer after a claim that first read `labels`, when other clients do `before`
      between its read and its update, and `after` between its update and its verification. */
  function ClaimOutcome(labels: seq<string>, before: Interference, after: Interference): (seq<string>, Option<bool>) {
    if !Claimable(labels) then (labels, None)
    else
      var verified := after(Relabelled(before(labels), ClaimChange(labels)));
      (verified, if ClaimVerified(verified) then Some(READY in labels) else None)
  }

  /** The tracker's record of one issue's labels. */
  class TrackerIssue {
    var labels: seq<string>

    constructor (labels: seq<string>)
      ensures this.labels == labels
    {
      this.labels := labels;
    }

    method Update(change: LabelChange)
      modifies this
      ensures labels == Relabelled(old(labels), change)
    {
      labels := Relabelled(labels, change);
    }

    /** Read, update, verify: three requests, with other clients at work between them. */
    method Claim(before: Interference, after: Interference) returns (r: Result<bool, ClaimError>)
      modifies this
      ensures (labels, if r.Success? then Some(r.value) else None) == ClaimOutcome(old(labels), before, after)
      ensures r == Failure(PostconditionFailed) <==> Claimable(old(labels)) && !ClaimVerified(labels)
    {
      hide ClaimChange, Relabelled;
      var read := labels;
      var hadReady := READY in read;
      var states := Filter(IsStatusLabel, read);
      if states == [] || exists l :: l in states && l != states[0] {
        assert IsStatusLabel(NOT_STARTED) && (NOT_STARTED in read ==> NOT_STARTED in states);
        assert states != [] ==> states[0] in states;
        return Failure(InvalidStatus);
      }
      if states[0] != NOT_STARTED {
        assert states[0] in read;
        return Failure(NotStartable);
      }
      assert forall l :: l in read && IsStatusLabel(l) ==> l in states;
      labels := before(labels);
      Update(ClaimChange(read));
      labels := after(labels);
      var verified := Filter(IsStatusLabel, labels);
      assert IsStatusLabel(IN_PROGRESS);
      if verified == [] || (exists l :: l in verified && l != IN_PROGRESS) || READY in labels {
        return Failure(PostconditionFailed);
      }
      assert verified[0] in verified;
      assert forall l :: l in labels && IsStatusLabel(l) ==> l in verified;
      return Success(hadReady);
    }

    method Unclaim(addReady: bool)
      modifies this
      ensures labels == Relabelled(old(labels), UnclaimChange(addReady))
    {
      Update(UnclaimChange(addReady));
    }
  }

  /** With nobody else at work a claim succeeds exactly on claimable labels; then in-progress replaces
      not-started, `ready` goes, and every other label stays. */
  lemma ClaimAlone(labels: seq<string>)
    ensures var (final, answer) := ClaimOutcome(labels, NOBODY, NOBODY);
            && (answer.Some? <==> Claimable(labels))
            && (answer.Some? ==>
                  forall l :: l in final <==> (l in labels && l != NOT_STARTED && l != READY) || l == IN_PROGRESS)
            && (answer.None? ==> final == labels)
  {
    if Claimable(labels) { ClaimedMembers(labels); }
  }

  /** The claim by the labels: what it starts from, what it asks for, and what its verification accepts. */
  lemma ClaimByLabels(labels: seq<string>, before: Interference, after: Interference)
    ensures var startable := && "status:not-started" in labels && "status:in-progress" !in labels
                             && "status:blocked" !in labels && "status:done" !in labels;
            var (final, answer) := ClaimOutcome(labels, before, after);
            && (!startable ==> final == labels && answer == None)
            && (startable ==> final == after(Relabelled(before(labels), ClaimChange(labels))))
            && (answer == None || answer == Some("ready" in labels))
            && (answer.Some? <==> && startable && "status:in-progress" in final && "ready" !in final
                                  && "status:not-started" !in final && "status:blocked" !in final && "status:done" !in final)
    ensures forall now: seq<string>, l: string | "status:in-progress" !in labels ::
              l in Relabelled(now, ClaimChange(labels)) <==>
                l == "status:in-progress" || (l in now && l != "status:not-started" && !(l == "ready" && "ready" in labels))
    ensures forall now: seq<string>, addReady: bool, l: string ::
              l in Relabelled(now, UnclaimChange(addReady)) <==>
                l == "status:not-started" || (addReady && l == "ready") || (l in now && l != "status:in-progress")
  {
    hide Relabelled;
  }

  lemma ClaimedMembers(labels: seq<string>)
    requires Claimable(labels)
    ensures forall l :: l in Claimed(labels) <==> (l in labels && l != NOT_STARTED && l != READY) || l == IN_PROGRESS
    ensures ClaimVerified(Claimed(labels))
  {
    assert IsStatusLabel(IN_PROGRESS);
  }

  /** The verification does not make claims exclusive: whenever one client could claim an issue, two can.
      Each reads before the other updates, both updates ask for the same, and both verifications pass. */
  lemma TwoClaimsCanBothSucceed(labels: seq<string>)
    requires Claimable(labels)
    ensures var (final, first) := ClaimOutcome(labels, NOBODY, NOBODY);
            var (again, second) := ClaimOutcome(labels, (ls: seq<string>) => ClaimOutcome(ls, NOBODY, NOBODY).0, NOBODY);
            first == second == Some(READY in labels) && SetOf(again) == SetOf(final)
  {
    ClaimedMembers(labels);
    UpdateTwice(labels);
  }

  lemma UpdateTwice(labels: seq<string>)
    requires Claimable(labels)
    ensures var twice := Relabelled(Claimed(labels), ClaimChange(labels));
            ClaimVerified(twice) && SetOf(twice) == SetOf(Claimed(labels))
  {
    ClaimedMembers(labels);
    var twice := Relabelled(Claimed(labels), ClaimChange(labels));
    forall l ensures l in twice <==> l in Claimed(labels) {
      if l == NOT_STARTED || l == READY || l == IN_PROGRESS {
        assert IsStatusLabel(IN_PROGRESS);
      }
    }
  }

  /** Rolling back a claim restores the labels exactly, when `ready` is put back as the claim found it. */
  lemma UnclaimUndoesClaim(labels: seq<string>)
    requires Claimable(labels)
    ensures var claimed := Relabelled(labels, ClaimChange(labels));
            SetOf(Relabelled(claimed, UnclaimChange(READY in labels))) == SetOf(labels)
  {
    var claimed := Relabelled(labels, ClaimChange(labels));
    var back := Relabelled(claimed, UnclaimChange(READY in labels));
    forall l ensures l in back <==> l in labels {
      if l == NOT_STARTED || l == READY || l == IN_PROGRESS {
        assert IsStatusLabel(IN_PROGRESS);
      }
    }
  }
}
