/** The per-issue event file of scripts/issue_tool/worktree.py and the event checks of
    scripts/issue_tool/evidence.py: a bounded window on an unbounded log. */
module Handoff {
  import opened Prelude
  import opened Text

  const KEPT_EVENTS := 50

  datatype Event = Event(eventType: string, state: string, branch: string, worktreePath: string, idempotencyKey: string)

  /** One call of the recorder. Empty strings stand for absent values. */
  datatype Request = Request(eventType: string, state: string, branch: string, worktreePath: string, idempotencyKey: string)

  /** The file's payload, as far as later calls look at it. */
  datatype Payload = Payload(branch: string, worktreePath: string, state: string, lastEventType: string, events: seq<Event>)

  const EMPTY := Payload("", "", "", "", [])

  predicate IsStart(eventType: string) {
    eventType == "worktree-created" || eventType == "worktree-reused" || eventType == "worktree-resumed"
  }

  predicate IsTerminal(state: string) {
    state == "done" || state == "closed" || state == "cleanup-failed" || state == "handback-failed"
  }

  /** A start event opens a new session after a terminal state, or for another branch or worktree. */
  predicate StartsSession(branch: string, worktreePath: string, state: string, r: Request) {
    && IsStart(r.eventType)
    && (|| IsTerminal(state)
        || (r.branch != "" && branch != "" && r.branch != branch)
        || (r.worktreePath != "" && worktreePath != "" && r.worktreePath != worktreePath))
  }

  function Or(a: string, b: string): string {
    if a != "" then a else b
  }

  function EventFor(branch: string, worktreePath: string, r: Request): Event {
    Event(r.eventType, r.state, Or(r.branch, branch), Or(r.worktreePath, worktreePath), r.idempotencyKey)
  }

  predicate RepeatsLast(events: seq<Event>, r: Request) {
    r.idempotencyKey != "" && events != [] && events[|events| - 1].idempotencyKey == r.idempotencyKey
  }

  /** The last 50 elements. */
  function Recent<T>(xs: seq<T>): (r: seq<T>)
    ensures |r| <= KEPT_EVENTS
    ensures |xs| <= KEPT_EVENTS ==> r == xs
  {
    if |xs| > KEPT_EVENTS then xs[|xs| - KEPT_EVENTS..] else xs
  }

  // ---- The recorder ----

  /** What one call leaves in the file. */
  function Recorded(p: Payload, r: Request): Payload {
    var base := if StartsSession(p.branch, p.worktreePath, p.state, r) then EMPTY else p;
    if RepeatsLast(base.events, r) then p
    else Payload(Or(r.branch, base.branch), Or(r.worktreePath, base.worktreePath), r.state, r.eventType,
                 Recent(base.events + [EventFor(base.branch, base.worktreePath, r)]))
  }

  /** The state file of one issue; a missing file reads as the empty payload. */
  class IssueStateFile {
    var payload: Payload

    constructor ()
      ensures payload == EMPTY
    {
      payload := EMPTY;
    }

    /** Answers whether the file was written. */
    method RecordEvent(r: Request) returns (written: bool)
      modifies this
      ensures payload == Recorded(old(payload), r)
      ensures !written ==> payload == old(payload)
    {
      var existing := payload;
      var events := existing.events;
      if IsStart(r.eventType)
         && (IsTerminal(existing.state)
             || (r.branch != "" && existing.branch != "" && r.branch != existing.branch)
             || (r.worktreePath != "" && existing.worktreePath != "" && r.worktreePath != existing.worktreePath))
      {
        events := [];
        existing := EMPTY;
      }
      var event := EventFor(existing.branch, existing.worktreePath, r);
      if r.idempotencyKey != "" {
        if events != [] && events[|events| - 1].idempotencyKey == r.idempotencyKey {
          return false;
        }
      }
      events := events + [event];
      if |events| > KEPT_EVENTS {
        events := events[|events| - KEPT_EVENTS..];
      }
      payload := Payload(Or(r.branch, existing.branch), Or(r.worktreePath, existing.worktreePath),
                         r.state, r.eventType, events);
      return true;
    }
  }

  function AfterCalls(calls: seq<Request>): Payload {
    if calls == [] then EMPTY else Recorded(AfterCalls(calls[..|calls| - 1]), calls[|calls| - 1])
  }

  /** When a call starts a new session, by the texts: a worktree event after a final state, or for another
      branch or another worktree than the file knows. */
  lemma StartsSessionIff(p: Payload, r: Request)
    ensures StartsSession(p.branch, p.worktreePath, p.state, r)
       <==> && r.eventType in ["worktree-created", "worktree-reused", "worktree-resumed"]
            && (|| p.state in ["done", "closed", "cleanup-failed", "handback-failed"]
                || (r.branch != p.branch && r.branch != "" && p.branch != "")
                || (r.worktreePath != p.worktreePath && r.worktreePath != "" && p.worktreePath != ""))
  {}

  /** What a call does to the file. A new session drops everything but its own event; an immediate repeat of
      a key changes nothing; otherwise the event is added, what it leaves open filled in from the file, and
      the oldest events beyond fifty go. */
  lemma RecordedIs(p: Payload, r: Request)
    ensures StartsSession(p.branch, p.worktreePath, p.state, r) ==>
              Recorded(p, r) == Payload(r.branch, r.worktreePath, r.state, r.eventType,
                                        [Event(r.eventType, r.state, r.branch, r.worktreePath, r.idempotencyKey)])
    ensures !StartsSession(p.branch, p.worktreePath, p.state, r) ==>
              var q := Recorded(p, r);
              if r.idempotencyKey != "" && p.events != [] && p.events[|p.events| - 1].idempotencyKey == r.idempotencyKey
              then q == p
              else
                && q.branch == (if r.branch != "" then r.branch else p.branch)
                && q.worktreePath == (if r.worktreePath != "" then r.worktreePath else p.worktreePath)
                && q.state == r.state && q.lastEventType == r.eventType
                && q.events != []
                && q.events[|q.events| - 1] == Event(r.eventType, r.state, q.branch, q.worktreePath, r.idempotencyKey)
                && var kept := q.events[..|q.events| - 1];
                   && |kept| == (if |p.events| < 50 then |p.events| else 49)
                   && kept == p.events[|p.events| - |kept|..]
  {
    hide StartsSession;
    if StartsSession(p.branch, p.worktreePath, p.state, r) {
      assert [] + [EventFor("", "", r)] == [EventFor("", "", r)];
    }
  }

  // ---- The log it is a window on ----

  /** Everything recorded since the last session began; nothing is ever dropped from `log`. */
  datatype Session = Session(branch: string, worktreePath: string, state: string, log: seq<Event>)

  const NO_SESSION := Session("", "", "", [])

  /** A session start forgets the old session; an immediate repeat of a key is ignored; anything else is
      logged and becomes the current state. */
  function Logged(s: Session, r: Request): Session {
    if StartsSession(s.branch, s.worktreePath, s.state, r) then
      Session(r.branch, r.worktreePath, r.state, [EventFor("", "", r)])
    else if RepeatsLast(s.log, r) then s
    else Session(Or(r.branch, s.branch), Or(r.worktreePath, s.worktreePath), r.state,
                 s.log + [EventFor(s.branch, s.worktreePath, r)])
  }

  function SessionAfter(calls: seq<Request>): Session {
    if calls == [] then NO_SESSION else Logged(SessionAfter(calls[..|calls| - 1]), calls[|calls| - 1])
  }

  lemma RecentAppend(log: seq<Event>, e: Event)
    ensures Recent(Recent(log) + [e]) == Recent(log + [e])
    ensures log != [] ==> Recent(log) != [] && Recent(log)[|Recent(log)| - 1] == log[|log| - 1]
  {}

  /** The file shows the session through its window. */
  ghost predicate Shows(p: Payload, s: Session) {
    p.events == Recent(s.log) && p.branch == s.branch && p.worktreePath == s.worktreePath && p.state == s.state
  }

  lemma CallKeepsWindow(p: Payload, s: Session, r: Request)
    requires Shows(p, s)
    ensures Shows(Recorded(p, r), Logged(s, r))
  {
    hide StartsSession, EventFor, Recent;
    var e := EventFor(s.branch, s.worktreePath, r);
    RecentAppend(s.log, e);
    if StartsSession(s.branch, s.worktreePath, s.state, r) {
      assert [] + [EventFor("", "", r)] == [EventFor("", "", r)];
    } else if RepeatsLast(s.log, r) {
      assert RepeatsLast(p.events, r);
    }
  }

  /** After any calls, the file holds exactly the last 50 entries of the unbounded log of the session, and
      agrees with it on branch, worktree and state. */
  lemma {:induction false} FileIsWindowOnLog(calls: seq<Request>)
    ensures Shows(AfterCalls(calls), SessionAfter(calls))
  {
    hide Recorded, Logged;
    if calls == [] {
      assert Recent<Event>([]) == [];
    } else {
      FileIsWindowOnLog(calls[..|calls| - 1]);
      CallKeepsWindow(AfterCalls(calls[..|calls| - 1]), SessionAfter(calls[..|calls| - 1]), calls[|calls| - 1]);
    }
  }

  // ---- Evidence ----

  datatype EvidenceError = NoEvents | NoTypedEvents | NoStart | NoCloseoutStarted | NotComplete(last: string)

  predicate IsTyped(e: Event) {
    e.eventType != ""
  }

  function TypeOf(e: Event): string {
    e.eventType
  }

  function EventTypes(events: seq<Event>): (r: seq<string>)
    ensures forall t :: t in r <==> t != "" && exists e :: e in events && e.eventType == t
  {
    var typed := Filter(IsTyped, events);
    var r := Map(TypeOf, typed);
    assert forall e :: e in typed ==> exists k :: 0 <= k < |typed| && typed[k] == e && r[k] == e.eventType;
    assert forall t :: t in r ==> exists k :: 0 <= k < |typed| && r[k] == t && typed[k].eventType == t;
    r
  }

  /** The event checks of the closeout audit; None when all pass. */
  function EvidenceProblem(events: seq<Event>): Option<EvidenceError> {
    var types := EventTypes(events);
    if events == [] then Some(NoEvents)
    else if types == [] then Some(NoTypedEvents)
    else if !exists t :: t in types && IsStart(t) then Some(NoStart)
    else if "closeout-started" !in types then Some(NoCloseoutStarted)
    else if types[|types| - 1] != "closeout-complete" then Some(NotComplete(types[|types| - 1]))
    else None
  }

  ghost predicate Passes(events: seq<Event>) {
    EvidenceProblem(events).None?
  }

  predicate HasStart(events: seq<Event>) {
    exists e :: e in events && IsStart(e.eventType)
  }

  ghost predicate HasCloseoutStarted(events: seq<Event>) {
    exists e :: e in events && e.eventType == "closeout-started"
  }

  /** Dropping older events keeps the last typed one, if any typed one is left. */
  lemma LastTypeOfSuffix(a: seq<Event>, b: seq<Event>)
    requires EventTypes(b) != []
    ensures EventTypes(a + b) != []
    ensures EventTypes(a + b)[|EventTypes(a + b)| - 1] == EventTypes(b)[|EventTypes(b)| - 1]
  {
    FilterConcat(IsTyped, a, b);
  }

  /** On a window of a log the checks pass exactly when they pass on the log and the window still shows a
      start event and the beginning of the closeout. */
  lemma WindowPassesIff(older: seq<Event>, window: seq<Event>)
    ensures Passes(window) <==> Passes(older + window) && HasStart(window) && HasCloseoutStarted(window)
  {
    StartIsTyped();
    PassesMeans(window);
    PassesMeans(older + window);
    hide EventTypes, EvidenceProblem, IsStart, Passes;
    if HasStart(window) {
      var e :| e in window && IsStart(e.eventType);
      assert e.eventType in EventTypes(window);
      assert e in older + window;
      LastTypeOfSuffix(older, window);
    }
    assert HasStart(window) ==> HasStart(older + window);
    assert HasCloseoutStarted(window) ==> HasCloseoutStarted(older + window);
  }

  lemma StartIsTyped()
    ensures forall t :: IsStart(t) ==> t != ""
  {}

  lemma PassesMeans(events: seq<Event>)
    ensures Passes(events) <==> && HasStart(events) && HasCloseoutStarted(events)
                                && EventTypes(events) != [] && EventTypes(events)[|EventTypes(events)| - 1] == "closeout-complete"
  {
    StartIsTyped();
    hide IsStart;
    var types := EventTypes(events);
    assert HasStart(events) <==> exists t :: t in types && IsStart(t) by {
      if HasStart(events) {
        var e :| e in events && IsStart(e.eventType);
        assert e.eventType in types;
      }
    }
    assert HasCloseoutStarted(events) <==> "closeout-started" in types;
  }

  /** What the audit of the stored file says about the session: it never passes a session whose full log
      fails, and it passes one whose full log passes exactly when the last 50 events still show the start
      and the beginning of the closeout - always, while the log has at most 50 events. */
  lemma EvidenceOnFile(calls: seq<Request>)
    ensures var stored, log := AfterCalls(calls).events, SessionAfter(calls).log;
            && (Passes(stored) ==> Passes(log))
            && (Passes(log) ==> (Passes(stored) <==> HasStart(Recent(log)) && HasCloseoutStarted(Recent(log))))
            && (Passes(log) && |log| <= KEPT_EVENTS ==> Passes(stored))
  {
    hide Passes, AfterCalls, SessionAfter, HasStart, HasCloseoutStarted;
    FileIsWindowOnLog(calls);
    var log := SessionAfter(calls).log;
    var older := log[..|log| - |Recent(log)|];
    assert log == older + Recent(log);
    WindowPassesIff(older, Recent(log));
  }

  /** Which problem the audit reports, in the order of its checks. */
  lemma EvidenceProblemIs(events: seq<Event>)
    ensures var typed := exists e :: e in events && e.eventType != "";
            var started := exists e :: e in events && e.eventType in ["worktree-created", "worktree-reused", "worktree-resumed"];
            var closing := exists e :: e in events && e.eventType == "closeout-started";
            match EvidenceProblem(events)
            case Some(NoEvents) => events == []
            case Some(NoTypedEvents) => events != [] && !typed
            case Some(NoStart) => typed && !started
            case Some(NoCloseoutStarted) => typed && started && !closing
            case Some(NotComplete(last)) => typed && started && closing && last != "closeout-complete"
            case None => typed && started && closing
  {
    hide EventTypes;
    var types := EventTypes(events);
    assert types != [] ==> types[0] in types;
    forall e | e in events && e.eventType != "" ensures e.eventType in types {}
  }

  // ---- The closeout and its own audit (scripts/issue_tool/commands/common.py) ----

  /** The worktree that is closed out, and its issue. */
  datatype Target = Target(issue: nat, branch: string, path: string)

  function KeyFor(kind: string, t: Target): string {
    kind + ":" + Decimal(t.issue) + ":" + t.branch + ":" + t.path
  }

  function Backfill(t: Target): Request {
    Request("worktree-reused", "worktree-ready", t.branch, t.path, KeyFor("closeout-start-backfill", t))
  }

  function CloseoutStarted(t: Target): Request {
    Request("closeout-started", "closeout-started", t.branch, t.path, KeyFor("closeout-started", t))
  }

  function CloseoutComplete(t: Target): Request {
    Request("closeout-complete", "closed", t.branch, t.path, KeyFor("closeout-complete", t))
  }

  /** `ensure_closeout_start_evidence`: a file without a start event is given one. */
  function WithStart(p: Payload, t: Target): Payload {
    if HasStart(p.events) then p else Recorded(p, Backfill(t))
  }

  /** The file when a closeout that went through comes to its audit. */
  function ClosedOut(p: Payload, t: Target): Payload {
    Recorded(Recorded(WithStart(p, t), CloseoutStarted(t)), CloseoutComplete(t))
  }

  /** The recorder's calls in `close_issue_done` up to its audit, and what the audit finds. */
  method CloseIssueDone(file: IssueStateFile, t: Target) returns (problem: Option<EvidenceError>)
    modifies file
    ensures file.payload == ClosedOut(old(file.payload), t)
    ensures problem == EvidenceProblem(file.payload.events)
  {
    hide Recorded, EvidenceProblem, KeyFor;
    if !HasStart(file.payload.events) {
      var _ := file.RecordEvent(Backfill(t));
    }
    var _ := file.RecordEvent(CloseoutStarted(t));
    var _ := file.RecordEvent(CloseoutComplete(t));
    problem := EvidenceProblem(file.payload.events);
  }

  /** Only the closeout uses the keys of the closeout. */
  ghost predicate KeysAreHonest(events: seq<Event>, t: Target) {
    forall e :: e in events ==>
      && (e.idempotencyKey == Backfill(t).idempotencyKey ==> IsStart(e.eventType))
      && (e.idempotencyKey == CloseoutStarted(t).idempotencyKey ==> e.eventType == "closeout-started")
      && e.idempotencyKey != CloseoutComplete(t).idempotencyKey
  }

  function LastOf<T>(xs: seq<T>, m: nat): seq<T> {
    if |xs| > m then xs[|xs| - m..] else xs
  }

  /** How many of the file's events survive the events that the closeout adds: its start is not recorded
      again when the file ends with it, after an attempt that was cut off there. */
  function Room(events: seq<Event>, t: Target): nat {
    if RepeatsLast(events, CloseoutStarted(t)) then KEPT_EVENTS - 1 else KEPT_EVENTS - 2
  }

  lemma RecentOfConcat(xs: seq<Event>, ys: seq<Event>)
    requires |ys| <= KEPT_EVENTS
    ensures Recent(xs + ys) == LastOf(xs, KEPT_EVENTS - |ys|) + ys
  {}

  lemma CloseoutKeys(t: Target)
    ensures forall r :: r == Backfill(t) || r == CloseoutStarted(t) || r == CloseoutComplete(t) ==> r.idempotencyKey != ""
    ensures Backfill(t).idempotencyKey != CloseoutStarted(t).idempotencyKey
    ensures CloseoutComplete(t).idempotencyKey != CloseoutStarted(t).idempotencyKey
  {
    var b, s, c := Backfill(t).idempotencyKey, CloseoutStarted(t).idempotencyKey, CloseoutComplete(t).idempotencyKey;
    assert b[14] == '-' && s[14] == 'e' && s[9] == 's' && c[9] == 'c';
  }

  /** A call that is not a repeat and starts no session adds its event. */
  lemma PlainCall(p: Payload, r: Request)
    requires !IsStart(r.eventType) && !RepeatsLast(p.events, r)
    ensures Recorded(p, r).events == Recent(p.events + [EventFor(p.branch, p.worktreePath, r)])
  {
    hide EventFor, Recent;
  }

  lemma BackfillCall(p: Payload, t: Target)
    requires KeysAreHonest(p.events, t) && !HasStart(p.events)
    ensures exists base, e :: Recorded(p, Backfill(t)).events == Recent(base + [e]) && IsStart(e.eventType)
                              && e.idempotencyKey == Backfill(t).idempotencyKey
  {
    hide KeyFor, Recent, IsStart;
    assert IsStart("worktree-reused") by { StartNames(); }
    var base := if StartsSession(p.branch, p.worktreePath, p.state, Backfill(t)) then EMPTY else p;
    assert !RepeatsLast(base.events, Backfill(t));
    assert Recorded(p, Backfill(t)).events == Recent(base.events + [EventFor(base.branch, base.worktreePath, Backfill(t))]);
  }

  lemma StartNames()
    ensures IsStart("worktree-created") && IsStart("worktree-reused")
    ensures !IsStart("closeout-started") && !IsStart("closeout-complete") && !IsStart("agent-launch-requested")
  {}

  /** The last two calls, on a file that does not end with the start of this closeout. */
  lemma FinalCalls(p: Payload, t: Target)
    requires !RepeatsLast(p.events, CloseoutStarted(t))
    ensures exists s, c ::
              && Recorded(Recorded(p, CloseoutStarted(t)), CloseoutComplete(t)).events == LastOf(p.events, KEPT_EVENTS - 2) + [s, c]
              && s.eventType == "closeout-started" && c.eventType == "closeout-complete"
  {
    StartNames();
    CloseoutKeys(t);
    hide IsStart, KeyFor, RepeatsLast, LastOf;
    var s := EventFor(p.branch, p.worktreePath, CloseoutStarted(t));
    PlainCall(p, CloseoutStarted(t));
    var q := Recorded(p, CloseoutStarted(t));
    EndsWith(p.events, s);
    OtherKeyIsNoRepeat(q.events, s, CloseoutComplete(t));
    PlainCall(q, CloseoutComplete(t));
    var c := EventFor(q.branch, q.worktreePath, CloseoutComplete(t));
    hide Recorded, EventFor, Recent;
    RecentAppend(p.events + [s], c);
    assert p.events + [s] + [c] == p.events + [s, c];
    RecentOfConcat(p.events, [s, c]);
  }

  lemma EndsWith(xs: seq<Event>, e: Event)
    ensures var r := Recent(xs + [e]); r != [] && r[|r| - 1] == e
  {}

  lemma OtherKeyIsNoRepeat(events: seq<Event>, e: Event, r: Request)
    requires events != [] && events[|events| - 1] == e && e.idempotencyKey != r.idempotencyKey
    ensures !RepeatsLast(events, r)
  {}

  /** The calls of the closeout and of a launch, in full. */
  lemma CallsAre(t: Target, settings: string)
    ensures var issue := Decimal(t.issue);
            && Backfill(t) == Request("worktree-reused", "worktree-ready", t.branch, t.path,
                                      "closeout-start-backfill:" + issue + ":" + t.branch + ":" + t.path)
            && CloseoutStarted(t) == Request("closeout-started", "closeout-started", t.branch, t.path,
                                             "closeout-started:" + issue + ":" + t.branch + ":" + t.path)
            && CloseoutComplete(t) == Request("closeout-complete", "closed", t.branch, t.path,
                                              "closeout-complete:" + issue + ":" + t.branch + ":" + t.path)
            && Launch(t, settings) == Request("agent-launch-requested", "agent-launching", t.branch, t.path,
                                              "agent:" + issue + ":" + t.path + ":" + settings)
  {
    hide Decimal;
    assert "closeout-start-backfill" + ":" == "closeout-start-backfill:";
    assert "closeout-started" + ":" == "closeout-started:" && "closeout-complete" + ":" == "closeout-complete:";
  }

  /** After its closeout an issue's file is in the final state "closed", so that the next worktree event starts
      a new session. */
  lemma ClosedOutIsFinal(p: Payload, t: Target, r: Request)
    requires r.eventType in ["worktree-created", "worktree-reused", "worktree-resumed"]
    ensures ClosedOut(p, t).state == "closed" && ClosedOut(p, t).lastEventType == "closeout-complete"
    ensures StartsSession(ClosedOut(p, t).branch, ClosedOut(p, t).worktreePath, ClosedOut(p, t).state, r)
  {
    CloseoutKeys(t);
    StartNames();
    hide KeyFor, Recent, IsStart, StartsSession;
    var q := Recorded(WithStart(p, t), CloseoutStarted(t));
    LastIsStart(WithStart(p, t), t);
    OtherKeyIsNoRepeat(q.events, q.events[|q.events| - 1], CloseoutComplete(t));
    StartsSessionIff(ClosedOut(p, t), r);
    PlainState(q, CloseoutComplete(t));
  }

  lemma PlainState(p: Payload, r: Request)
    requires !IsStart(r.eventType) && !RepeatsLast(p.events, r)
    ensures Recorded(p, r).state == r.state && Recorded(p, r).lastEventType == r.eventType
  {
    hide Recent, EventFor;
  }

  /** Whether recorded now or before, the start of the closeout is the file's last event. */
  lemma LastIsStart(p: Payload, t: Target)
    ensures var q := Recorded(p, CloseoutStarted(t));
            q.events != [] && q.events[|q.events| - 1].idempotencyKey == CloseoutStarted(t).idempotencyKey
  {
    StartNames();
    hide KeyFor, IsStart;
    if !RepeatsLast(p.events, CloseoutStarted(t)) {
      PlainCall(p, CloseoutStarted(t));
      EndsWith(p.events, EventFor(p.branch, p.worktreePath, CloseoutStarted(t)));
    }
  }

  /** Events that end with a start and an end of closeout pass exactly when a start event is left. */
  lemma EndedPassIff(front: seq<Event>, s: Event, c: Event)
    requires s.eventType == "closeout-started" && c.eventType == "closeout-complete"
    ensures Passes(front + [s, c]) <==> HasStart(front)
  {
    StartNames();
    var events := front + [s, c];
    assert [s, c][0] == s && s in events;
    var all := front + [s];
    assert events == all + [c];
    hide IsStart, EventTypes, Passes;
    PassesMeans(events);
    OneType(c);
    LastTypeOfSuffix(all, [c]);
    if HasStart(front) {
      var e :| e in front && IsStart(e.eventType);
      assert e in events;
    }
  }

  /** The same when the closeout had been started before. */
  lemma ResumedPassIff(front: seq<Event>, c: Event)
    requires front != [] && front[|front| - 1].eventType == "closeout-started" && c.eventType == "closeout-complete"
    ensures Passes(front + [c]) <==> HasStart(front)
  {
    var s := front[|front| - 1];
    StartNames();
    assert front == front[..|front| - 1] + [s];
    assert front + [c] == front[..|front| - 1] + [s, c];
    EndedPassIff(front[..|front| - 1], s, c);
    hide IsStart;
    assert HasStart(front) <==> HasStart(front[..|front| - 1]);
  }

  lemma ResumedCalls(p: Payload, t: Target)
    requires |p.events| <= KEPT_EVENTS && RepeatsLast(p.events, CloseoutStarted(t))
    ensures exists c ::
              && Recorded(Recorded(p, CloseoutStarted(t)), CloseoutComplete(t)).events == LastOf(p.events, KEPT_EVENTS - 1) + [c]
              && c.eventType == "closeout-complete"
  {
    StartNames();
    CloseoutKeys(t);
    hide IsStart, KeyFor, LastOf, Recent;
    assert Recorded(p, CloseoutStarted(t)) == p;
    PlainCall(p, CloseoutComplete(t));
    RecentOfConcat(p.events, [EventFor(p.branch, p.worktreePath, CloseoutComplete(t))]);
  }

  /** A closeout that goes through fails its own audit exactly when the file had a start event, but none
      among the events that are left once the closeout has recorded its own. A file that had lost its start
      events altogether is given a new one and passes. */
  lemma CloseoutPassesIff(p: Payload, t: Target)
    requires |p.events| <= KEPT_EVENTS && KeysAreHonest(p.events, t)
    ensures Passes(ClosedOut(p, t).events)
       <==> !HasStart(p.events) || HasStart(LastOf(p.events, Room(p.events, t)))
  {
    hide Recorded, Passes, IsStart, KeyFor, Recent, LastOf;
    if !HasStart(p.events) {
      BackfillCall(p, t);
      var base, e :| Recorded(p, Backfill(t)).events == Recent(base + [e]) && IsStart(e.eventType)
                     && e.idempotencyKey == Backfill(t).idempotencyKey;
      var q := Recorded(p, Backfill(t));
      EndsWith(base, e);
      CloseoutKeys(t);
      OtherKeyIsNoRepeat(q.events, e, CloseoutStarted(t));
      FinalCalls(q, t);
      var s, c :| ClosedOut(p, t).events == LastOf(q.events, KEPT_EVENTS - 2) + [s, c]
                  && s.eventType == "closeout-started" && c.eventType == "closeout-complete";
      LastIsKept(q.events, KEPT_EVENTS - 2);
      EndedPassIff(LastOf(q.events, KEPT_EVENTS - 2), s, c);
    } else if RepeatsLast(p.events, CloseoutStarted(t)) {
      ResumedCalls(p, t);
      var c :| ClosedOut(p, t).events == LastOf(p.events, KEPT_EVENTS - 1) + [c] && c.eventType == "closeout-complete";
      LastIsKept(p.events, KEPT_EVENTS - 1);
      ResumedPassIff(LastOf(p.events, KEPT_EVENTS - 1), c);
    } else {
      FinalCalls(p, t);
      var s, c :| ClosedOut(p, t).events == LastOf(p.events, KEPT_EVENTS - 2) + [s, c]
                  && s.eventType == "closeout-started" && c.eventType == "closeout-complete";
      EndedPassIff(LastOf(p.events, KEPT_EVENTS - 2), s, c);
    }
  }

  lemma LastIsKept(events: seq<Event>, m: nat)
    requires events != [] && m > 0
    ensures var r := LastOf(events, m); r != [] && r[|r| - 1] == events[|events| - 1] && events[|events| - 1] in r
  {}

  // ---- A session whose closeout fails ----

  /** A session as the commands record it: the worktree is created, then the agent is launched `n` times,
      with the settings `u` and `v` in turn (a launch with the settings of the last one is a repeat). */
  function Working(t: Target, u: string, v: string, n: nat): seq<Request> {
    [Request("worktree-created", "worktree-ready", t.branch, t.path, KeyFor("create", t))]
    + seq(n, k => Launch(t, if k % 2 == 0 then u else v))
  }

  function Launch(t: Target, settings: string): Request {
    Request("agent-launch-requested", "agent-launching", t.branch, t.path, LaunchKey(t, settings))
  }

  function LaunchKey(t: Target, settings: string): string {
    "agent:" + Decimal(t.issue) + ":" + t.path + ":" + settings
  }

  lemma LaunchKeysDiffer(t: Target, u: string, v: string)
    requires u != v
    ensures LaunchKey(t, u) != LaunchKey(t, v)
  {
    hide Decimal;
    var pre := "agent:" + Decimal(t.issue) + ":" + t.path + ":";
    assert LaunchKey(t, u)[|pre|..] == u && LaunchKey(t, v)[|pre|..] == v;
  }

  lemma WorkingKeys(t: Target, u: string, v: string)
    requires u != v
    ensures LaunchKey(t, u) != LaunchKey(t, v)
    ensures forall settings :: LaunchKey(t, settings) != "" && LaunchKey(t, settings)[0] == 'a'
    ensures KeyFor("create", t)[..2] == "cr"
    ensures forall r :: r == Backfill(t) || r == CloseoutStarted(t) || r == CloseoutComplete(t) ==> r.idempotencyKey[..2] == "cl"
  {
    hide Decimal;
    LaunchKeysDiffer(t, u, v);
    KeyStart("create", t);
    KeyStart("closeout-start-backfill", t);
    KeyStart("closeout-started", t);
    KeyStart("closeout-complete", t);
  }

  lemma KeyStart(kind: string, t: Target)
    requires |kind| >= 2
    ensures |KeyFor(kind, t)| >= 2 && KeyFor(kind, t)[..2] == kind[..2]
  {}

  lemma SessionStep(calls: seq<Request>, r: Request)
    ensures SessionAfter(calls + [r]) == Logged(SessionAfter(calls), r)
  {
    assert (calls + [r])[..|calls|] == calls;
  }

  lemma PlainCallIsLogged(s: Session, r: Request)
    requires !IsStart(r.eventType) && !RepeatsLast(s.log, r) && r.branch == s.branch && r.worktreePath == s.worktreePath
    ensures Logged(s, r) == Session(s.branch, s.worktreePath, r.state,
                                    s.log + [Event(r.eventType, r.state, s.branch, s.worktreePath, r.idempotencyKey)])
  {}

  /** The keys of this session are those of its start and of its launches. */
  predicate IsWorkingKey(key: string) {
    |key| >= 2 && (key[..2] == "cr" || key[0] == 'a')
  }

  ghost predicate IsWorkingLog(s: Session, t: Target, n: nat, lastKey: string) {
    && s.branch == t.branch && s.worktreePath == t.path && |s.log| == n + 1
    && IsStart(s.log[0].eventType) && s.log[n].idempotencyKey == lastKey
    && (forall k :: 1 <= k <= n ==> s.log[k].eventType == "agent-launch-requested")
    && (forall e :: e in s.log ==> IsWorkingKey(e.idempotencyKey))
  }

  function LastKey(t: Target, u: string, v: string, n: nat): string {
    if n == 0 then KeyFor("create", t) else LaunchKey(t, if n % 2 == 1 then u else v)
  }

  lemma FirstCallLog(t: Target)
    ensures IsWorkingLog(SessionAfter([Request("worktree-created", "worktree-ready", t.branch, t.path, KeyFor("create", t))]),
                         t, 0, KeyFor("create", t))
  {
    StartNames();
    WorkingKeys(t, "u", "v");
    hide KeyFor, IsStart;
    var r := Request("worktree-created", "worktree-ready", t.branch, t.path, KeyFor("create", t));
    assert [r] == [] + [r];
    SessionStep([], r);
  }

  lemma LaunchLog(s: Session, t: Target, n: nat, lastKey: string, r: Request)
    requires IsWorkingLog(s, t, n, lastKey) && lastKey != r.idempotencyKey && IsWorkingKey(r.idempotencyKey)
    requires r.eventType == "agent-launch-requested" && r.branch == t.branch && r.worktreePath == t.path
    ensures IsWorkingLog(Logged(s, r), t, n + 1, r.idempotencyKey)
  {
    StartNames();
    hide IsStart, IsWorkingKey, Logged;
    PlainCallIsLogged(s, r);
  }

  lemma {:induction false} WorkingLog(t: Target, u: string, v: string, n: nat)
    requires u != v
    ensures IsWorkingLog(SessionAfter(Working(t, u, v, n)), t, n, LastKey(t, u, v, n))
  {
    hide KeyFor, LaunchKey, SessionAfter, Logged, IsWorkingLog, Decimal, IsWorkingKey;
    if n == 0 {
      FirstCallLog(t);
      assert Working(t, u, v, 0) == [Request("worktree-created", "worktree-ready", t.branch, t.path, KeyFor("create", t))];
    } else {
      WorkingLog(t, u, v, n - 1);
      var r := Launch(t, if n % 2 == 1 then u else v);
      assert Working(t, u, v, n) == Working(t, u, v, n - 1) + [r];
      SessionStep(Working(t, u, v, n - 1), r);
      KeysAlternate(t, u, v, n);
      LaunchLog(SessionAfter(Working(t, u, v, n - 1)), t, n - 1, LastKey(t, u, v, n - 1), r);
    }
  }

  lemma KeysAlternate(t: Target, u: string, v: string, n: nat)
    requires u != v && n > 0
    ensures LastKey(t, u, v, n - 1) != LastKey(t, u, v, n)
    ensures IsWorkingKey(LastKey(t, u, v, n))
  {
    WorkingKeys(t, u, v);
    hide KeyFor, LaunchKey;
    LaunchKeyLength(t, if n % 2 == 1 then u else v);
    assert KeyFor("create", t)[..2][0] == 'c';
  }

  lemma LaunchKeyLength(t: Target, settings: string)
    ensures |LaunchKey(t, settings)| >= 2
  {}

  /** Such a session passes its audit for every number of launches but two: with 48 or 49 of them the start
      event is still in the file when the closeout looks for it, and no longer when the audit does. */
  lemma WorkingSessionPassesIff(t: Target, u: string, v: string, n: nat)
    requires u != v
    ensures Passes(ClosedOut(AfterCalls(Working(t, u, v, n)), t).events) <==> n != 48 && n != 49
  {
    var calls := Working(t, u, v, n);
    var log := SessionAfter(calls).log;
    var events := AfterCalls(calls).events;
    WorkingLog(t, u, v, n);
    FileIsWindowOnLog(calls);
    hide Working, SessionAfter, AfterCalls, ClosedOut, Passes;
    assert events == Recent(log);
    WorkingKeys(t, u, v);
    WorkingKeysAreHonest(events, t) by {
      assert forall e :: e in events ==> e in log;
    }
    WorkingStarts(log, n);
    CloseoutPassesIff(AfterCalls(calls), t);
  }

  lemma WorkingKeysAreHonest(events: seq<Event>, t: Target)
    requires forall e :: e in events ==> IsWorkingKey(e.idempotencyKey)
    ensures KeysAreHonest(events, t) && Room(events, t) == KEPT_EVENTS - 2
  {
    WorkingKeys(t, "u", "v");
    hide KeyFor;
    assert events != [] ==> events[|events| - 1] in events;
    forall e | e in events ensures e.idempotencyKey != Backfill(t).idempotencyKey
                                   && e.idempotencyKey != CloseoutStarted(t).idempotencyKey
                                   && e.idempotencyKey != CloseoutComplete(t).idempotencyKey
    {
      assert IsWorkingKey(e.idempotencyKey);
      assert "cl"[0] == 'c' && "cl"[1] == 'l' && "cr"[1] == 'r';
    }
  }

  lemma WorkingStarts(log: seq<Event>, n: nat)
    requires |log| == n + 1 && IsStart(log[0].eventType)
    requires forall k :: 1 <= k <= n ==> log[k].eventType == "agent-launch-requested"
    ensures HasStart(Recent(log)) <==> n + 1 <= KEPT_EVENTS
    ensures HasStart(LastOf(Recent(log), KEPT_EVENTS - 2)) <==> n + 1 <= KEPT_EVENTS - 2
  {
    StartNames();
    hide IsStart;
    StartsInSuffix(log, if n + 1 <= KEPT_EVENTS then 0 else n + 1 - KEPT_EVENTS);
    StartsInSuffix(log, if n + 1 <= KEPT_EVENTS - 2 then 0 else n + 1 - (KEPT_EVENTS - 2));
    assert Recent(log) == log[if n + 1 <= KEPT_EVENTS then 0 else n + 1 - KEPT_EVENTS..];
    assert LastOf(Recent(log), KEPT_EVENTS - 2) == log[if n + 1 <= KEPT_EVENTS - 2 then 0 else n + 1 - (KEPT_EVENTS - 2)..];
  }

  lemma StartsInSuffix(log: seq<Event>, i: nat)
    requires i < |log| && IsStart(log[0].eventType)
    requires forall k :: 1 <= k < |log| ==> !IsStart(log[k].eventType)
    ensures HasStart(log[i..]) <==> i == 0
  {
    hide IsStart;
    if i == 0 {
      assert log[0..] == log && log[0] in log;
    } else {
      forall e | e in log[i..] ensures !IsStart(e.eventType) {
        var k :| 0 <= k < |log[i..]| && log[i..][k] == e;
        assert e == log[i + k];
      }
    }
  }

  lemma OneType(e: Event)
    requires e.eventType != ""
    ensures EventTypes([e]) == [e.eventType]
  {
    assert Filter(IsTyped, [e]) == [e];
  }
}
