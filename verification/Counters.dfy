/** The shared token counters (src/bridge/tpm_limiter.py): the timed key store, the scripts that run on
    it, the clients, and what any interleaving of clients does to one counter. */
module Counters {
  import opened Prelude
  import opened Text
  import opened CounterKey

  const COUNTER_TTL_SECONDS := 90

  // ---- The key store ----

  datatype Entry = Entry(value: int, expires: Option<real>)

  type Store = map<Key, Entry>

  predicate Alive(e: Entry, now: real) {
    e.expires.None? || now < e.expires.value
  }

  /** GET. */
  function Lookup(s: Store, k: Key, now: real): Option<int> {
    if k in s && Alive(s[k], now) then Some(s[k].value) else None
  }

  /** INCRBY: an absent or expired key starts at 0 and gets no expiry; a live one keeps its expiry. */
  function Incremented(s: Store, k: Key, amount: int, now: real): (s': Store)
    ensures Lookup(s', k, now) == Some((if Lookup(s, k, now).Some? then Lookup(s, k, now).value else 0) + amount)
    ensures forall l :: l != k ==> Lookup(s', l, now) == Lookup(s, l, now)
  {
    match Lookup(s, k, now)
    case None => s[k := Entry(amount, None)]
    case Some(v) => s[k := Entry(v + amount, s[k].expires)]
  }

  /** EXPIRE. */
  function Armed(s: Store, k: Key, seconds: nat, now: real): Store {
    if Lookup(s, k, now).None? then s else s[k := s[k].(expires := Some(now + seconds as real))]
  }

  datatype CheckReply = CheckReply(store: Store, used: int, allowed: bool)

  /** The pre-request script: the whole of it is one atomic step. */
  function CheckScript(s: Store, k: Key, limit: int, estimate: int, expiry: nat, now: real): CheckReply {
    var current := Lookup(s, k, now);
    if limit > 0 && current.Some? && current.value + estimate > limit then
      CheckReply(s, current.value, false)
    else
      var s1 := Incremented(s, k, estimate, now);
      var newVal := s1[k].value;
      CheckReply(if newVal == estimate then Armed(s1, k, expiry, now) else s1, newVal, true)
  }

  /** The correction: nothing at all when the estimate was exact. */
  function Corrected(s: Store, k: Key, estimate: int, actual: int, now: real): Store {
    if actual == estimate then s else Incremented(s, k, actual - estimate, now)
  }

  /** The MULTI/EXEC of the log-only step. */
  function Logged(s: Store, k: Key, actual: int, estimatedKey: Key, estimated: int, now: real): Store {
    var s1 := Armed(Incremented(s, k, actual, now), k, COUNTER_TTL_SECONDS, now);
    Armed(Incremented(s1, estimatedKey, estimated, now), estimatedKey, COUNTER_TTL_SECONDS, now)
  }

  /** The store as the clients change it, one command or script at a time. */
  class CounterServer {
    var entries: Store

    constructor ()
      ensures entries == map[]
    {
      entries := map[];
    }

    method IncrBy(key: Key, amount: int, now: real) returns (value: int)
      modifies this
      ensures entries == Incremented(old(entries), key, amount, now)
      ensures Lookup(entries, key, now) == Some(value)
    {
      if key in entries && Alive(entries[key], now) {
        value := entries[key].value + amount;
        entries := entries[key := entries[key].(value := value)];
      } else {
        value := amount;
        entries := entries[key := Entry(amount, None)];
      }
    }

    method Expire(key: Key, seconds: nat, now: real)
      modifies this
      ensures entries == Armed(old(entries), key, seconds, now)
    {
      if key in entries && Alive(entries[key], now) {
        entries := entries[key := entries[key].(expires := Some(now + seconds as real))];
      }
    }

    method CheckAndIncrement(key: Key, limit: int, estimate: int, ttlSeconds: nat, now: real)
        returns (used: int, success: bool)
      modifies this
      ensures CheckReply(entries, used, success) == CheckScript(old(entries), key, limit, estimate, ttlSeconds, now)
    {
      var current := Lookup(entries, key, now);
      if limit > 0 && current.Some? && current.value + estimate > limit {
        return current.value, false;
      }
      var newVal := IncrBy(key, estimate, now);
      if newVal == estimate {
        Expire(key, ttlSeconds, now);
      }
      return newVal, true;
    }

    /** Answers 0, not the counter, when there is nothing to correct. */
    method CorrectUsage(key: Key, estimate: int, actual: int, now: real) returns (value: int)
      modifies this
      ensures entries == Corrected(old(entries), key, estimate, actual, now)
      ensures actual == estimate ==> value == 0
      ensures actual != estimate ==> Lookup(entries, key, now) == Some(value)
    {
      var diff := actual - estimate;
      if diff == 0 {
        return 0;
      }
      value := IncrBy(key, diff, now);
    }

    method IncrementWindows(actualKey: Key, actualTokens: int, estimatedKey: Key, estimatedTokens: int, now: real)
        returns (windowUsage: int)
      requires actualKey != estimatedKey
      modifies this
      ensures entries == Logged(old(entries), actualKey, actualTokens, estimatedKey, estimatedTokens, now)
      ensures Lookup(entries, actualKey, now) == Some(windowUsage)
    {
      windowUsage := IncrBy(actualKey, actualTokens, now);
      Expire(actualKey, COUNTER_TTL_SECONDS, now);
      var _ := IncrBy(estimatedKey, estimatedTokens, now);
      Expire(estimatedKey, COUNTER_TTL_SECONDS, now);
    }
  }

  // ---- Clients ----

  /** An agent record as the limiter uses it; `modelId` is empty when the record has none. */
  datatype Agent = Agent(name: string, modelId: string)

  /** The model under which the pre-request check counts. */
  function CheckModel(a: Agent): string {
    if a.modelId != "" then a.modelId else "unknown"
  }

  /** The model under which the correction counts. */
  function CorrectionModel(a: Agent): string {
    if a.modelId != "" then a.modelId else a.name
  }

  /** The model under which the log-only step counts: what the response reported, else the agent's name. */
  function LogModel(reported: string, a: Agent): string {
    if Strip(reported) != "" then Strip(reported) else a.name
  }

  datatype RateLimitResult = RateLimitResult(allowed: bool, limit: int, used: int, resetSeconds: int)

  /** TokenLimiter. A client reads its clock (`issued`), and the store runs the command at `now`, if it is
      `executed`; the client learns the outcome only if it is `answered`: a reply may be lost after the
      command ran. Without a store, or without an answer, it fails open. */
  class TokenLimiter {
    const client: CounterServer?

    constructor (client: CounterServer?)
      ensures this.client == client
    {
      this.client := client;
    }

    method CheckAndIncrement(tenant: string, model: string, limit: int, estimate: int,
                             issued: real, now: real, executed: bool, answered: bool) returns (r: RateLimitResult)
      requires answered ==> executed
      modifies client
      ensures r.limit == (if limit > 0 then limit else -1)
      ensures r.resetSeconds == WindowExpiry(issued) - issued.Floor && 0 < r.resetSeconds <= WINDOW_SECONDS
      ensures client == null || !answered ==> r.allowed && r.used == estimate
      ensures client != null && !executed ==> client.entries == old(client.entries)
      ensures client != null && executed ==>
                var reply := CheckScript(old(client.entries), Key(tenant, model, "tpm", WindowExpiry(issued)),
                                         limit, estimate, COUNTER_TTL_SECONDS, now);
                && client.entries == reply.store
                && (answered ==> r.used == reply.used && r.allowed == reply.allowed)
    {
      var windowExpiry := WindowExpiry(issued);
      var resetSeconds := windowExpiry - issued.Floor;
      r := RateLimitResult(true, if limit > 0 then limit else -1, estimate, resetSeconds);
      if client != null && executed {
        var used, success := client.CheckAndIncrement(
          Key(tenant, model, "tpm", windowExpiry), limit, estimate, COUNTER_TTL_SECONDS, now);
        if answered {
          r := r.(allowed := success, used := used);
        }
      }
    }

    method CorrectUsage(tenant: string, model: string, estimate: int, actual: int,
                        issued: real, now: real, executed: bool, answered: bool) returns (value: int)
      requires answered ==> executed
      modifies client
      ensures client == null ==> value == actual
      ensures client != null && actual == estimate ==> value == 0 && client.entries == old(client.entries)
      ensures client != null && actual != estimate && !answered ==> value == actual
      ensures client != null && !executed ==> client.entries == old(client.entries)
      ensures client != null && executed ==>
                var key := Key(tenant, model, "tpm", WindowExpiry(issued));
                && client.entries == Corrected(old(client.entries), key, estimate, actual, now)
                && (answered && actual != estimate ==> Lookup(client.entries, key, now) == Some(value))
    {
      value := actual;
      // Without a difference no command is sent.
      if client != null && (executed || actual == estimate) {
        var corrected := client.CorrectUsage(Key(tenant, model, "tpm", WindowExpiry(issued)), estimate, actual, now);
        if answered || actual == estimate {
          value := corrected;
        }
      }
    }
  }

  // ---- Runs: any interleaving of any number of clients ----

  /** What one client does to the store. `executed` is false when the command never ran there. */
  datatype Op =
    | Check(req: nat, limit: int, estimate: int)
    | Correct(req: nat, estimate: int, actual: int)
    | Log(reported: string, actual: int, estimated: int)

  datatype Event = Event(issued: real, now: real, executed: bool, tenant: string, agent: Agent, op: Op)

  type Trace = seq<Event>

  /** The tokens-per-minute counter that an event addresses. */
  function Target(e: Event): Key {
    var model := match e.op
                 case Check(_, _, _) => CheckModel(e.agent)
                 case Correct(_, _, _) => CorrectionModel(e.agent)
                 case Log(reported, _, _) => LogModel(reported, e.agent);
    Key(e.tenant, model, "tpm", WindowExpiry(e.issued))
  }

  function EstimatedTarget(e: Event): Key {
    Target(e).(counter := "tpm_estimated")
  }

  function Apply(s: Store, e: Event): Store {
    if !e.executed then s
    else match e.op
      case Check(_, limit, estimate) => CheckScript(s, Target(e), limit, estimate, COUNTER_TTL_SECONDS, e.now).store
      case Correct(_, estimate, actual) => Corrected(s, Target(e), estimate, actual, e.now)
      case Log(_, actual, estimated) =>
        Logged(s, Target(e), Max(0, actual), EstimatedTarget(e), Max(0, estimated), e.now)
  }

  function Run(trace: Trace): Store {
    if trace == [] then map[] else Apply(Run(trace[..|trace| - 1]), trace[|trace| - 1])
  }

  /** The store runs commands in time order, each after its client read the clock. */
  predicate WellTimed(trace: Trace) {
    && (forall i :: 0 <= i < |trace| ==> 0.0 <= trace[i].issued <= trace[i].now)
    && (forall i, j :: 0 <= i < j < |trace| ==> trace[i].now <= trace[j].now)
  }

  /** The check reached the store, and the script let it in. */
  predicate Charged(s: Store, e: Event) {
    e.op.Check? && e.executed && CheckScript(s, Target(e), e.op.limit, e.op.estimate, COUNTER_TTL_SECONDS, e.now).allowed
  }

  /** What `e` adds to its tokens-per-minute counter when it runs on `s`. */
  function Amount(s: Store, e: Event): int {
    match e.op
    case Check(_, _, estimate) => if Charged(s, e) then estimate else 0
    case Correct(_, estimate, actual) => if e.executed then actual - estimate else 0
    case Log(_, actual, _) => if e.executed then Max(0, actual) else 0
  }

  /** Whether `e` writes its tokens-per-minute counter when it runs on `s`. */
  predicate Writes(s: Store, e: Event) {
    match e.op
    case Check(_, _, _) => Charged(s, e)
    case Correct(_, estimate, actual) => e.executed && actual != estimate
    case Log(_, _, _) => e.executed
  }

  /** The book-keeping of one counter: everything ever added to it, expiry aside. */
  function Ledger(trace: Trace, k: Key): int {
    if trace == [] then 0
    else
      var init, e := trace[..|trace| - 1], trace[|trace| - 1];
      Ledger(init, k) + if Target(e) == k then Amount(Run(init), e) else 0
  }

  predicate Touched(trace: Trace, k: Key) {
    if trace == [] then false
    else
      var init, e := trace[..|trace| - 1], trace[|trace| - 1];
      Touched(init, k) || (Target(e) == k && Writes(Run(init), e))
  }

  /** Some write since the start set an expiry: a log step, or a check that found the counter at 0 or absent. */
  predicate GotExpiry(trace: Trace, k: Key) {
    if trace == [] then false
    else
      var init, e := trace[..|trace| - 1], trace[|trace| - 1];
      || GotExpiry(init, k)
      || (Target(e) == k && e.executed && e.op.Log?)
      || (Target(e) == k && Charged(Run(init), e) && Ledger(init, k) == 0)
  }

  /** How long past its window's end a counter is sure to hold its full charge. */
  const GRACE := COUNTER_TTL_SECONDS - WINDOW_SECONDS

  /** What the store holds for a tokens-per-minute counter whose window (and grace) is not over. */
  ghost predicate Faithful(s: Store, trace: Trace, k: Key) {
    && (k in s <==> Touched(trace, k))
    && (k in s ==> s[k].value == Ledger(trace, k))
    && (k in s ==> (s[k].expires.None? <==> !GotExpiry(trace, k)))
    && (k in s && s[k].expires.Some? ==> (k.window + GRACE) as real <= s[k].expires.value)
    && (!Touched(trace, k) ==> Ledger(trace, k) == 0 && !GotExpiry(trace, k))
  }

  /** An expiry set by a client whose window was still open when it read its clock outlasts the grace. */
  lemma ExpiryOutlastsGrace(e: Event)
    requires 0.0 <= e.issued <= e.now
    ensures (Target(e).window + GRACE) as real <= e.now + COUNTER_TTL_SECONDS as real
  {
    WindowIsOpen(e.issued);
  }

  /** One more event: the book-keeping of `k` after it. */
  lemma BookKeepingStep(init: Trace, e: Event, k: Key)
    ensures var s := Run(init);
            var mine := Target(e) == k;
            && Run(init + [e]) == Apply(s, e)
            && Ledger(init + [e], k) == Ledger(init, k) + (if mine then Amount(s, e) else 0)
            && (Touched(init + [e], k) <==> Touched(init, k) || (mine && Writes(s, e)))
            && (GotExpiry(init + [e], k)
                <==> GotExpiry(init, k) || (mine && e.executed && e.op.Log?)
                     || (mine && Charged(s, e) && Ledger(init, k) == 0))
  {
    var trace := init + [e];
    assert trace[..|trace| - 1] == init && trace[|trace| - 1] == e;
  }

  /** An event leaves the counters it does not address as they were. */
  lemma OtherCounters(s: Store, e: Event, k: Key)
    requires Target(e) != k && k.counter == "tpm"
    ensures k in Apply(s, e) <==> k in s
    ensures k in s ==> Apply(s, e)[k] == s[k]
  {
    hide Target;
    assert EstimatedTarget(e) != k;
  }

  lemma StepFaithful(init: Trace, e: Event, k: Key)
    requires Faithful(Run(init), init, k) && k.counter == "tpm"
    requires 0.0 <= e.issued <= e.now < (k.window + GRACE) as real
    ensures Faithful(Run(init + [e]), init + [e], k)
  {
    hide Run, WindowExpiry, LogModel, Ledger, Touched, GotExpiry;
    var s := Run(init);
    BookKeepingStep(init, e, k);
    if Target(e) != k {
      OtherCounters(s, e, k);
    } else if e.executed {
      ExpiryOutlastsGrace(e);
      var other := EstimatedTarget(e);
      assert other != k;
      hide EstimatedTarget, Target;
      assert k in s ==> Alive(s[k], e.now);
      match e.op
      case Check(_, limit, estimate) =>
      case Correct(_, _, _) =>
      case Log(_, actual, estimated) =>
    }
  }

  /** However the clients interleave, until the grace after its window is over the store holds exactly
      the full charge of a counter, and holds nothing exactly when nothing was ever charged. */
  lemma {:induction false} FullCharge(trace: Trace, k: Key)
    requires WellTimed(trace) && k.counter == "tpm"
    requires forall i :: 0 <= i < |trace| ==> trace[i].now < (k.window + GRACE) as real
    ensures Faithful(Run(trace), trace, k)
    ensures forall t: real :: t < (k.window + GRACE) as real ==>
              Lookup(Run(trace), k, t) == if Touched(trace, k) then Some(Ledger(trace, k)) else None
  {
    if trace != [] {
      var init, e := trace[..|trace| - 1], trace[|trace| - 1];
      FullCharge(init, k);
      StepFaithful(init, e, k);
      assert trace == init + [e];
    }
  }

  /** Admission decides on the full charge: while the window (and grace) lasts, an executed check is let
      in exactly when there is no limit, nothing was charged yet, or the charge stays within the limit;
      it reports the full charge; and a refusal changes nothing. */
  lemma AdmissionIsExact(trace: Trace, e: Event)
    requires WellTimed(trace + [e]) && e.op.Check? && e.executed
    requires e.now < (Target(e).window + GRACE) as real
    ensures var k := Target(e);
            var reply := CheckScript(Run(trace), k, e.op.limit, e.op.estimate, COUNTER_TTL_SECONDS, e.now);
            && (reply.allowed <==> e.op.limit <= 0 || !Touched(trace, k) || Ledger(trace, k) + e.op.estimate <= e.op.limit)
            && (reply.allowed ==> reply.used == Ledger(trace + [e], k) == Ledger(trace, k) + e.op.estimate)
            && (!reply.allowed ==> reply.store == Run(trace) == Run(trace + [e]) && reply.used == Ledger(trace, k))
  {
    hide Run, Ledger, Touched, GotExpiry, WindowExpiry, LogModel, EstimatedTarget;
    var all := trace + [e];
    assert all[|trace|] == e && forall i :: 0 <= i < |trace| ==> all[i] == trace[i];
    FullCharge(trace, Target(e));
    BookKeepingStep(trace, e, Target(e));
    hide Target;
    assert Lookup(Run(trace), Target(e), e.now)
        == if Touched(trace, Target(e)) then Some(Ledger(trace, Target(e))) else None;
  }

  /** The charge the counter started with: the first accepted estimate, when a check wrote it first. */
  function FirstEstimate(trace: Trace, k: Key): int {
    if trace == [] then 0
    else
      var init, e := trace[..|trace| - 1], trace[|trace| - 1];
      if Touched(init, k) then FirstEstimate(init, k)
      else if Target(e) == k && Charged(Run(init), e) then e.op.estimate
      else 0
  }

  /** What corrections and log steps added to the counter, counting only the increases. */
  function Upward(trace: Trace, k: Key): nat {
    if trace == [] then 0
    else
      var init, e := trace[..|trace| - 1], trace[|trace| - 1];
      Upward(init, k) + if Target(e) == k && !e.op.Check? then Max(0, Amount(Run(init), e)) else 0
  }

  /** Every check on `k` carries a limit between 1 and `cap`. */
  predicate CappedChecks(trace: Trace, k: Key, cap: int) {
    forall i :: 0 <= i < |trace| && trace[i].op.Check? && Target(trace[i]) == k ==> 0 < trace[i].op.limit <= cap
  }

  /** Only the first request, corrections and log steps can carry a counter past the limit: under any
      interleaving its charge is at most max(limit, first accepted estimate) plus the increases that
      corrections and log steps made. */
  lemma {:induction false} ChargeIsBounded(trace: Trace, k: Key, cap: int)
    requires WellTimed(trace) && k.counter == "tpm" && cap > 0 && CappedChecks(trace, k, cap)
    requires forall i :: 0 <= i < |trace| ==> trace[i].now < (k.window + GRACE) as real
    ensures Ledger(trace, k) <= Max(cap, FirstEstimate(trace, k)) + Upward(trace, k)
  {
    if trace != [] {
      var init, e := trace[..|trace| - 1], trace[|trace| - 1];
      assert trace == init + [e];
      ChargeIsBounded(init, k, cap);
      FullCharge(init, k);
      if Target(e) == k && e.op.Check? && e.executed {
        AdmissionIsExact(init, e);
      }
    }
  }

  /** With checks alone, the bound is max(limit, first accepted estimate). */
  lemma {:induction false} ChecksAloneAddNothing(trace: Trace, k: Key)
    requires forall i :: 0 <= i < |trace| && Target(trace[i]) == k ==> trace[i].op.Check?
    ensures Upward(trace, k) == 0
  {
    if trace != [] {
      ChecksAloneAddNothing(trace[..|trace| - 1], k);
    }
  }

  lemma ChecksAloneStayCapped(trace: Trace, k: Key, cap: int)
    requires WellTimed(trace) && k.counter == "tpm" && cap > 0 && CappedChecks(trace, k, cap)
    requires forall i :: 0 <= i < |trace| ==> trace[i].now < (k.window + GRACE) as real
    requires forall i :: 0 <= i < |trace| && Target(trace[i]) == k ==> trace[i].op.Check?
    ensures k in Run(trace) ==> Run(trace)[k].value <= Max(cap, FirstEstimate(trace, k))
  {
    ChargeIsBounded(trace, k, cap);
    ChecksAloneAddNothing(trace, k);
    FullCharge(trace, k);
  }

  /** Until the grace is over, a counter is in the store without an expiry exactly when it was written, and
      neither by a log step nor by a check that found it at 0 or absent. */
  lemma NeverExpiresIff(trace: Trace, k: Key)
    requires WellTimed(trace) && k.counter == "tpm"
    requires forall i :: 0 <= i < |trace| ==> trace[i].now < (k.window + GRACE) as real
    ensures (k in Run(trace) && Run(trace)[k].expires == None) <==> (Touched(trace, k) && !GotExpiry(trace, k))
  {
    FullCharge(trace, k);
  }

  /** From then on it stays for ever, unless a later command addresses it. */
  lemma {:induction false} UnaddressedStays(trace: Trace, more: Trace, k: Key)
    requires k.counter == "tpm" && k in Run(trace)
    requires forall i :: 0 <= i < |more| ==> Target(more[i]) != k
    ensures k in Run(trace + more) && Run(trace + more)[k] == Run(trace)[k]
  {
    hide Run, Target, Apply;
    if more == [] {
      assert trace + more == trace;
    } else {
      var init, e := more[..|more| - 1], more[|more| - 1];
      assert trace + more == (trace + init) + [e];
      UnaddressedStays(trace, init, k);
      RunAppend(trace + init, e);
      OtherCounters(Run(trace + init), e, k);
    }
  }

  lemma RunAppend(init: Trace, e: Event)
    ensures Run(init + [e]) == Apply(Run(init), e)
  {
    assert (init + [e])[..|init|] == init;
  }

  /** How long a counter lives: one that a check or a log step sets up is there for exactly 90 seconds from
      then on, and the log step keeps its two counters under the two names. */
  lemma FreshCounterLives(s: Store, e: Event, t: real)
    requires e.executed && (e.op.Check? || e.op.Log?) && Lookup(s, Target(e), e.now).None? && e.now <= t
    ensures var model := Target(e).model;
            && Lookup(Apply(s, e), Key(e.tenant, model, "tpm", WindowExpiry(e.issued)), t)
               == (if t < e.now + 90.0 then Some(if e.op.Check? then e.op.estimate else Max(0, e.op.actual)) else None)
            && (e.op.Log? && Lookup(s, EstimatedTarget(e), e.now).None? ==>
                  Lookup(Apply(s, e), Key(e.tenant, model, "tpm_estimated", WindowExpiry(e.issued)), t)
                  == if t < e.now + 90.0 then Some(Max(0, e.op.estimated)) else None)
  {
    hide WindowExpiry, LogModel;
  }

  /** A log step also renews both counters for 90 seconds, whatever they held. */
  lemma LogStepRenews(s: Store, e: Event, t: real)
    requires e.executed && e.op.Log? && e.now <= t
    ensures Lookup(Apply(s, e), Target(e), t).Some? <==> t < e.now + 90.0
    ensures Lookup(Apply(s, e), EstimatedTarget(e), t).Some? <==> t < e.now + 90.0
  {
    hide WindowExpiry, LogModel;
  }

  /** Which model a log step counts under: the one reported, without the white space around it, or the
      agent's name when nothing but white space was reported. So for an agent without a model id it meets the
      counter of the check exactly when "unknown" was reported, or nothing by an agent called "unknown". */
  lemma LogMeetsCheckIff(check: Event, log: Event, pre: string, core: string, post: string)
    requires check.op.Check? && log.op.Log? && check.tenant == log.tenant && check.agent == log.agent
    requires WindowExpiry(check.issued) == WindowExpiry(log.issued)
    requires log.op.reported == pre + core + post && forall c :: c in pre + post ==> c as int in SPACES
    requires core == "" || (core[0] as int !in SPACES && core[|core| - 1] as int !in SPACES)
    ensures Target(log).model == if core != "" then core else log.agent.name
    ensures Target(log) == Target(check)
       <==> (if core != "" then core else log.agent.name) == (if log.agent.modelId != "" then log.agent.modelId else "unknown")
  {
    hide SPACES, Strip, WindowExpiry;
    StripTakesSpaces(pre, core, post);
  }

  /** A correction that lands in the next window leaves a negative counter there that never expires. */
  lemma LateCorrectionLeaks(tenant: string, agent: Agent, limit: int, estimate: int, actual: int)
    requires agent.modelId != "" && 0 <= actual < estimate
    ensures var trace := [Event(0.0, 0.0, true, tenant, agent, Check(0, limit, estimate)),
                          Event(60.0, 60.0, true, tenant, agent, Correct(0, estimate, actual))];
            var k := Key(tenant, agent.modelId, "tpm", 120);
            && WellTimed(trace)
            && k in Run(trace) && Run(trace)[k] == Entry(actual - estimate, None) && actual - estimate < 0
  {
    var e := Event(0.0, 0.0, true, tenant, agent, Check(0, limit, estimate));
    var f := Event(60.0, 60.0, true, tenant, agent, Correct(0, estimate, actual));
    assert [e, f][..1] == [e] && [e][..0] == [];
    assert Run([e]) == Apply(map[], e);
    assert Target(e).window == 60 && Target(f).window == 120;
    assert Run([e, f]) == Apply(Run([e]), f);
  }
}
