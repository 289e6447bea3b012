/** Token conservation across windows: what all the counters of one tenant, or of one of its models, add up to, when
    corrections may land in later windows than the checks they correct. */
module Conservation {
  import opened Prelude
  import opened CounterKey
  import opened Counters
  import Agents

  /** The sum of the ledgers of the counters `keys`. */
  function Total(trace: Trace, keys: seq<Key>): int {
    if keys == [] then 0 else Ledger(trace, keys[0]) + Total(trace, keys[1..])
  }

  /** The counters of one tenant and model in the windows `ws`. */
  function WindowKeys(tenant: string, model: string, ws: seq<int>): (keys: seq<Key>)
    ensures |keys| == |ws|
  {
    seq(|ws|, i requires 0 <= i < |ws| => Key(tenant, model, "tpm", ws[i]))
  }

  /** `ws` lists, once each, at least the windows in which the clients of `trace` acted. */
  ghost predicate CoversWindows(trace: Trace, ws: seq<int>) {
    Distinct(ws) && forall i :: 0 <= i < |trace| ==> WindowExpiry(trace[i].issued) in ws
  }

  /** Which counters are summed up: those of one tenant and model, or of a tenant whatever the model. */
  datatype Scope = Scope(tenant: string, model: Option<string>)

  predicate InScope(k: Key, scope: Scope) {
    k.tenant == scope.tenant && k.counter == "tpm" && (scope.model.Some? ==> k.model == scope.model.value)
  }

  /** `keys` lists, once each, counters in scope, among them all that the clients of `trace` addressed. */
  ghost predicate CoversScope(trace: Trace, keys: seq<Key>, scope: Scope) {
    && Distinct(keys) && (forall k :: k in keys ==> InScope(k, scope))
    && forall i :: 0 <= i < |trace| && Counts(trace[i], scope) ==> Target(trace[i]) in keys
  }

  /** Request `req` was charged its estimate. */
  predicate ChargedRequest(trace: Trace, req: nat) {
    if trace == [] then false
    else
      var init, e := trace[..|trace| - 1], trace[|trace| - 1];
      ChargedRequest(init, req) || (Charged(Run(init), e) && e.op.req == req)
  }

  /** The actual usage that a correction of request `req` recorded. */
  function ActualOf(trace: Trace, req: nat): Option<int> {
    if trace == [] then None
    else
      var init, e := trace[..|trace| - 1], trace[|trace| - 1];
      if e.executed && e.op.Correct? && e.op.req == req then Some(e.op.actual) else ActualOf(init, req)
  }

  predicate Counts(e: Event, scope: Scope) {
    InScope(Target(e), scope)
  }

  /** What event `i` stands for in the final account: a charged request counts as its actual usage once
      corrected and as its estimate until then; a log step as what it logged; the correction of a request
      that was never charged (the limiter failed open) as the bare difference. */
  function Share(trace: Trace, i: nat, scope: Scope): int
    requires i < |trace|
  {
    var e := trace[i];
    if !Counts(e, scope) then 0
    else match e.op
      case Check(req, _, estimate) =>
        if !Charged(Run(trace[..i]), e) then 0
        else (match ActualOf(trace, req) case Some(actual) => actual case None => estimate)
      case Correct(req, estimate, actual) =>
        if e.executed && !ChargedRequest(trace[..i], req) then actual - estimate else 0
      case Log(_, actual, _) => if e.executed then Max(0, actual) else 0
  }

  /** The account of the first `n` events, settled with everything the whole trace knows. */
  function Account(trace: Trace, n: nat, scope: Scope): int
    requires n <= |trace|
  {
    if n == 0 then 0 else Account(trace, n - 1, scope) + Share(trace, n - 1, scope)
  }

  /** How the bridge uses request ids: one check each, and at most one correction, after the check and
      for the same tenant, agent and estimate. */
  ghost predicate Disciplined(trace: Trace) {
    && (forall i, j :: 0 <= i < j < |trace| && trace[i].op.Check? && trace[j].op.Check? ==>
          trace[i].op.req != trace[j].op.req)
    && (forall i, j :: 0 <= i < j < |trace| && trace[i].op.Correct? && trace[j].op.Correct? ==>
          trace[i].op.req != trace[j].op.req)
    && (forall j :: 0 <= j < |trace| && trace[j].op.Correct? ==> CheckedBefore(trace, j))
  }

  ghost predicate CheckedBefore(trace: Trace, j: nat)
    requires j < |trace| && trace[j].op.Correct?
  {
    exists i :: 0 <= i < j && trace[i].op.Check? && SameRequest(trace[i], trace[j])
  }

  predicate SameRequest(check: Event, correction: Event)
    requires check.op.Check? && correction.op.Correct?
  {
    && check.op.req == correction.op.req && check.op.estimate == correction.op.estimate
    && check.tenant == correction.tenant && check.agent == correction.agent
  }

  /** Check and correction of each of the tenant's requests agree on whether they are in scope. */
  predicate OneModel(trace: Trace, scope: Scope) {
    forall i :: 0 <= i < |trace| && trace[i].tenant == scope.tenant && !trace[i].op.Log? ==> AgreeOnModel(trace[i].agent, scope)
  }

  predicate AgreeOnModel(a: Agent, scope: Scope) {
    match scope.model
    case None => true
    case Some(model) => CheckModel(a) == model <==> CorrectionModel(a) == model
  }

  // ---- The sum of the ledgers ----

  lemma {:induction false} TotalUntouched(init: Trace, e: Event, keys: seq<Key>)
    requires Target(e) !in keys
    ensures Total(init + [e], keys) == Total(init, keys)
  {
    hide Target, Ledger;
    if keys != [] {
      LedgerStep(init, e, keys[0]);
      TotalUntouched(init, e, keys[1..]);
    }
  }

  lemma LedgerStep(init: Trace, e: Event, k: Key)
    ensures Ledger(init + [e], k) == Ledger(init, k) + if Target(e) == k then Amount(Run(init), e) else 0
  {
    hide Target, Run, Amount, Touched, GotExpiry;
    BookKeepingStep(init, e, k);
  }

  lemma {:induction false} TotalStep(init: Trace, e: Event, keys: seq<Key>)
    requires Distinct(keys) && Target(e) in keys
    ensures Total(init + [e], keys) == Total(init, keys) + Amount(Run(init), e)
  {
    hide Target, Ledger, Amount, Run;
    LedgerStep(init, e, keys[0]);
    if keys[0] == Target(e) {
      TotalUntouched(init, e, keys[1..]);
    } else {
      TotalStep(init, e, keys[1..]);
    }
  }

  // ---- The account, one event later ----

  /** One more event: who is charged, and what is settled. */
  lemma RequestsStep(init: Trace, e: Event, req: nat)
    ensures ChargedRequest(init + [e], req) <==> ChargedRequest(init, req) || (Charged(Run(init), e) && e.op.req == req)
    ensures ActualOf(init + [e], req)
         == if e.executed && e.op.Correct? && e.op.req == req then Some(e.op.actual) else ActualOf(init, req)
  {
    var trace := init + [e];
    assert trace[..|trace| - 1] == init && trace[|init|] == e;
  }

  lemma {:induction false} NoCheckNoCharge(trace: Trace, req: nat)
    requires forall i :: 0 <= i < |trace| && trace[i].op.Check? ==> trace[i].op.req != req
    ensures !ChargedRequest(trace, req)
  {
    if trace != [] { NoCheckNoCharge(trace[..|trace| - 1], req); }
  }

  lemma {:induction false} NoCorrectionNoActual(trace: Trace, req: nat)
    requires forall i :: 0 <= i < |trace| && trace[i].op.Correct? ==> trace[i].op.req != req
    ensures ActualOf(trace, req) == None
  {
    if trace != [] { NoCorrectionNoActual(trace[..|trace| - 1], req); }
  }

  /** The check that a correction belongs to is the only one with its id. */
  lemma CheckOfCorrection(trace: Trace, i: nat, j: nat)
    requires Disciplined(trace) && i < |trace| && j < |trace|
    requires trace[i].op.Check? && trace[j].op.Correct? && trace[i].op.req == trace[j].op.req
    ensures i < j && SameRequest(trace[i], trace[j])
  {
    assert CheckedBefore(trace, j);
    var c :| 0 <= c < j && trace[c].op.Check? && SameRequest(trace[c], trace[j]);
    assert c == i;
  }

  lemma DisciplinedPrefix(init: Trace, e: Event)
    requires Disciplined(init + [e])
    ensures Disciplined(init)
  {
    var trace := init + [e];
    assert forall i :: 0 <= i < |init| ==> init[i] == trace[i];
    forall j | 0 <= j < |init| && init[j].op.Correct? ensures CheckedBefore(init, j) {
      assert CheckedBefore(trace, j);
      var i :| 0 <= i < j && trace[i].op.Check? && SameRequest(trace[i], trace[j]);
      assert init[i] == trace[i];
    }
  }

  /** The difference a correction makes to an account that already holds the request's charge. */
  function Settlement(init: Trace, n: nat, e: Event, scope: Scope): int
    requires n <= |init|
  {
    if e.executed && e.op.Correct? && Counts(e, scope) && ChargedRequest(init[..n], e.op.req)
    then e.op.actual - e.op.estimate
    else 0
  }

  /** A correction settles the share of the check it belongs to. */
  lemma SettledShare(init: Trace, i: nat, e: Event, scope: Scope)
    requires i < |init| && Disciplined(init + [e]) && OneModel(init + [e], scope)
    requires e.executed && e.op.Correct? && init[i].op.Check? && init[i].op.req == e.op.req
    ensures Share(init + [e], i, scope)
         == Share(init, i, scope)
            + Settlement(init, i + 1, e, scope) - Settlement(init, i, e, scope)
  {
    var trace := init + [e];
    var x := init[i];
    assert trace[i] == x && trace[|init|] == e && trace[..i] == init[..i] && init[..i + 1] == init[..i] + [x];
    CheckOfCorrection(trace, i, |init|);
    NoCorrectionNoActual(init, e.op.req) by {
      assert forall d :: 0 <= d < |init| ==> init[d] == trace[d];
    }
    NoCheckNoCharge(init[..i], e.op.req) by {
      assert forall d :: 0 <= d < i ==> init[..i][d] == trace[d];
    }
    assert x.tenant == scope.tenant ==> AgreeOnModel(x.agent, scope) by {
      assert trace[i] == x;
    }
    assert Counts(x, scope) <==> Counts(e, scope);
    hide Run, Charged, Counts, ChargedRequest, ActualOf, Disciplined, OneModel;
    RequestsStep(init, e, x.op.req);
    RequestsStep(init[..i], x, e.op.req);
  }

  /** A later event changes the share of an earlier one only by settling it. */
  lemma ShareStep(init: Trace, i: nat, e: Event, scope: Scope)
    requires i < |init| && Disciplined(init + [e]) && OneModel(init + [e], scope)
    ensures Share(init + [e], i, scope)
         == Share(init, i, scope)
            + Settlement(init, i + 1, e, scope) - Settlement(init, i, e, scope)
  {
    hide Run, Charged, Counts, ChargedRequest, ActualOf, Disciplined, OneModel;
    var x := init[i];
    if e.executed && e.op.Correct? && x.op.Check? && x.op.req == e.op.req {
      SettledShare(init, i, e, scope);
    } else {
      var trace := init + [e];
      assert trace[i] == x && trace[..i] == init[..i] && init[..i + 1] == init[..i] + [x];
      ChargedIsCheck(Run(init[..i]), x);
      if x.op.Check? { RequestsStep(init, e, x.op.req); }
      if e.op.Correct? { RequestsStep(init[..i], x, e.op.req); }
    }
  }

  lemma ChargedIsCheck(s: Store, e: Event)
    ensures Charged(s, e) ==> e.op.Check?
  {}

  lemma {:induction false} AccountStep(init: Trace, n: nat, e: Event, scope: Scope)
    requires n <= |init| && Disciplined(init + [e]) && OneModel(init + [e], scope)
    ensures Account(init + [e], n, scope)
         == Account(init, n, scope) + Settlement(init, n, e, scope)
  {
    hide Share, Disciplined, OneModel;
    if n > 0 {
      AccountStep(init, n - 1, e, scope);
      ShareStep(init, n - 1, e, scope);
    } else {
      assert init[..0] == [];
    }
  }

  /** The share of the newest event. */
  lemma NewShare(init: Trace, e: Event, scope: Scope)
    requires Disciplined(init + [e])
    ensures Share(init + [e], |init|, scope) + Settlement(init, |init|, e, scope)
         == if Counts(e, scope) then Amount(Run(init), e) else 0
  {
    var trace := init + [e];
    assert trace[|init|] == e && trace[..|init|] == init && init[..|init|] == init;
    if e.op.Check? {
      forall j | 0 <= j < |trace| && trace[j].op.Correct? ensures trace[j].op.req != e.op.req {
        assert CheckedBefore(trace, j);
        var c :| 0 <= c < j && trace[c].op.Check? && SameRequest(trace[c], trace[j]);
        assert trace[c].op.req != trace[|init|].op.req;
      }
      NoCorrectionNoActual(trace, e.op.req);
    }
  }

  /** The law behind both forms of conservation. */
  lemma {:induction false} ScopeIsConserved(trace: Trace, scope: Scope, keys: seq<Key>)
    requires Disciplined(trace) && OneModel(trace, scope) && CoversScope(trace, keys, scope)
    ensures Total(trace, keys) == Account(trace, |trace|, scope)
  {
    hide *;
    if trace == [] {
      EmptyTotal(keys);
      EmptyAccount(scope);
    } else {
      var init, e := trace[..|trace| - 1], trace[|trace| - 1];
      assert trace == init + [e];
      DisciplinedPrefix(init, e);
      ScopePrefix(init, e, scope, keys);
      ScopeIsConserved(init, scope, keys);
      TotalGrows(init, e, scope, keys);
      AccountGrows(init, e, scope);
    }
  }

  lemma EmptyAccount(scope: Scope)
    ensures Account([], 0, scope) == 0
  {}

  lemma ScopePrefix(init: Trace, e: Event, scope: Scope, keys: seq<Key>)
    requires OneModel(init + [e], scope) && CoversScope(init + [e], keys, scope)
    ensures OneModel(init, scope) && CoversScope(init, keys, scope)
    ensures Distinct(keys) && (Counts(e, scope) <==> Target(e) in keys)
  {
    hide Counts, Target, AgreeOnModel, InScope, Distinct;
    var trace := init + [e];
    assert forall i :: 0 <= i < |init| ==> init[i] == trace[i];
    assert trace[|init|] == e;
    assert Counts(e, scope) <==> InScope(Target(e), scope) by { CountsMeans(e, scope); }
  }

  lemma CountsMeans(e: Event, scope: Scope)
    ensures Counts(e, scope) <==> InScope(Target(e), scope)
  {}

  lemma TotalGrows(init: Trace, e: Event, scope: Scope, keys: seq<Key>)
    requires Distinct(keys) && (Counts(e, scope) <==> Target(e) in keys)
    ensures Total(init + [e], keys) == Total(init, keys) + if Counts(e, scope) then Amount(Run(init), e) else 0
  {
    hide *;
    if Counts(e, scope) { TotalStep(init, e, keys); } else { TotalUntouched(init, e, keys); }
  }

  lemma AccountGrows(init: Trace, e: Event, scope: Scope)
    requires Disciplined(init + [e]) && OneModel(init + [e], scope)
    ensures Account(init + [e], |init + [e]|, scope)
         == Account(init, |init|, scope) + if Counts(e, scope) then Amount(Run(init), e) else 0
  {
    hide Disciplined, OneModel, Run, Share, Settlement, Counts, Amount;
    AccountStep(init, |init|, e, scope);
    NewShare(init, e, scope);
  }

  /** Conservation for a tenant, whatever agents it runs: all its counters together, of every model and
      window, hold the actual usage of every charged and corrected request, the estimate of every charged
      request not yet corrected, whatever the log steps added, and the bare difference for corrected
      requests that were let through uncharged - whichever counters the corrections landed in, and
      however clients interleaved. */
  lemma TenantTokensAreConserved(trace: Trace, tenant: string, keys: seq<Key>)
    requires Disciplined(trace) && CoversScope(trace, keys, Scope(tenant, None))
    ensures Total(trace, keys) == Account(trace, |trace|, Scope(tenant, None))
  {
    hide Disciplined, CoversScope, Total, Account;
    ScopeIsConserved(trace, Scope(tenant, None), keys);
  }

  /** The same for one model of a tenant, over windows, as long as each of the tenant's requests is checked
      and corrected under it, or neither. */
  lemma TokensAreConserved(trace: Trace, tenant: string, model: string, ws: seq<int>)
    requires Disciplined(trace) && OneModel(trace, Scope(tenant, Some(model))) && CoversWindows(trace, ws)
    ensures Total(trace, WindowKeys(tenant, model, ws)) == Account(trace, |trace|, Scope(tenant, Some(model)))
  {
    WindowKeysCover(trace, tenant, model, ws);
    hide Disciplined, OneModel, CoversScope, CoversWindows, Total, Account;
    ScopeIsConserved(trace, Scope(tenant, Some(model)), WindowKeys(tenant, model, ws));
  }

  lemma WindowKeysCover(trace: Trace, tenant: string, model: string, ws: seq<int>)
    requires CoversWindows(trace, ws)
    ensures CoversScope(trace, WindowKeys(tenant, model, ws), Scope(tenant, Some(model)))
  {
    hide WindowExpiry;
    var keys := WindowKeys(tenant, model, ws);
    forall i | 0 <= i < |trace| && Counts(trace[i], Scope(tenant, Some(model))) ensures Target(trace[i]) in keys {
      var w :| 0 <= w < |ws| && ws[w] == WindowExpiry(trace[i].issued);
      assert keys[w] == Target(trace[i]);
    }
  }

  lemma {:induction false} EmptyTotal(keys: seq<Key>)
    ensures Total([], keys) == 0
  {
    if keys != [] { EmptyTotal(keys[1..]); }
  }

  // ---- When check and correction count under different models ----

  /** The agents whose check and correction meet in one counter. */
  lemma SameModelIff(a: Agent)
    ensures CheckModel(a) == CorrectionModel(a) <==> a.modelId != "" || a.name == "unknown"
  {}

  /** One request of an agent, let in and then corrected, leaves its actual usage in the counters it was
      checked against exactly when the agent names its model (or is itself called "unknown"), or the
      estimate was exact. Otherwise the estimate stays there and the difference goes elsewhere. */
  lemma OneRequestSettlesIff(tenant: string, agent: Agent, limit: int, estimate: int, actual: int,
                             issued: real, done: real, ws: seq<int>)
    requires 0.0 <= issued <= done && Distinct(ws) && WindowExpiry(issued) in ws && WindowExpiry(done) in ws
    ensures var trace := [Event(issued, issued, true, tenant, agent, Check(0, limit, estimate)),
                          Event(done, done, true, tenant, agent, Correct(0, estimate, actual))];
            Total(trace, WindowKeys(tenant, CheckModel(agent), ws)) == actual
            <==> agent.modelId != "" || agent.name == "unknown" || actual == estimate
  {
    var e := Event(issued, issued, true, tenant, agent, Check(0, limit, estimate));
    var f := Event(done, done, true, tenant, agent, Correct(0, estimate, actual));
    var keys := WindowKeys(tenant, CheckModel(agent), ws);
    WindowKeysMembers(tenant, CheckModel(agent), ws);
    assert [] + [e] == [e] && [e] + [f] == [e, f];
    EmptyTotal(keys);
    TotalStep([], e, keys);
    if Target(f) in keys {
      TotalStep([e], f, keys);
    } else {
      TotalUntouched([e], f, keys);
    }
  }

  lemma WindowKeysMembers(tenant: string, model: string, ws: seq<int>)
    requires Distinct(ws)
    ensures Distinct(WindowKeys(tenant, model, ws))
    ensures forall k :: k in WindowKeys(tenant, model, ws)
                   <==> k.window in ws && k == Key(tenant, model, "tpm", k.window)
  {
    var keys := WindowKeys(tenant, model, ws);
    forall w | w in ws ensures Key(tenant, model, "tpm", w) in keys {
      var i :| 0 <= i < |ws| && ws[i] == w;
      assert keys[i] == Key(tenant, model, "tpm", w);
    }
  }

  /** Every agent that the bridge resolves comes without a model id. So for the agents it actually serves,
      an estimate that was not exact is never settled in the counter it was charged to, unless the agent
      is called "unknown". */
  lemma ServedAgentSettlesIff(item: Agents.Item, tenant: string, limit: int, estimate: int, actual: int,
                              issued: real, done: real, ws: seq<int>)
    requires Agents.AgentRecordFromItem(item).Some?
    requires 0.0 <= issued <= done && Distinct(ws) && WindowExpiry(issued) in ws && WindowExpiry(done) in ws
    ensures var record := Agents.AgentRecordFromItem(item).value;
            var agent := Agent(record.agentName, record.modelId);
            var trace := [Event(issued, issued, true, tenant, agent, Check(0, limit, estimate)),
                          Event(done, done, true, tenant, agent, Correct(0, estimate, actual))];
            Total(trace, WindowKeys(tenant, CheckModel(agent), ws)) == actual <==> item.agentName == "unknown" || actual == estimate
  {
    hide Total, Agents.Constructible;
    OneRequestSettlesIff(tenant, Agent(item.agentName, ""), limit, estimate, actual, issued, done, ws);
  }
}
