/** Where the bridge uses the limiter: the check before an invocation (src/bridge/invocation_engine.py),
    the correction after it (src/bridge/route_adapter.py) and the log-only step
    (src/bridge/tpm_limiter.py). Each is one event of the runs in `Counters`. */
module Bridge {
  import opened Prelude
  import opened CounterKey
  import opened Counters

  /** `estimate_tokens` (src/bridge/utils.py): about four characters a token, at least one. */
  function EstimateTokens(text: string): (n: nat)
    ensures n == 0 <==> text == ""
    ensures |text| >= 4 ==> 4 * n <= |text| < 4 * (n + 1)
    ensures 0 < |text| < 4 ==> n == 1
  {
    if text == "" then 0 else Max(1, |text| / 4)
  }

  /** The check in `handle_invoke_request`; the answer 429 is `throttled`. */
  method CheckInvocation(limiter: TokenLimiter, tenant: string, agent: Agent, tpmLimit: int, prompt: string,
                         ghost req: nat, issued: real, now: real, executed: bool, answered: bool)
      returns (throttled: bool, estimate: nat)
    requires answered ==> executed
    modifies limiter.client
    ensures estimate == EstimateTokens(prompt)
    ensures limiter.client == null ==> !throttled
    ensures limiter.client != null ==>
              var e := Event(issued, now, executed, tenant, agent, Check(req, tpmLimit, estimate));
              && limiter.client.entries == Apply(old(limiter.client.entries), e)
              && (throttled <==> answered && !Charged(old(limiter.client.entries), e))
  {
    estimate := EstimateTokens(prompt);
    throttled := false;
    if tpmLimit > 0 || limiter.client != null {
      var result := limiter.CheckAndIncrement(tenant, CheckModel(agent), tpmLimit, estimate, issued, now, executed, answered);
      throttled := !result.allowed;
    }
  }

  /** `_perform_tpm_correction`, called after a response with status 200. */
  method PerformTpmCorrection(limiter: TokenLimiter, tenant: string, agent: Agent, streaming: bool,
                              estimate: nat, actual: nat, ghost req: nat, issued: real, now: real, executed: bool, answered: bool)
    requires answered ==> executed
    modifies limiter.client
    ensures limiter.client != null ==>
              limiter.client.entries
              == Apply(old(limiter.client.entries),
                       Event(issued, now, executed && !streaming, tenant, agent, Correct(req, estimate, actual)))
  {
    if streaming {
      return;
    }
    if actual > 0 || estimate > 0 {
      var _ := limiter.CorrectUsage(tenant, CorrectionModel(agent), estimate, actual, issued, now, executed, answered);
    }
  }

  /** `record_log_only_tpm`; `usage` is 0 when the step was skipped. */
  method RecordLogOnlyTpm(client: CounterServer?, tenant: string, agent: Agent, reported: string,
                          actualTokens: int, estimatedTokens: int, issued: real, now: real, executed: bool, answered: bool)
      returns (skipped: bool, usage: int)
    requires answered ==> executed
    modifies client
    ensures skipped <==> client == null || !answered
    ensures skipped ==> usage == 0
    ensures client != null ==>
              var e := Event(issued, now, executed, tenant, agent, Log(reported, actualTokens, estimatedTokens));
              && client.entries == Apply(old(client.entries), e)
              && (!skipped ==> Lookup(client.entries, Target(e), now) == Some(usage))
  {
    hide LogModel, WindowExpiry, Logged, Lookup;
    var model := LogModel(reported, agent);
    var windowExpiry := WindowExpiry(issued);
    skipped, usage := true, 0;
    if client != null && executed {
      var windowUsage := client.IncrementWindows(Key(tenant, model, "tpm", windowExpiry), Max(0, actualTokens),
                                                 Key(tenant, model, "tpm_estimated", windowExpiry), Max(0, estimatedTokens), now);
      if answered {
        skipped, usage := false, windowUsage;
      }
    }
  }
}
