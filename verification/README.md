# Platform verification

A Dafny model of the parts of the agent platform whose correctness depends on several steps, several clients or
several functions at once, with proofs of what they guarantee:

- **The tokens-per-minute limiter.** `Counters` has the shared counter store with its expiries, the atomic check
  script, the correction and the log-only step, and runs of these in any interleaving by any number of clients;
  `CounterKey` the counter names; `Conservation` what the counters of all windows add up to; `Bridge` the places
  where the bridge calls the limiter. `Resp` is the hand-written client side of the Redis serialization protocol:
  the command encoder, and the recursive reader over a socket that may hand out any non-empty chunk; `Wire` spells the
  bytes out, and has truncated streams and UTF-8.
- **The issue queue.** `Issues` has the label life cycle (claim, unclaim, reconcile, closeout), `Queue` the
  dependency-gated queue, `QueueFields` its contents and order by the issues' fields, `Progress` when it has a next item, `Audit` the auditor against the reconciler,
  `Claims` interleaved claims of one issue, `Workflow` runs of several workers with stale snapshots, `Handoff` the
  bounded event log, the closeout and its evidence check,
  `Worktrees` the porcelain parser, branch names and directory names, and `Naming` what these are character by character.
- **Agent versions.** `Agents` has the records and statuses, `Discovery` the three ways of picking the latest version,
  `Registry` registration and status changes as steps on a table, `Rollback` the rollback script and what the bridge
  serves after it.
- **Layer manifests.** `Manifest` is the canonical text behind the dependency hash.

`Prelude`, `Text` and `Sorting` hold what they share. Objects that the source updates in place (the socket buffer,
the counter store, a tracker issue, the issue state file, the version table) are classes; loops are methods; each is
proved equal to a specification function, and the main results are about those functions. `dafny verify
dfyconfig.toml` checks the whole project.

Where the code differs from what its documentation or its names suggest, the model follows the code, and lemmas say
when the difference shows:

- The bridge never sets `model_id` on the agents it resolves (src/bridge/discovery_service.py:222-246). The check then
  counts under "unknown" and the correction under the agent's name, so an inexact estimate is not settled
  (`Conservation.SameModelIff`, `OneRequestSettlesIff`, `ServedAgentSettlesIff`). Only the
  counters of the tenant taken together balance (`TenantTokensAreConserved`).
- A correction in a fresh window creates a counter without an expiry, possibly negative, which stays until a later
  command addresses it, if ever (`Counters.NeverExpiresIff`, `UnaddressedStays`, `LateCorrectionLeaks`).
- Counter names are not injective in general: tenant names that overlap at a colon can share one
  (`CounterKey.TenantsShareNameIff`). The ids of registered tenants hold no colon, so for them it cannot happen
  (`TenantIdsNeverShare`).
- Verifying a claim after the update does not make it exclusive: all clients that read the labels before the first
  update succeed, and no others (`Claims.ClaimSucceedsIff`, `BothClaimsSucceedIff`).
- Automatic queue mode can report nothing to do while a task could start (`Progress.AutoStallsIff`, `AutoCanStall`).
- The closeout makes sure that the event file shows a start event, but its own two events can push the last one out of
  the bounded file, and then its audit fails (`Handoff.CloseoutPassesIff`, `WorkingSessionPassesIff`).
- The listing and an agent's detail read the table separately; when two versions tie for the latest, the order of the
  rows decides, and they can differ (`Discovery.LatestIsOrderFreeIff`, `TiedRowsPart`).
- One unreadable status anywhere in the table makes the whole agent listing fail, while detail and resolution of other
  agents still answer (`Discovery.ListingFailsAloneIff`, `BadRowElsewhereStopsListing`).
- The version order departs from section 11 of SemVer 2.0.0, although ADR-015 has the bridge serve the highest version
  (docs/decisions/ADR-015-agent-release-governance-and-rollback.md:49): a pre-release is never below its release, and
  the digits in it count towards its patch number, so that 1.0.0-rc2 outranks 1.0.1 and is served instead
  (`Discovery.PrereleaseMisorderedIff`, `PrereleaseIsNeverOlder`, `NumberedPrereleaseIsServed`).
- Registering a version again replaces it, although ADR-015 calls registered versions immutable
  (docs/decisions/ADR-015-agent-release-governance-and-rollback.md:42-43; `Registry.RegistrationReplaces`,
  `ContentIsLastRegistered`).
- A version with the legacy status "released" that is newer than its agent's other candidates is listed as the latest,
  but is neither served nor rolled back (`Rollback.NewestReleasedIsListed`, `ReleasedLatestIsNotServed`,
  `LegacyPromotedIsListedOnly`; `Agents.ServableIffPromoted`).
- Registration accepts versions that the bridge cannot build (`Registry.StoredIsConstructibleIff` says which).
- The canonical text merges different dependencies exactly when their lines are the same (`Manifest.CanonicalMergesIff`).
  On dependencies of one line other than the lockfile marker, this only ever confuses the empty list with a single blank
  dependency (`CanonicalExactly`, `BlankVanishesIff`); what line breaks and the marker can do beyond that is stated by
  `LineBreakMergesIff` and `MarkerMergesIff`.

## Model

| member | source | states |
|---|---|---|
| Resp.Socket.ReadExact | src/bridge/tpm_limiter.py:663-670 | For every way the stream is cut into chunks: exactly `length` bytes are consumed, or the read fails because the stream is shorter |
| Resp.Socket.ReadLine | src/bridge/tpm_limiter.py:656-660 | The line up to the first CR LF, which is consumed with it; a failure when the stream holds none |
| Resp.Socket.ReadResp | src/bridge/tpm_limiter.py:633-653 | The recursive socket reader terminates and agrees with the chunk-free reader on every stream, malformed ones included |
| Resp.Socket.ReadTransactionResponse | src/bridge/tpm_limiter.py:281-289 | Same for a transaction: reply to MULTI, one per command, then EXEC, which must be an array |
| Resp.Read | src/bridge/tpm_limiter.py:633-653 | The reader is total and every success consumes at least one byte, whatever nesting and array lengths are announced |
| Resp.EncodeCommand | src/bridge/tpm_limiter.py:624-630 | The bytes on the wire: "*", the number of strings and a line end, then for each string "$", its length, a line end, its bytes and a line end, as section "Sending commands to a Redis server" of the Redis serialization protocol specification has it |
| Resp.ReadPrinted | src/bridge/tpm_limiter.py:633-653 | Reading any well-formed reply (nested arrays, nulls and errors included) gives its meaning and leaves exactly the bytes that followed |
| Resp.CommandRoundTrip | src/bridge/tpm_limiter.py:624-653 | An encoded command followed by anything reads back as exactly its parts, even with CR LF in the payloads |
| Resp.TransactionFraming | src/bridge/tpm_limiter.py:262-267 | The pipelined payload is read as MULTI, the commands in order, EXEC, and nothing more |
| Resp.TransactionReplyRoundTrip | src/bridge/tpm_limiter.py:281-289 | The whole answer to n queued commands is consumed; the EXEC array comes back exactly when no reply is an error and EXEC answered with an array |
| Wire.PrintIsSpelled | src/bridge/tpm_limiter.py:633-653 | The replies of the round trips are the protocol's bytes, character by character |
| Wire.ReadSpelled | src/bridge/tpm_limiter.py:633-653 | What the reader makes of each kind of reply spelled out with "+", "-", ":", "$", "*" and line ends, at any nesting |
| Wire.ReadRejects | src/bridge/tpm_limiter.py:633-653 | What it rejects, and how: the end of the stream, any other first byte, a number that is none, a text that is not UTF-8 |
| Wire.CutReplyIsIncomplete | src/bridge/tpm_limiter.py:656-670 | No proper prefix of a reply is taken for a reply: the reader reports the closed connection |
| Wire.Utf8ValidIff | src/bridge/tpm_limiter.py:636-647 | The bytes that decode are exactly the encodings, by section 3 of RFC 3629, of sequences of Unicode scalar values |
| CounterKey.WindowIsOpen | src/bridge/tpm_limiter.py:506-507 | now < window expiry <= now + 60, and windows are aligned |
| CounterKey.RenderParts | src/bridge/tpm_limiter.py:510-511 | Equal names agree on window, counter and the text tenant:model |
| CounterKey.RenderInjective | src/bridge/tpm_limiter.py:510-511 | For tenants that do not overlap at a colon, names and counters correspond one to one, for any model names |
| CounterKey.RenderedExample | src/bridge/tpm_limiter.py:510-511 | The name of one counter, written out |
| CounterKey.TenantsShareNameIff | src/bridge/tpm_limiter.py:510-511 | Two tenants can get the same counter name exactly when one name with a colon is a prefix of the other |
| CounterKey.TenantIdsNeverShare | src/tenant_api/validation.py:30 | Tenant ids of the registered form hold no colon, so registered tenants never share a counter name, whatever their models are called |
| Counters.CounterServer.CheckAndIncrement | src/bridge/tpm_limiter.py:30-45 | The check script as one atomic step: refusal leaves the store alone, an expiry is set only when the counter ends at the estimate |
| Counters.CounterServer.CorrectUsage | src/bridge/tpm_limiter.py:234-245 | A correction adds the difference without an expiry; a zero difference answers 0 and touches nothing |
| Counters.CounterServer.IncrementWindows | src/bridge/tpm_limiter.py:199-216 | The log transaction charges both counters, arms both expiries and answers the value of the first |
| Counters.TokenLimiter.CheckAndIncrement | src/bridge/tpm_limiter.py:66-100 | Whether the store runs the script and whether its answer arrives are separate: without an answer the limiter fails open, even when the script ran and charged; with one it reports the outcome of the check on the counter of the current window; the reset time is within (0, 60] |
| Counters.TokenLimiter.CorrectUsage | src/bridge/tpm_limiter.py:102-123 | The correction goes to the window that is current when it is made, not to that of the check, whether or not its answer arrives; it answers the corrected counter, 0 when there was no difference, and the actual usage without an answer |
| Counters.OtherCounters | src/bridge/tpm_limiter.py:199-245 | An event leaves every tokens-per-minute counter that it does not address as it was |
| Counters.FreshCounterLives | src/bridge/tpm_limiter.py:19-45 | A counter set up by a check or a log step holds its charge for exactly 90 seconds from then, under its name |
| Counters.LogStepRenews | src/bridge/tpm_limiter.py:199-216 | A log step makes both its counters live exactly 90 seconds more |
| Counters.LogMeetsCheckIff | src/bridge/tpm_limiter.py:500-503 | A log step counts under the reported model without white space, or the agent's name when none was reported; when it meets the counter of the check |
| Counters.StepFaithful | src/bridge/tpm_limiter.py:30-45 | Every step, until 30 seconds after the window, keeps the store equal to the ledger of the counter |
| Counters.FullCharge | src/bridge/tpm_limiter.py:19-45 | Under any interleaving, until 30 seconds after its window the store holds exactly everything ever charged to a counter, and nothing exactly when nothing was charged: no counter expires while it is needed |
| Counters.AdmissionIsExact | src/bridge/tpm_limiter.py:30-45 | An executed check is admitted exactly when there is no limit, nothing was charged to the window, or the full charge stays within the limit; a refusal changes nothing and reports the full charge |
| Counters.ChargeIsBounded | src/bridge/tpm_limiter.py:30-45 | Under any interleaving a counter never exceeds max(limit, first accepted estimate) plus the increases made by corrections and log steps |
| Counters.ChecksAloneStayCapped | src/bridge/tpm_limiter.py:30-45 | With checks alone it never exceeds max(limit, first accepted estimate) |
| Counters.NeverExpiresIff | src/bridge/tpm_limiter.py:41-43 | Until 30 seconds after its window, a counter is in the store without an expiry exactly when it was written, but never by a log step nor by a check that found it at 0 or absent |
| Counters.UnaddressedStays | src/bridge/tpm_limiter.py:192-245 | Commands that do not address a counter leave it as it is, for any number of them: one without an expiry stays until a later command addresses it |
| Counters.LateCorrectionLeaks | src/bridge/tpm_limiter.py:234-245 | A correction that lands in the next window leaves a negative counter there without an expiry |
| Conservation.TenantTokensAreConserved | src/bridge/tpm_limiter.py:66-123 | For one tenant, whatever agents it runs (those without a model id included): all its counters sum to the actual usage of corrected requests, the estimates of charged uncorrected ones, what log steps added, and the differences of requests let through uncharged - whichever counters the corrections landed in and whatever the interleaving |
| Conservation.TokensAreConserved | src/bridge/tpm_limiter.py:66-123 | The same for one tenant and model over all windows, as long as each request of the tenant is checked and corrected under that model or neither |
| Conservation.OneRequestSettlesIff | src/bridge/route_adapter.py:481-502 | A request leaves its actual usage in the counters it was checked against exactly when the agent names its model, or is called "unknown", or the estimate was exact |
| Conservation.ServedAgentSettlesIff | src/bridge/discovery_service.py:222-246 | For the agents the bridge resolves, an inexact estimate is never settled, except for an agent called "unknown" |
| Bridge.EstimateTokens | src/bridge/utils.py:43-47 | Four characters a token, rounded down, but at least one token for any text and none only for the empty one |
| Bridge.CheckInvocation | src/bridge/invocation_engine.py:97-134 | An invocation is one check event of the runs in `Counters`, also when the answer is lost after the script ran; it is throttled exactly when an answer arrives and the script refused |
| Bridge.PerformTpmCorrection | src/bridge/route_adapter.py:481-502 | A finished request is one correction event; streaming requests, and empty ones, leave the store alone |
| Bridge.RecordLogOnlyTpm | src/bridge/tpm_limiter.py:322-375 | A logged request is one log event; it reports the window usage, and counts as skipped exactly without a store or without an answer |
| Issues.ReconcileIdleIffClean | scripts/issue_tool/logic.py:79-90 | Reconcile asks for nothing exactly when the issue has the one right status label and `ready` only beside not-started |
| Issues.ReconcileCleans | scripts/issue_tool/logic.py:63-90 | Applying the change gives clean labels and the same chosen status, touches no other label, and a second reconcile asks for nothing |
| Issues.ReconciledByLabels | scripts/issue_tool/logic.py:63-90 | Label by label: an open issue keeps in-progress, else blocked, else becomes not-started; a closed one is done; `ready` stays only beside not-started; no other label moves |
| Issues.ParentCrIff | scripts/issue_tool/models.py:45-48 | Which titles make an issue a parent: CR- in any case, digits, and a word boundary |
| Issues.EditIssueLabels | scripts/issue_tool/logic.py:101-113 | Which operations of a list are read as additions and which as removals |
| Issues.LabelOpsRoundTrip | scripts/issue_tool/logic.py:133-136 | A change written as one list of operations is read back as the same change, when it adds only status labels |
| Issues.OpsByText | scripts/issue_tool/logic.py:101-113 | Exactly which labels a list of operations adds and removes |
| Issues.CloseoutCleans | scripts/issue_tool/logic.py:93-98 | Closeout leaves `status:done` as the only status, drops the workflow labels, keeps all others, and is idempotent |
| Issues.ClosedOutByLabels | scripts/issue_tool/logic.py:93-98 | Exactly which labels a closed issue carries after its closeout |
| Issues.TrackerIssue.Claim | scripts/issue_tool/worktree.py:138-173 | Whatever other clients do to the labels between read, update and verification: a claim that does not start changes nothing, one that starts succeeds exactly when the verification finds in-progress as the only status and no `ready` |
| Issues.ClaimAlone | scripts/issue_tool/worktree.py:138-173 | With nobody else at work, a claim succeeds exactly when not-started is the one status label; then in-progress replaces it, `ready` goes, and nothing else changes |
| Issues.ClaimByLabels | scripts/issue_tool/worktree.py:138-184 | Label by label: what a claim starts from, what its update and that of an unclaim do to the labels they find, and what the verification accepts |
| Issues.TwoClaimsCanBothSucceed | scripts/issue_tool/worktree.py:138-173 | An instance of interference: a second claim made between read and update of the first succeeds, and so does the first |
| Claims.RequestsMakeAClaim | scripts/issue_tool/worktree.py:138-173 | The three requests of the interleaved clients, one after the other, are the claim under interference |
| Claims.ClaimSucceedsIff | scripts/issue_tool/worktree.py:138-173 | For any number of clients in any interleaving of their requests: a claim that comes to its end succeeds exactly when the issue was claimable and the client read the labels before any client updated them |
| Claims.BothClaimsSucceedIff | scripts/issue_tool/worktree.py:138-173 | Two claims both succeed exactly when the issue is claimable and both reads precede both updates |
| Issues.TrackerIssue.Unclaim | scripts/issue_tool/worktree.py:176-184 | Not-started replaces in-progress, and `ready` comes back exactly when asked for |
| Issues.UnclaimUndoesClaim | scripts/issue_tool/worktree.py:138-184 | Unclaiming with what the claim returned restores the labels exactly |
| Queue.BuildTaskIndex | scripts/issue_tool/issue_queue.py:129 | The index maps a task id to the last task that carries it |
| Queue.BuildRefIndex | scripts/issue_tool/issue_queue.py:130 | The index maps #n to the last task numbered n |
| Queue.CollectReasons | scripts/issue_tool/issue_queue.py:164-178 | The loop finds all reasons why an issue cannot start: blocked label, missing dependencies, dependencies not closed |
| Queue.BuildQueue | scripts/issue_tool/issue_queue.py:120-193 | Filtering, mode choice, gating and sorting together give the specified queue |
| Queue.ChooseNextRunnable | scripts/issue_tool/issue_queue.py:21-28 | The first runnable item, or none |
| Queue.QueueMembers | scripts/issue_tool/issue_queue.py:144-179 | The queue holds exactly the candidates, and an item is runnable exactly when its issue is not blocked and all its dependencies are closed tasks |
| Queue.QueueIsSorted | scripts/issue_tool/issue_queue.py:181-188 | It is sorted by seq, priority, creation time and number |
| Queue.ItemLeIsTotalPreorder | scripts/issue_tool/issue_queue.py:181-188 | The four-part key is a total preorder |
| Queue.NextIsLeastRunnable | scripts/issue_tool/issue_queue.py:21-28 | The next item is a least runnable candidate, and there is none only when no candidate is runnable |
| Queue.QueueIgnoresFetchOrder | scripts/issue_tool/issue_queue.py:120-193 | With unique numbers and task ids, the queue is the same for every permutation of the fetched issues |
| QueueFields.QueueHoldsIff | scripts/issue_tool/issue_queue.py:133-161 | Exactly which issues a queue holds, by their labels, state, number and Seq, and which source mode it reports |
| QueueFields.RunnableByFields | scripts/issue_tool/issue_queue.py:163-179 | With unique ids, an item can start exactly when it is not labelled blocked and every dependency names a closed task by # and number, or by task id |
| QueueFields.QueueIsSortedByFields | scripts/issue_tool/models.py:32-42 | Every queue is in the order of Seq (none last), then the four priorities by their label names in any case (none last), then the creation time by code points, then the number |
| QueueFields.NextPrecedes | scripts/issue_tool/issue_queue.py:21-28 | The next item comes first, in that order, of all that can start |
| Progress.QueueNeverDeadlocks | scripts/issue_tool/issue_queue.py:120-193 | With all dependencies resolved, no cycle among open tasks, none blocked and some open: a task is in progress or there is a next item |
| Progress.AutoStallsIff | scripts/issue_tool/issue_queue.py:147-159 | Under any filters, automatic mode has no next item while open-task mode has one exactly when some queued task is ready, no ready one can run, and another can |
| Progress.AutoCanStall | scripts/issue_tool/issue_queue.py:147-159 | This happens whenever the only ready task waits for an open task without the `ready` label |
| Audit.AuditTask | scripts/issue_tool/audit.py:69-133 | The findings on one task |
| Audit.AuditIssues | scripts/issue_tool/audit.py:9-155 | The findings of the whole audit: parents, tasks, and the next-runnable gate |
| Audit.AuditByFields | scripts/issue_tool/audit.py:9-155 | Every finding is one on a parent, on a task, or of the gate |
| Audit.ParentFindingsByFields | scripts/issue_tool/audit.py:13-67 | Each of the five findings on a parent is raised exactly when its condition on labels, Seq or dependencies holds |
| Audit.TaskFindingsByFields | scripts/issue_tool/audit.py:84-133 | Each finding on a task with one status label is raised exactly when its condition on labels, state and markers holds |
| Audit.TaskWithoutOneStatus | scripts/issue_tool/audit.py:72-82 | Without exactly one status label, that is the only finding on a task |
| Audit.GateFiresIff | scripts/issue_tool/audit.py:135-153 | The gate fires exactly when the next item of the automatic queue is labelled done, or not labelled not-started |
| Audit.AuditorAgreesWithReconciler | scripts/issue_tool/audit.py:69-108 | The auditor raises no label error on a task exactly when the reconciler would leave it alone |
| Audit.GateIsSilentOnCleanLabels | scripts/issue_tool/audit.py:135-153 | With clean labels on every task the next-runnable gate never fires |
| Audit.ReconcileIssues | scripts/issue_tool/commands/issue.py:243-266 | The command reconciles every task, and counts 0 exactly when there was nothing to change |
| Audit.ReconcileAllIs | scripts/issue_tool/commands/issue.py:243-266 | The command reconciles every task and leaves every other issue alone |
| Audit.ReconcileAllIsIdempotent | scripts/issue_tool/commands/issue.py:243-266 | A second reconcile of all issues changes nothing |
| Audit.AuditCleanIffNothingToReconcile | scripts/issue_tool/audit.py:69-153 | No label error and no gate finding exactly when the reconciler has nothing to do on any task |
| Audit.ReconcileThenAuditIsClean | scripts/issue_tool/logic.py:63-90 | After a reconcile of any set of issues the audit raises no label error and no gate finding |
| Workflow.StepsAreTaken | scripts/issue_tool/worktree.py:138-173 | Exactly when each step of a run can be taken, and what a claim and a close change |
| Workflow.RunKeeps | scripts/issue_tool/issue_queue.py:163-179 | Every run keeps: what any snapshot shows as closed is closed in the tracker, what is claimed or closed has all its dependencies closed, and the closing log lists each closed issue once |
| Workflow.ClaimsAreGated | scripts/issue_tool/worktree.py:138-173 | Whatever the workers do and however stale their snapshots are, an issue is claimed only when all its dependencies are closed |
| Workflow.ClosingOrderExtendsDependencies | scripts/issue_tool/issue_queue.py:163-179 | With unique task ids: if only claimed issues are closed, every issue is closed after all issues it depends on |
| Handoff.IssueStateFile.RecordEvent | scripts/issue_tool/worktree.py:494-572 | The new contents of the state file, and that it is left alone on an immediate repeat of an idempotency key |
| Handoff.StartsSessionIff | scripts/issue_tool/worktree.py:517-528 | A call drops the old session exactly when it is a worktree event after one of four final states, or for another branch or worktree |
| Handoff.RecordedIs | scripts/issue_tool/worktree.py:530-569 | What a call does to the file: the new event with the fields it leaves open filled in, the kept events, and nothing on an immediate repeat of a key |
| Handoff.FileIsWindowOnLog | scripts/issue_tool/worktree.py:512-572 | After any calls the file holds exactly the last 50 entries of the unbounded log since the last session reset |
| Handoff.WindowPassesIff | scripts/issue_tool/evidence.py:167-187 | The event checks pass on a window exactly when they pass on the whole log and the window still shows a start and the beginning of the closeout |
| Handoff.EvidenceProblemIs | scripts/issue_tool/evidence.py:167-187 | Which of the five problems the audit reports, in the order of its checks |
| Handoff.EvidenceOnFile | scripts/issue_tool/evidence.py:167-187 | Passing on the file implies passing on the full log; the converse holds exactly when the last 50 events still show both, in particular up to 50 events |
| Handoff.CloseIssueDone | scripts/issue_tool/commands/common.py:1031-1220 | The closeout adds a start event if the file has none, then its own two events, and audits what the file then holds |
| Handoff.CallsAre | scripts/issue_tool/commands/common.py:1043-1054 | The event type, state and key of each call of the closeout and of a launch, written out |
| Handoff.ClosedOutIsFinal | scripts/issue_tool/commands/common.py:1197-1213 | After its closeout the file is in the final state "closed", so the next worktree event starts a new session |
| Handoff.CloseoutPassesIff | scripts/issue_tool/commands/common.py:1307-1336 | A closeout that goes through fails its own audit exactly when the file had a start event, but none among those left after the events of the closeout; a file without any start event is given one and passes |
| Handoff.WorkingSessionPassesIff | scripts/issue_tool/commands/agent.py:46-73 | A session of one worktree creation and n agent launches passes its closeout audit for every n except 48 and 49 |
| Worktrees.ListWorktrees | scripts/issue_tool/worktree.py:59-91 | The line-by-line loop computes the specified parse, with the first path marked primary |
| Worktrees.ListingRoundTrip | scripts/issue_tool/worktree.py:59-91 | Parsing undoes printing for every list of worktrees in the Porcelain Format of git-worktree(1) |
| Naming.ListingSpelled | scripts/issue_tool/worktree.py:59-91 | The printed lines of that round trip are those of the Porcelain Format, and what they are parsed into, both written out |
| Naming.PrintableIff | scripts/issue_tool/worktree.py:59-68 | The worktrees of the round trip are exactly those whose printed lines hold no line break |
| Naming.SplitsAtIff | scripts/issue_tool/worktree.py:68 | The ten characters that end a line |
| Naming.ReturnAndFeedAreOne | scripts/issue_tool/worktree.py:68 | A carriage return and a line feed end one line |
| Worktrees.SlugifyText | scripts/issue_tool/worktree.py:35-40 | For any text and any notion of lower case, a slug is non-empty, of at most 60 characters and within the allowed alphabet |
| Naming.SlugOfPhrase | scripts/issue_tool/worktree.py:35-40 | The slug of words with anything between and around them is the words with one dash between them, cut after sixty characters |
| Naming.SlugOfSlug | scripts/issue_tool/worktree.py:35-40 | A slug is its own slug |
| Naming.PrefixIsDropped | scripts/issue_tool/worktree.py:37 | An issue prefix goes with its colon and the white space after it |
| Naming.InferScopeIs | scripts/issue_tool/worktree.py:43-56 | Which labels and title words give which scope, in which order |
| Naming.MatchesPolicyIff | scripts/issue_tool/constants.py:5 | The accepted branches are exactly those of the policy pattern |
| Naming.ExtractIssueIdIff | scripts/issue_tool/constants.py:6 | The number read out of a branch name is exactly that of its pattern |
| Worktrees.BranchNameCarriesNumber | scripts/issue_tool/worktree.py:202-212 | A branch built from any accepted scope and slug satisfies the policy, and its issue number can be read back |
| Worktrees.DefaultBranchCarriesNumber | scripts/issue_tool/worktree.py:383-386 | For any issue the default branch satisfies the policy and gives back the issue's number |
| Worktrees.FindLinkedWorktree | scripts/issue_tool/worktree.py:394-398 | The first non-primary worktree whose branch carries the number |
| Worktrees.DefaultBranchIsFound | scripts/issue_tool/worktree.py:383-398 | Through printing and parsing, a linked worktree on an issue's default branch is found by the issue's number |
| Worktrees.ChooseNextWithoutWorktree | scripts/issue_tool/worktree.py:401-418 | The first runnable item without a linked worktree; exactly the runnable items before it are reported skipped, and each of these has one |
| Worktrees.CandidatesDiffer | scripts/issue_tool/worktree.py:98-107 | Candidate names never repeat |
| Worktrees.SuggestWorktreeDirName | scripts/issue_tool/worktree.py:98-107 | The search terminates for every finite set of names, within one more step than there are names, with the first unused candidate |
| Manifest.SortedDepsIff | scripts/layer_manifest.py:54 | Two inputs have the same sorted list exactly when they have the same multiset of stripped dependencies |
| Manifest.SortedDepsAscend | scripts/layer_manifest.py:54 | The sorted list ascends by code points at the first difference |
| Manifest.CanonicalIs | scripts/layer_manifest.py:52-57 | The text: the sorted list, one to a line, then a marker line and the lockfile, if there is one |
| Manifest.CanonicalMergesIff | scripts/layer_manifest.py:52-57 | For any two inputs at all, the texts are equal exactly when the lines are: those of the sorted dependencies, then the marker and those of the lockfile |
| Manifest.CanonicalExactly | scripts/layer_manifest.py:52-57 | On dependencies of one line that are not the marker, the texts are equal exactly when the lockfiles are (absence included) and either the multisets of stripped dependencies are, or one input is empty and the other a single blank dependency |
| Manifest.CanonicalIff | scripts/layer_manifest.py:52-57 | With blank dependencies excluded as well: exactly when the multisets of stripped dependencies and the lockfiles are equal |
| Manifest.BlankVanishesIff | scripts/layer_manifest.py:54 | Adding a blank dependency to any list leaves the text as it was exactly when the list was empty |
| Manifest.LineBreakMergesIff | scripts/layer_manifest.py:54 | With the same lockfile, one dependency has the text of a list of one-line dependencies exactly when its lines are that list, sorted |
| Manifest.MarkerMergesIff | scripts/layer_manifest.py:55-56 | Dependencies without a lockfile have the text of dependencies with one exactly when their lines are those of the others, the marker, and the lockfile's |
| Manifest.LineBreakSplitsDependency | scripts/layer_manifest.py:54 | An instance: "a LF b" against a and b, for any a and b that sort in this order |
| Manifest.MarkerForgesLockfile | scripts/layer_manifest.py:55-56 | An instance: a, the marker and b, sorting in this order, against a with the lockfile b |
| Agents.StatusTextRoundTrip | src/data-access-lib/src/data_access/domains/agent.py:20-71 | Every status survives being stored as text and read back, exactly or normalised |
| Agents.StatusTextIs | src/data-access-lib/src/data_access/domains/agent.py:20-28 | The stored text of each status |
| Agents.NormalizeStatusIs | src/data-access-lib/src/data_access/domains/agent.py:31-71 | Which of the eleven words stand for which status; every other text stands for none |
| Agents.InvokableIs | src/data-access-lib/src/data_access/domains/agent.py:74-75 | A record is invokable exactly without a status, with a blank one, or with one of two words; it cannot be judged exactly with an unknown word |
| Agents.ConstructibleIs | src/bridge/discovery_service.py:202-246 | Exactly which records can be built |
| Agents.SupportedModeIs | src/bridge/discovery_service.py:34-36 | Exactly which modes are supported |
| Agents.ServableIffPromoted | src/data-access-lib/src/data_access/domains/agent.py:52-75 | Of the otherwise complete records with a status, those that are invokable and can be built are exactly the ones stored as "promoted" |
| Discovery.ResolveAgentRecord | src/bridge/discovery_service.py:179-199 | Sort, then skip what cannot be built; fails exactly when some status is unknown; a record is answered exactly when a row is resolved, with the name and version of that row and without a model |
| Discovery.ListLatest | src/bridge/discovery_service.py:106-117 | The one-pass dictionary maps each agent to its first greatest invokable version |
| Discovery.SortHeadIsFirstGreatest | src/bridge/discovery_service.py:280-281 | The head of the stable reverse sort is the first of the greatest |
| Discovery.FilterSort | src/bridge/discovery_service.py:193-198 | Skipping what cannot be built commutes with the stable sort |
| Discovery.ResolvedIsGreatestConstructible | src/bridge/discovery_service.py:179-199 | Resolution serves the first greatest among the candidates that can be built |
| Discovery.ResolvedIsNewest | src/bridge/discovery_service.py:66-70 | No invokable row that can be built has a higher version than the one served, or the same version and a later deployment time |
| Discovery.DetailIsNewest | src/bridge/discovery_service.py:272-281 | The same of the version that detail (and so the listing) shows, whether or not it can be built |
| Discovery.SemverKeyIs | src/bridge/discovery_service.py:57-63 | A version is cut at its dots, only digits count in each part, and a part without any counts as 0 |
| Discovery.LatestAgree | src/bridge/discovery_service.py:106-117 | On a table of any agents and for every name, with the agent's rows queried in the order of the scan: the listing of the whole table and the detail of that agent name the same version, ties included, and the bridge serves it exactly when it can be built |
| Discovery.LatestAgreeInAnyOrder | src/bridge/discovery_service.py:179-199 | The same with the rows queried in any other order, when no two candidates of the agent share the greatest sort key |
| Discovery.LatestIsOrderFreeIff | src/bridge/discovery_service.py:66-70 | That condition is exact: the latest is the same for every order of the rows exactly when no two different rows are greatest |
| Discovery.TiedRowsPart | src/bridge/discovery_service.py:272-281 | Two candidates with equal sort keys: each order of the rows makes another one the latest |
| Discovery.ListingFailsAloneIff | src/bridge/discovery_service.py:104-117 | The listing fails while detail and resolution of a name still answer exactly when a row of another agent has an unreadable status and no row of that name has |
| Discovery.BadRowElsewhereStopsListing | src/bridge/discovery_service.py:104-117 | Such a table: one sound version, and one unreadable row of another agent |
| Discovery.LatestIgnoresOrder | src/bridge/discovery_service.py:66-70 | With distinct sort keys the latest version does not depend on the order of the rows |
| Discovery.CoreVersionOrder | src/bridge/discovery_service.py:57-63 | On MAJOR.MINOR.PATCH the order is that of section 11 of SemVer 2.0.0 |
| Discovery.PrereleaseMisorderedIff | src/bridge/discovery_service.py:57-63 | A pre-release a.b.c-pre and a release x.y.z are ordered against section 11 of SemVer 2.0.0 exactly when they share major and minor and z is between c and the number that the code reads out of "c-pre" |
| Discovery.PrereleaseIsNeverOlder | src/bridge/discovery_service.py:57-63 | The case of its own release: a pre-release is never ordered below it |
| Discovery.NumberedPrereleaseIsServed | src/bridge/discovery_service.py:179-199 | When that number is beyond z, the bridge serves the pre-release rather than the later patch a.b.z, in either order of the rows |
| Discovery.SecondCandidateOutranksPatch | src/bridge/discovery_service.py:57-63 | An instance: 1.0.0-rc2 is ordered above 1.0.1 |
| Registry.AgentTable.RegisterAgent | src/tenant_api/agent_registry.py:168-260 | What a registration stores, and when it is refused: version, status, mode, incomplete layers, incomplete or mismatched runtime endpoint |
| Registry.RegisteredFields | src/tenant_api/agent_registry.py:204-251 | Every field of a registered record, and the submitted field it comes from |
| Registry.RegistrationAcceptedIff | src/tenant_api/agent_registry.py:85-202 | Exactly which registrations are accepted, by the submitted fields |
| Registry.AgentTable.UpdateAgentStatus | src/tenant_api/agent_registry.py:316-375 | What a status change does to the table, and when it is refused: unknown version, invalid transition, missing approval |
| Registry.UpdateAcceptedIff | src/tenant_api/agent_registry.py:342-360 | A status change of a readable version is accepted exactly to the same status or along one of the eleven listed moves, and to promoted only with both approval fields |
| Registry.UnreadableIsStuck | src/tenant_api/agent_registry.py:342 | A version with a missing, blank or unknown status cannot be moved |
| Registry.ReleaseGoesThrough | src/data-access-lib/src/data_access/domains/agent.py:38-49 | Every acceptable registration can be released: five status changes later the version is stored as promoted, with its content and the approver and time |
| Registry.RunExplained | src/tenant_api/agent_registry.py:316-375 | Every stored version is explained by the operations since its last registration: status path, approval, content |
| Registry.PromotionIsEarned | src/tenant_api/agent_registry.py:348-366 | In every run, a promoted version went through exactly the six stages since it was last registered, and carries the approval of the last approve step taken since |
| Registry.ContentIsLastRegistered | src/tenant_api/agent_registry.py:204-256 | The content of a version is that of its last accepted registration, whatever status changes followed |
| Registry.RegistrationReplaces | src/tenant_api/agent_registry.py:177-256 | Whether a registration is accepted depends on the request alone, never on the version already stored; accepted, it takes the version back to built and wipes its approval; refused, it changes nothing |
| Registry.StoredIsConstructibleIff | src/tenant_api/agent_registry.py:85-109 | In every run, a stored version can be built by the bridge exactly when it has a runtime or a layer, and its tier and transport are known - which registration does not check |
| Registry.FinalStatusStays | src/data-access-lib/src/data_access/domains/agent.py:38-49 | A failed or rolled-back version stays so in every run without a new registration |
| Rollback.RollbackAgent | scripts/rollback_agent.py:97-139 | The script makes at most one change, the rollback of the version it selected, and leaves the table alone whenever it declines or the API refuses |
| Rollback.KeysAgree | scripts/rollback_agent.py:111 | On numeric versions the script compares versions as the bridge does |
| Rollback.BridgeServesNewest | src/bridge/discovery_service.py:179-199 | On a healthy table the bridge resolves the newest promoted version, if any |
| Rollback.SelectionIsServed | scripts/rollback_agent.py:103-119 | The script selects the newest promoted version, and declines exactly below two promoted versions |
| Rollback.ScriptSelectsWhatIsServed | scripts/rollback_agent.py:103-119 | With script and bridge reading the rows in different orders, the version that the script selects is the one that the bridge serves |
| Rollback.RollbackSucceedsIff | scripts/rollback_agent.py:114-139 | It succeeds exactly with at least two promoted versions |
| Rollback.RollbackDropsNewest | scripts/rollback_agent.py:97-139 | One rollback takes exactly the newest promoted version out of service and keeps the rest in order, whatever order the scans return |
| Rollback.RollbacksStepDown | scripts/rollback_agent.py:97-139 | After k successful rollbacks the bridge serves the k-th next older promoted version, and one always remains |
| Rollback.ServedVersionDecreases | scripts/rollback_agent.py:97-139 | Along a run of rollbacks the version served strictly decreases |
| Rollback.HealthyIff | src/tenant_api/agent_registry.py:168-375 | In every run of registrations and status changes, the table is healthy exactly when the promoted versions of the agent are numeric, have a runtime or layer and a known tier and transport, and no two have equal version numbers |
| Rollback.RollbacksAreRegistrySteps | scripts/rollback_agent.py:124-133 | Every table on the way of a run of rollbacks is one that the registry produces, by as many rollback steps |
| Rollback.ReleasedRollbacksStepDown | scripts/rollback_agent.py:97-139 | The stepping down, for whatever the registry was asked to do before |
| Rollback.RollbackTakesEffectIff | src/bridge/discovery_service.py:179-199 | On any table, withdrawing a version changes what the bridge serves exactly when the bridge was serving it |
| Rollback.LegacyPromotedIsListedOnly | scripts/rollback_agent.py:103-105 | A record with the legacy status "released" is a candidate for the listing, but the script does not see it and the bridge cannot build it |
| Rollback.ReleasedLatestIsNotServed | src/bridge/discovery_service.py:106-117 | When the listing shows a "released" version as the latest, the detail shows it too, but the bridge does not serve it and the script cannot roll it back |
| Rollback.NewestReleasedIsListed | src/bridge/discovery_service.py:106-117 | This happens whenever a "released" version is newer than all other candidates of its agent |

## Left out

- Sockets, TLS, timeouts and endpoint parsing: the stream is the bytes still to come, and `recv` hands out any non-empty part of it.
- Interpreter limits: recursion depth and the 4300-digit bound of `int()`; numbers are ASCII digits with sign, surrounding white space and single underscores.
- Redis INCRBY overflow at 64 bits and the double precision of Lua numbers: counters are unbounded integers.
- Clock skew: clients and store share one clock, and a command may run any time after its client read it.
- Counter names in the store: counters are kept by their parts; `CounterKey.TenantIdsNeverShare` says why that is faithful for registered tenants, and `CounterKey.RenderInjective` when it is in general.
- Reading token usage and prompts out of JSON bodies, rate limit headers, metrics and log wording; the stand-alone check and correction wrappers at src/bridge/tpm_limiter.py:412-490, which repeat the modelled steps.
- The regular expressions that read Seq, Depends on and task ids from issue bodies, fetching issues, and the source note of a queue: issues come with these fields.
- Workflow.RunKeeps: a claim is one step, taken when the labels are read (other changes of labels may follow at once); issue creation, reopening and dependency edits are not steps, nor is making a worktree for a chosen issue, which does not go through the queue.
- Path resolution and Unicode lower-casing are arbitrary functions, and priority labels are compared in lower case for ASCII letters.
- Handoff.IssueStateFile.RecordEvent: time stamps, details and titles of events are not modelled.
- Handoff.CloseIssueDone: merge request lookup, issue closing, worktree cleanup and reports, and what is recorded after the audit or after a failure, are not modelled; the closeout is one that comes to its audit.
- Discovery.PrereleaseMisorderedIff: two pre-releases against each other, and build metadata, are not compared with SemVer.
- Audit.AuditIssues: the severity and wording of findings, and the drift and lock findings that the command adds.
- SHA-256: the results are about the text that is hashed.
- The tier filter and summary fields of the listing, the branch that resolves an explicitly named version, and capability policies.
- A status that is present but null in a version record, and Unicode digits in versions.
- DynamoDB paging, and other clients between the read and the write of one status change.
- Registry.AgentTable.RegisterAgent: whether the runtime and endpoint names match their patterns and each other is an input; the normal form of agent names, the caller's roles, and evaluation and release notes are not modelled.
- Lifecycle events after a status change.
- Billing, authorisation, redaction, gateway and deployment code.
