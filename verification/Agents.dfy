/** Agent version records and statuses: src/data-access-lib (domains/agent.py) and the item checks of
    src/bridge/discovery_service.py. */
module Agents {
  import opened Prelude
  import opened Text

  datatype AgentStatus =
    | Built
    | DeployedStaging
    | IntegrationVerified
    | EvaluationPassed
    | Approved
    | Promoted
    | RolledBack
    | Failed

  function StatusText(s: AgentStatus): string {
    match s
    case Built => "built"
    case DeployedStaging => "deployed_staging"
    case IntegrationVerified => "integration_verified"
    case EvaluationPassed => "evaluation_passed"
    case Approved => "approved"
    case Promoted => "promoted"
    case RolledBack => "rolled_back"
    case Failed => "failed"
  }

  /** `AgentStatus(text)`: exact text only. */
  function StatusOf(text: string): (r: Option<AgentStatus>)
    ensures r.Some? ==> text == StatusText(r.value)
  {
    if text == "built" then Some(Built)
    else if text == "deployed_staging" then Some(DeployedStaging)
    else if text == "integration_verified" then Some(IntegrationVerified)
    else if text == "evaluation_passed" then Some(EvaluationPassed)
    else if text == "approved" then Some(Approved)
    else if text == "promoted" then Some(Promoted)
    else if text == "rolled_back" then Some(RolledBack)
    else if text == "failed" then Some(Failed)
    else None
  }

  /** `normalize_agent_status` on a text: case and outer white space are ignored, three legacy names are
      understood; None is the ValueError. */
  function NormalizeStatus(text: string): Option<AgentStatus> {
    var t := Lower(Strip(text));
    if t == "pending" then Some(Built)
    else if t == "released" then Some(Promoted)
    else if t == "rollback" then Some(RolledBack)
    else StatusOf(t)
  }

  /** One stored version. `status` is None when the record has no such field; other absent fields hold the
      default that the readers use for them. */
  datatype Item = Item(
    agentName: string,
    version: string,
    status: Option<string>,
    mode: string,
    tier: string,
    transport: string,
    deployedAt: string,
    runtimeArn: string,
    layerHash: string,
    layerS3Key: string,
    scriptS3Key: string,
    runtimeEndpointArn: string,
    runtimeEndpointName: string,
    runtimeEndpointVersion: string,
    modelId: string,
    approvedBy: string,
    approvedAt: string,
    rolledBackBy: string,
    rolledBackAt: string)

  /** `is_invokable_agent_status`: a missing or blank status counts as promoted; None is the ValueError. */
  function Invokable(i: Item): Option<bool> {
    if i.status.None? || Strip(i.status.value) == "" then Some(true)
    else match NormalizeStatus(i.status.value)
      case None => None
      case Some(s) => Some(s == Promoted)
  }

  predicate SupportedMode(i: Item) {
    var m := Lower(Strip(i.mode));
    m == "sync" || m == "streaming"
  }

  predicate HasLayers(i: Item) {
    Strip(i.runtimeArn) != "" || (Strip(i.layerHash) != "" && Strip(i.layerS3Key) != "")
  }

  predicate KnownNames(i: Item) {
    && (i.tier == "basic" || i.tier == "standard" || i.tier == "premium")
    && (i.mode == "sync" || i.mode == "streaming" || i.mode == "async")
    && (i.transport == "sse" || i.transport == "websocket")
  }

  /** The record from which the bridge serves an agent; it is built without the model id. */
  datatype AgentRecord = AgentRecord(agentName: string, version: string, modelId: string)

  /** `_agent_record_from_item` succeeds: layer metadata or a runtime, and every enumerated field, the
      status included, spelled exactly. */
  predicate Constructible(i: Item) {
    HasLayers(i) && KnownNames(i) && (i.status.Some? ==> StatusOf(i.status.value).Some?)
  }

  function AgentRecordFromItem(i: Item): Option<AgentRecord> {
    if Constructible(i) then Some(AgentRecord(i.agentName, i.version, "")) else None
  }

  /** Lower-case words are left alone by `strip` and `lower`. */
  lemma WordIsNormal(t: string)
    requires t != "" && forall k :: 0 <= k < |t| ==> 'a' <= t[k] <= 'z' || t[k] == '_'
    ensures Lower(Strip(t)) == t && Strip(t) == t
  {
    hide Strip;
    assert !IsSpace(t[0]) && !IsSpace(t[|t| - 1]);
    assert forall k :: 0 <= k < |t| ==> Lower(t)[k] == t[k];
  }

  lemma StatusOfText(s: AgentStatus)
    ensures StatusOf(StatusText(s)) == Some(s)
  {}

  lemma StatusTextIsNoAlias(s: AgentStatus)
    ensures StatusText(s) != "" && StatusText(s) != "pending" && StatusText(s) != "released" && StatusText(s) != "rollback"
  {}

  lemma StatusTextIsWord(s: AgentStatus)
    ensures forall k :: 0 <= k < |StatusText(s)| ==> 'a' <= StatusText(s)[k] <= 'z' || StatusText(s)[k] == '_'
  {}

  lemma StatusTextRoundTrip(s: AgentStatus)
    ensures StatusOf(StatusText(s)) == Some(s) && NormalizeStatus(StatusText(s)) == Some(s)
    ensures Strip(StatusText(s)) != ""
  {
    hide StatusText, StatusOf, Strip, Lower;
    StatusOfText(s);
    StatusTextIsNoAlias(s);
    StatusTextIsWord(s);
    WordIsNormal(StatusText(s));
  }

  lemma StatusTextInjective(s: AgentStatus, t: AgentStatus)
    requires StatusText(s) == StatusText(t)
    ensures s == t
  {
    hide StatusText, StatusOf;
    StatusTextRoundTrip(s);
    StatusTextRoundTrip(t);
  }

  /** Of the records with a status, those that are invokable and can be built are exactly the ones whose
      status is the text "promoted": legacy spellings are invokable but cannot be built. */
  lemma ServableIffPromoted(i: Item)
    requires i.status.Some? && HasLayers(i) && KnownNames(i)
    ensures Invokable(i) == Some(true) && Constructible(i) <==> i.status == Some("promoted")
  {
    hide StatusOf, NormalizeStatus, Strip, HasLayers, KnownNames;
    StatusTextRoundTrip(Promoted);
    if Constructible(i) {
      var s := StatusOf(i.status.value).value;
      StatusTextRoundTrip(s);
    }
  }

  // ---- The same by the stored texts ----

  /** Which stored texts stand for which status: eleven words, in any case, with white space around them. */
  lemma NormalizeStatusIs(text: string)
    ensures var t := Lower(Strip(text));
            match NormalizeStatus(text)
            case Some(Built) => t == "built" || t == "pending"
            case Some(DeployedStaging) => t == "deployed_staging"
            case Some(IntegrationVerified) => t == "integration_verified"
            case Some(EvaluationPassed) => t == "evaluation_passed"
            case Some(Approved) => t == "approved"
            case Some(Promoted) => t == "promoted" || t == "released"
            case Some(RolledBack) => t == "rolled_back" || t == "rollback"
            case Some(Failed) => t == "failed"
            case None => t !in ["built", "pending", "deployed_staging", "integration_verified", "evaluation_passed", "approved",
                                "promoted", "released", "rolled_back", "rollback", "failed"]
  {
    hide Strip, Lower;
  }

  lemma StatusTextIs(s: AgentStatus)
    ensures StatusText(s) == match s
                             case Built => "built"
                             case DeployedStaging => "deployed_staging"
                             case IntegrationVerified => "integration_verified"
                             case EvaluationPassed => "evaluation_passed"
                             case Approved => "approved"
                             case Promoted => "promoted"
                             case RolledBack => "rolled_back"
                             case Failed => "failed"
  {}

  /** A record is invokable with no status, a blank one, or one of the two words; it cannot be judged when
      the word is unknown. */
  lemma InvokableIs(i: Item)
    ensures var blank := i.status.None? || Strip(i.status.value) == "";
            var t := if blank then "" else Lower(Strip(i.status.value));
            && (Invokable(i) == Some(true) <==> blank || t == "promoted" || t == "released")
            && (Invokable(i) == None <==> !blank && t !in ["built", "pending", "deployed_staging", "integration_verified",
                                                            "evaluation_passed", "approved", "promoted", "released",
                                                            "rolled_back", "rollback", "failed"])
  {
    hide Strip, Lower, NormalizeStatus;
    if i.status.Some? { NormalizeStatusIs(i.status.value); }
  }

  /** A record can be built with a runtime, or a layer's hash and key; a known tier and transport, one of three
      modes, and, if there is a status, one of the eight spelled exactly. */
  lemma ConstructibleIs(i: Item)
    ensures Constructible(i)
       <==> && (Strip(i.runtimeArn) != "" || (Strip(i.layerHash) != "" && Strip(i.layerS3Key) != ""))
            && i.tier in ["basic", "standard", "premium"] && i.mode in ["sync", "streaming", "async"]
            && i.transport in ["sse", "websocket"]
            && (i.status.Some? ==> i.status.value in ["built", "deployed_staging", "integration_verified", "evaluation_passed",
                                                      "approved", "promoted", "rolled_back", "failed"])
  {
    hide Strip;
  }

  lemma SupportedModeIs(i: Item)
    ensures SupportedMode(i) <==> Lower(Strip(i.mode)) in ["sync", "streaming"]
  {
    hide Strip, Lower;
  }
}
