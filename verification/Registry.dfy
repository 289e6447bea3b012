/** The release lifecycle of agent versions: src/tenant_api/agent_registry.py and agent_logic.py, with the
    transition table of src/data-access-lib (domains/agent.py). */
module Registry {
  import opened Prelude
  import opened Text
  import opened Agents

  /** The key of a version record: partition AGENT#agent, sort key VERSION#version. */
  datatype VersionId = VersionId(agent: string, version: string)

  type Table = map<VersionId, Item>

  /** AGENT_STATUS_TRANSITIONS. */
  predicate MayFollow(current: AgentStatus, next: AgentStatus) {
    match current
    case Built => next == DeployedStaging || next == Failed
    case DeployedStaging => next == IntegrationVerified || next == Failed
    case IntegrationVerified => next == EvaluationPassed || next == Failed
    case EvaluationPassed => next == Approved || next == Failed
    case Approved => next == Promoted || next == Failed
    case Promoted => next == RolledBack
    case RolledBack => false
    case Failed => false
  }

  /** `validate_agent_status_transition`: staying put is always allowed. */
  predicate ValidTransition(current: AgentStatus, next: AgentStatus) {
    next == current || MayFollow(current, next)
  }

  datatype RegistryError = UnknownStatus | NotRegisterable | VersionMissing | UnsupportedMode | IncompleteLayers
                         | BadEndpoint | VersionNotFound | InvalidTransition | NoApproval

  // ---- Registering ----

  /** The status a registration asks for: none given means built. */
  function InitialStatus(raw: string): Option<AgentStatus> {
    if raw == "" then Some(Built)
    else if Strip(raw) == "" then None
    else NormalizeStatus(raw)
  }

  /** The record that a registration writes: the submitted fields without white space around them, no
      approval, no rollback. */
  function RegisteredItem(id: VersionId, body: Item, now: string): Item {
    body.(agentName := id.agent, version := id.version, status := Some(StatusText(Built)), deployedAt := now,
          mode := Lower(Strip(body.mode)), tier := Strip(body.tier), transport := Strip(body.transport),
          layerHash := Strip(body.layerHash), layerS3Key := Strip(body.layerS3Key),
          scriptS3Key := Strip(body.scriptS3Key), modelId := Strip(body.modelId),
          runtimeArn := Strip(body.runtimeArn), runtimeEndpointArn := Strip(body.runtimeEndpointArn),
          runtimeEndpointName := Strip(body.runtimeEndpointName),
          runtimeEndpointVersion := Strip(body.runtimeEndpointVersion),
          approvedBy := "", approvedAt := "", rolledBackBy := "", rolledBackAt := "")
  }

  /** `_validate_layer_metadata_invariants`: without a runtime, the layer's hash and key come together, and
      a script needs both. */
  predicate LayersComplete(i: Item) {
    || Strip(i.runtimeArn) != ""
    || (Strip(i.layerHash) == "" && Strip(i.layerS3Key) == "" && Strip(i.scriptS3Key) == "")
    || (Strip(i.layerHash) != "" && Strip(i.layerS3Key) != "")
  }

  /** `_validate_runtime_endpoint_invariants`: a runtime needs all three endpoint fields, and the fields need
      a runtime. `arnsMatch` says that the two names match their patterns and each other. */
  predicate EndpointComplete(i: Item, arnsMatch: bool) {
    if Strip(i.runtimeArn) == "" then
      Strip(i.runtimeEndpointArn) == "" && Strip(i.runtimeEndpointName) == "" && Strip(i.runtimeEndpointVersion) == ""
    else
      && Strip(i.runtimeEndpointArn) != "" && Strip(i.runtimeEndpointName) != "" && Strip(i.runtimeEndpointVersion) != ""
      && arnsMatch
  }

  function RegisterOutcome(t: Table, id: VersionId, body: Item, statusRaw: string, arnsMatch: bool, now: string)
    : Result<Table, RegistryError>
  {
    var item := RegisteredItem(id, body, now);
    if id.version == "" then Failure(VersionMissing)
    else match InitialStatus(statusRaw)
      case None => Failure(UnknownStatus)
      case Some(s) =>
        if s != Built then Failure(NotRegisterable)
        else if !SupportedMode(body) then Failure(UnsupportedMode)
        else if !LayersComplete(item) then Failure(IncompleteLayers)
        else if !EndpointComplete(item, arnsMatch) then Failure(BadEndpoint)
        else Success(t[id := item])
  }

  // ---- Changing the status ----

  function UpdatedItem(i: Item, target: AgentStatus, sub: string, now: string): Item {
    var moved := i.(status := Some(StatusText(target)));
    match target
    case Approved => moved.(approvedAt := now, approvedBy := sub)
    case RolledBack => moved.(rolledBackAt := now, rolledBackBy := sub)
    case _ => moved
  }

  /** `normalize_agent_status(existing.get("status"))` raises on a missing or blank status. */
  function StoredStatus(i: Item): Option<AgentStatus> {
    if i.status.None? || Strip(i.status.value) == "" then None else NormalizeStatus(i.status.value)
  }

  function UpdateOutcome(t: Table, id: VersionId, target: AgentStatus, sub: string, now: string): Result<Table, RegistryError> {
    if id !in t then Failure(VersionNotFound)
    else match StoredStatus(t[id])
      case None => Failure(UnknownStatus)
      case Some(current) =>
        if !ValidTransition(current, target) then Failure(InvalidTransition)
        else if target == Promoted && (t[id].approvedBy == "" || t[id].approvedAt == "") then Failure(NoApproval)
        else Success(t[id := UpdatedItem(t[id], target, sub, now)])
  }

  class AgentTable {
    var items: Table

    constructor ()
      ensures items == map[]
    {
      items := map[];
    }

    method RegisterAgent(id: VersionId, body: Item, statusRaw: string, arnsMatch: bool, now: string)
        returns (r: Result<AgentStatus, RegistryError>)
      modifies this
      ensures match RegisterOutcome(old(items), id, body, statusRaw, arnsMatch, now)
              case Success(t) => items == t && r == Success(Built)
              case Failure(e) => items == old(items) && r == Failure(e)
    {
      hide Strip, Lower, StatusText, InitialStatus, LayersComplete, EndpointComplete;
      if id.version == "" {
        return Failure(VersionMissing);
      }
      var initial := InitialStatus(statusRaw);
      if initial.None? {
        return Failure(UnknownStatus);
      }
      if initial.value != Built {
        return Failure(NotRegisterable);
      }
      var mode := Lower(Strip(body.mode));
      if mode != "sync" && mode != "streaming" {
        return Failure(UnsupportedMode);
      }
      var item := body.(agentName := id.agent, version := id.version, status := Some(StatusText(initial.value)));
      item := item.(mode := mode, tier := Strip(body.tier), deployedAt := now);
      item := item.(layerHash := Strip(body.layerHash), layerS3Key := Strip(body.layerS3Key));
      item := item.(scriptS3Key := Strip(body.scriptS3Key), modelId := Strip(body.modelId));
      item := item.(runtimeArn := Strip(body.runtimeArn), runtimeEndpointArn := Strip(body.runtimeEndpointArn));
      item := item.(runtimeEndpointName := Strip(body.runtimeEndpointName));
      item := item.(runtimeEndpointVersion := Strip(body.runtimeEndpointVersion));
      item := item.(transport := Strip(body.transport));
      item := item.(approvedBy := "", approvedAt := "", rolledBackBy := "", rolledBackAt := "");
      if !LayersComplete(item) {
        return Failure(IncompleteLayers);
      }
      if !EndpointComplete(item, arnsMatch) {
        return Failure(BadEndpoint);
      }
      items := items[id := item];
      r := Success(initial.value);
    }

    method UpdateAgentStatus(id: VersionId, target: AgentStatus, sub: string, now: string) returns (r: Result<AgentStatus, RegistryError>)
      modifies this
      ensures match UpdateOutcome(old(items), id, target, sub, now)
              case Success(t) => items == t && r == Success(target)
              case Failure(e) => items == old(items) && r == Failure(e)
    {
      hide StatusText, StoredStatus, ValidTransition;
      if id !in items {
        return Failure(VersionNotFound);
      }
      var existing := items[id];
      var current := StoredStatus(existing);
      if current.None? {
        return Failure(UnknownStatus);
      }
      if !ValidTransition(current.value, target) {
        return Failure(InvalidTransition);
      }
      var updated := existing.(status := Some(StatusText(target)));
      if target == Approved {
        updated := updated.(approvedAt := now);
        updated := updated.(approvedBy := sub);
      } else if target == Promoted {
        if existing.approvedBy == "" || existing.approvedAt == "" {
          return Failure(NoApproval);
        }
      } else if target == RolledBack {
        updated := updated.(rolledBackAt := now);
        updated := updated.(rolledBackBy := sub);
      }
      items := items[id := updated];
      r := Success(target);
    }
  }

  // ---- Runs ----

  datatype Op =
    | Register(id: VersionId, body: Item, statusRaw: string, arnsMatch: bool, now: string)
    | Update(id: VersionId, target: AgentStatus, sub: string, now: string)

  function Outcome(t: Table, op: Op): Result<Table, RegistryError> {
    match op
    case Register(id, body, statusRaw, arnsMatch, now) => RegisterOutcome(t, id, body, statusRaw, arnsMatch, now)
    case Update(id, target, sub, now) => UpdateOutcome(t, id, target, sub, now)
  }

  /** A refused request changes nothing. */
  function Apply(t: Table, op: Op): Table {
    match Outcome(t, op)
    case Success(u) => u
    case Failure(_) => t
  }

  function Run(ops: seq<Op>): Table {
    if ops == [] then map[] else Apply(Run(ops[..|ops| - 1]), ops[|ops| - 1])
  }

  /** `op` was accepted, and it is about version `id`. */
  predicate Accepted(t: Table, op: Op, id: VersionId) {
    op.id == id && Outcome(t, op).Success?
  }

  /** The statuses that version `id` went through since it was last registered, repeats left out. */
  function StatusPath(ops: seq<Op>, id: VersionId): seq<AgentStatus> {
    if ops == [] then []
    else
      var init, op := ops[..|ops| - 1], ops[|ops| - 1];
      var path := StatusPath(init, id);
      if !Accepted(Run(init), op, id) then path
      else if op.Register? then [Built]
      else if path != [] && path[|path| - 1] == op.target then path
      else path + [op.target]
  }

  /** Who approved version `id` last, and when, since it was last registered. */
  function LastApproval(ops: seq<Op>, id: VersionId): Option<(string, string)> {
    if ops == [] then None
    else
      var init, op := ops[..|ops| - 1], ops[|ops| - 1];
      if !Accepted(Run(init), op, id) then LastApproval(init, id)
      else if op.Register? then None
      else if op.target == Approved then Some((op.sub, op.now))
      else LastApproval(init, id)
  }

  /** The fields and the time of the last accepted registration of `id`. */
  function LastRegistration(ops: seq<Op>, id: VersionId): Option<(Item, string)> {
    if ops == [] then None
    else
      var init, op := ops[..|ops| - 1], ops[|ops| - 1];
      if Accepted(Run(init), op, id) && op.Register? then Some((op.body, op.now)) else LastRegistration(init, id)
  }

  /** The only way from registration to a status other than failed. */
  function Course(s: AgentStatus): seq<AgentStatus> {
    match s
    case Built => [Built]
    case DeployedStaging => [Built, DeployedStaging]
    case IntegrationVerified => [Built, DeployedStaging, IntegrationVerified]
    case EvaluationPassed => [Built, DeployedStaging, IntegrationVerified, EvaluationPassed]
    case Approved => [Built, DeployedStaging, IntegrationVerified, EvaluationPassed, Approved]
    case Promoted => [Built, DeployedStaging, IntegrationVerified, EvaluationPassed, Approved, Promoted]
    case RolledBack => [Built, DeployedStaging, IntegrationVerified, EvaluationPassed, Approved, Promoted, RolledBack]
    case Failed => []
  }

  /** A stored record against the history of its version since the last registration. */
  ghost predicate Consistent(id: VersionId, i: Item, path: seq<AgentStatus>, approval: Option<(string, string)>,
                             registration: (Item, string))
    requires path != []
  {
    var s := path[|path| - 1];
    && i.status == Some(StatusText(s))
    && (s != Failed ==> path == Course(s))
    && (s == Approved || s == Promoted || s == RolledBack ==> approval.Some?)
    && (s == Promoted || s == RolledBack ==> i.approvedBy != "" && i.approvedAt != "")
    && (match approval
        case Some((sub, when)) => i.approvedBy == sub && i.approvedAt == when
        case None => i.approvedBy == "" && i.approvedAt == "")
    && SameContent(i, RegisteredItem(id, registration.0, registration.1))
  }

  /** What is known of a stored version from the operations that led to it. */
  ghost predicate Explained(ops: seq<Op>, id: VersionId) {
    var t, path, registration := Run(ops), StatusPath(ops, id), LastRegistration(ops, id);
    && (id in t <==> path != []) && (id in t <==> registration.Some?)
    && (id in t ==> Consistent(id, t[id], path, LastApproval(ops, id), registration.value))
  }

  /** Equal but for the status and the governance fields. */
  predicate SameContent(i: Item, j: Item) {
    j == i.(status := j.status, approvedBy := j.approvedBy, approvedAt := j.approvedAt,
            rolledBackBy := j.rolledBackBy, rolledBackAt := j.rolledBackAt)
  }

  /** One more operation. */
  lemma RunStep(init: seq<Op>, op: Op, id: VersionId)
    ensures var ops := init + [op];
            var path := StatusPath(init, id);
            var mine := Accepted(Run(init), op, id);
            && Run(ops) == Apply(Run(init), op)
            && StatusPath(ops, id) == (if !mine then path else if op.Register? then [Built]
                                       else if path != [] && path[|path| - 1] == op.target then path
                                       else path + [op.target])
            && LastApproval(ops, id) == (if !mine then LastApproval(init, id) else if op.Register? then None
                                         else if op.target == Approved then Some((op.sub, op.now))
                                         else LastApproval(init, id))
            && LastRegistration(ops, id) == (if mine && op.Register? then Some((op.body, op.now))
                                             else LastRegistration(init, id))
  {
    hide Apply, Accepted, Outcome;
    var ops := init + [op];
    assert ops[..|ops| - 1] == init && ops[|init|] == op;
  }

  lemma OtherVersion(t: Table, op: Op, id: VersionId)
    requires !Accepted(t, op, id)
    ensures id in Apply(t, op) <==> id in t
    ensures id in t ==> Apply(t, op)[id] == t[id]
  {
    hide InitialStatus, StoredStatus, ValidTransition, UpdatedItem, RegisteredItem;
  }

  lemma StoredStatusOf(i: Item, s: AgentStatus)
    requires i.status == Some(StatusText(s))
    ensures StoredStatus(i) == Some(s)
  {
    StatusTextRoundTrip(s);
    hide StatusText, NormalizeStatus;
  }

  /** What an accepted update of a version does, when the stored status is `s`. */
  lemma AcceptedUpdate(t: Table, op: Op, s: AgentStatus)
    requires op.Update? && Accepted(t, op, op.id)
    ensures op.id in t
    ensures t[op.id].status == Some(StatusText(s)) ==>
              && ValidTransition(s, op.target)
              && (op.target == Promoted ==> t[op.id].approvedBy != "" && t[op.id].approvedAt != "")
              && Apply(t, op) == t[op.id := UpdatedItem(t[op.id], op.target, op.sub, op.now)]
  {
    hide StatusText, ValidTransition, UpdatedItem, StoredStatus;
    if t[op.id].status == Some(StatusText(s)) { StoredStatusOf(t[op.id], s); }
  }

  lemma UpdatedFields(i: Item, target: AgentStatus, sub: string, now: string, j: Item)
    requires SameContent(i, j)
    ensures var u := UpdatedItem(i, target, sub, now);
            && u.status == Some(StatusText(target)) && SameContent(u, j)
            && (target == Approved ==> u.approvedBy == sub && u.approvedAt == now)
            && (target != Approved ==> u.approvedBy == i.approvedBy && u.approvedAt == i.approvedAt)
  {
    hide StatusText;
  }

  lemma CourseGrows(s: AgentStatus, next: AgentStatus)
    requires MayFollow(s, next) && next != Failed
    ensures Course(next) == Course(s) + [next]
  {}

  lemma ConsistentAfterUpdate(id: VersionId, i: Item, path: seq<AgentStatus>, approval: Option<(string, string)>,
                              registration: (Item, string), target: AgentStatus, sub: string, now: string)
    requires path != [] && Consistent(id, i, path, approval, registration)
    requires ValidTransition(path[|path| - 1], target)
    requires target == Promoted ==> i.approvedBy != "" && i.approvedAt != ""
    ensures Consistent(id, UpdatedItem(i, target, sub, now),
                       if path[|path| - 1] == target then path else path + [target],
                       if target == Approved then Some((sub, now)) else approval, registration)
  {
    hide StatusText, Course, UpdatedItem, RegisteredItem, SameContent;
    var s := path[|path| - 1];
    UpdatedFields(i, target, sub, now, RegisteredItem(id, registration.0, registration.1));
    if target != s && target != Failed { CourseGrows(s, target); }
  }

  lemma AcceptedIsOwn(t: Table, op: Op, id: VersionId)
    requires Accepted(t, op, id)
    ensures op.id == id
  {}

  lemma UpdateNeedsVersion(t: Table, op: Op)
    requires op.Update? && Accepted(t, op, op.id)
    ensures op.id in t
  {
    hide StoredStatus, ValidTransition;
  }

  lemma ConsistentStatus(id: VersionId, i: Item, path: seq<AgentStatus>, approval: Option<(string, string)>,
                         registration: (Item, string))
    requires path != [] && Consistent(id, i, path, approval, registration)
    ensures i.status == Some(StatusText(path[|path| - 1]))
  {
    hide StatusText, SameContent, RegisteredItem, Course;
  }

  lemma UpdateExplained(init: seq<Op>, op: Op)
    requires Explained(init, op.id) && op.Update? && Accepted(Run(init), op, op.id)
    ensures Explained(init + [op], op.id)
  {
    hide Run, StatusPath, LastApproval, LastRegistration, Apply, Accepted, Outcome, Consistent, StatusText, UpdatedItem,
         RegisteredItem, ValidTransition, SameContent, Course;
    var id := op.id;
    var t, path := Run(init), StatusPath(init, id);
    UpdateNeedsVersion(t, op);
    var registration := LastRegistration(init, id).value;
    var last := path[|path| - 1];
    RunStep(init, op, id);
    ConsistentStatus(id, t[id], path, LastApproval(init, id), registration);
    AcceptedUpdate(t, op, last);
    ConsistentAfterUpdate(id, t[id], path, LastApproval(init, id), registration, op.target, op.sub, op.now);
  }

  lemma RegisterApplies(t: Table, op: Op)
    requires op.Register? && Accepted(t, op, op.id)
    ensures Apply(t, op) == t[op.id := RegisteredItem(op.id, op.body, op.now)]
  {
    hide RegisteredItem, InitialStatus, SupportedMode, LayersComplete, EndpointComplete;
  }

  lemma RegisteredIsConsistent(id: VersionId, body: Item, now: string)
    ensures Consistent(id, RegisteredItem(id, body, now), [Built], None, (body, now))
  {
    hide StatusText, Strip, Lower;
  }

  lemma RegisterExplained(init: seq<Op>, op: Op)
    requires op.Register? && Accepted(Run(init), op, op.id)
    ensures Explained(init + [op], op.id)
  {
    hide Run, StatusPath, LastApproval, LastRegistration, Apply, Accepted, Outcome, Consistent, StatusText, UpdatedItem,
         RegisteredItem, ValidTransition, SameContent, Course;
    RunStep(init, op, op.id);
    RegisterApplies(Run(init), op);
    RegisteredIsConsistent(op.id, op.body, op.now);
  }

  lemma OtherExplained(init: seq<Op>, op: Op, id: VersionId)
    requires Explained(init, id) && !Accepted(Run(init), op, id)
    ensures Explained(init + [op], id)
  {
    hide Run, StatusPath, LastApproval, LastRegistration, Apply, Accepted, Outcome, Consistent, StatusText, UpdatedItem,
         RegisteredItem, ValidTransition, SameContent, Course;
    RunStep(init, op, id);
    OtherVersion(Run(init), op, id);
  }

  /** Every stored version is explained by the operations since its last registration. */
  lemma {:induction false} RunExplained(ops: seq<Op>, id: VersionId)
    ensures Explained(ops, id)
  {
    if ops != [] {
      var init, op := ops[..|ops| - 1], ops[|ops| - 1];
      assert ops == init + [op];
      RunExplained(init, id);
      hide *;
      if !Accepted(Run(init), op, id) {
        OtherExplained(init, op, id);
      } else {
        AcceptedIsOwn(Run(init), op, id);
        if op.Register? {
          RegisterExplained(init, op);
        } else {
          UpdateExplained(init, op);
        }
      }
    }
  }

  /** In every run, a promoted version has gone through exactly the six stages of a release since it was
      last registered, and carries the approval of the last approve step taken since then. */
  lemma PromotionIsEarned(ops: seq<Op>, id: VersionId)
    requires id in Run(ops) && Run(ops)[id].status == Some("promoted")
    ensures StatusPath(ops, id) == [Built, DeployedStaging, IntegrationVerified, EvaluationPassed, Approved, Promoted]
    ensures Run(ops)[id].approvedBy != "" && Run(ops)[id].approvedAt != ""
    ensures LastApproval(ops, id) == Some((Run(ops)[id].approvedBy, Run(ops)[id].approvedAt))
  {
    RunExplained(ops, id);
    hide Run, StatusPath, LastApproval, LastRegistration, Consistent;
    PromotedIsConsistent(id, Run(ops)[id], StatusPath(ops, id), LastApproval(ops, id), LastRegistration(ops, id).value);
  }

  lemma PromotedIsConsistent(id: VersionId, i: Item, path: seq<AgentStatus>, approval: Option<(string, string)>,
                             registration: (Item, string))
    requires path != [] && Consistent(id, i, path, approval, registration) && i.status == Some("promoted")
    ensures path == [Built, DeployedStaging, IntegrationVerified, EvaluationPassed, Approved, Promoted]
    ensures i.approvedBy != "" && i.approvedAt != "" && approval == Some((i.approvedBy, i.approvedAt))
  {
    PromotedText();
    hide StatusText, SameContent, RegisteredItem;
    StatusTextInjective(path[|path| - 1], Promoted);
  }

  lemma PromotedText()
    ensures StatusText(Promoted) == "promoted"
  {}

  /** The content of a stored version is that of its last accepted registration, whatever status changes
      followed: it is unchanged since an earlier registration only as long as no later one replaced it. */
  lemma ContentIsLastRegistered(ops: seq<Op>, id: VersionId)
    requires id in Run(ops)
    ensures LastRegistration(ops, id).Some?
    ensures var (body, now) := LastRegistration(ops, id).value;
            SameContent(Run(ops)[id], RegisteredItem(id, body, now))
  {
    RunExplained(ops, id);
    hide Run, StatusPath, LastApproval, LastRegistration, SameContent, RegisteredItem, StatusText, Course;
  }

  /** Whether a registration is accepted depends on the request alone, not on what became of the version
      before; if it is, the version is back at built with its approval wiped: nothing but the absence of a
      second registration keeps a promoted version in service. */
  lemma RegistrationReplaces(ops: seq<Op>, id: VersionId, body: Item, statusRaw: string, arnsMatch: bool, now: string)
    ensures var op := Register(id, body, statusRaw, arnsMatch, now);
            var more := ops + [op];
            var item := RegisteredItem(id, body, now);
            && (Accepted(Run(ops), op, id)
                <==> && id.version != "" && InitialStatus(statusRaw) == Some(Built) && SupportedMode(body)
                     && LayersComplete(item) && EndpointComplete(item, arnsMatch))
            && (Accepted(Run(ops), op, id) ==>
                  && id in Run(more) && Run(more)[id] == item
                  && StatusPath(more, id) == [Built] && LastApproval(more, id) == None)
            && (!Accepted(Run(ops), op, id) ==> Run(more) == Run(ops))
  {
    hide Run, StatusPath, LastApproval, LastRegistration, RegisteredItem, InitialStatus, SupportedMode, LayersComplete,
         EndpointComplete;
    RunStep(ops, Register(id, body, statusRaw, arnsMatch, now), id);
  }

  // ---- Requests, by their fields ----

  /** The fields of a registered record, and what they come from. */
  lemma RegisteredFields(id: VersionId, body: Item, now: string)
    ensures var i := RegisteredItem(id, body, now);
            && i.agentName == id.agent && i.version == id.version && i.status == Some("built") && i.deployedAt == now
            && i.mode == Lower(Strip(body.mode)) && i.tier == Strip(body.tier) && i.transport == Strip(body.transport)
            && i.layerHash == Strip(body.layerHash) && i.layerS3Key == Strip(body.layerS3Key)
            && i.scriptS3Key == Strip(body.scriptS3Key) && i.modelId == Strip(body.modelId)
            && i.runtimeArn == Strip(body.runtimeArn) && i.runtimeEndpointArn == Strip(body.runtimeEndpointArn)
            && i.runtimeEndpointName == Strip(body.runtimeEndpointName)
            && i.runtimeEndpointVersion == Strip(body.runtimeEndpointVersion)
            && i.approvedBy == "" && i.approvedAt == "" && i.rolledBackBy == "" && i.rolledBackAt == ""
  {
    hide Strip, Lower;
  }

  /** Which registrations are accepted, by the submitted fields: a version; no status, or one that means built;
      a mode that is supported; without a runtime, a layer's hash and key together (and both for a script)
      and no endpoint; with a runtime, all of the endpoint, matching it. */
  lemma RegistrationAcceptedIff(t: Table, id: VersionId, body: Item, statusRaw: string, arnsMatch: bool, now: string)
    ensures var runtime, hash, key, script :=
              Strip(body.runtimeArn) != "", Strip(body.layerHash) != "", Strip(body.layerS3Key) != "", Strip(body.scriptS3Key) != "";
            var arn, name, version :=
              Strip(body.runtimeEndpointArn) != "", Strip(body.runtimeEndpointName) != "", Strip(body.runtimeEndpointVersion) != "";
            RegisterOutcome(t, id, body, statusRaw, arnsMatch, now).Success?
            <==> && id.version != ""
                 && (statusRaw == "" || Lower(Strip(statusRaw)) == "built" || Lower(Strip(statusRaw)) == "pending")
                 && (Lower(Strip(body.mode)) == "sync" || Lower(Strip(body.mode)) == "streaming")
                 && (if runtime then arn && name && version && arnsMatch
                     else !arn && !name && !version && hash == key && (script ==> hash))
  {
    CompleteAsSubmitted(id, body, arnsMatch, now);
    InitialIsBuiltIff(statusRaw);
    hide Strip, Lower, LayersComplete, EndpointComplete, InitialStatus;
  }

  lemma CompleteAsSubmitted(id: VersionId, body: Item, arnsMatch: bool, now: string)
    ensures LayersComplete(RegisteredItem(id, body, now)) == LayersComplete(body)
    ensures EndpointComplete(RegisteredItem(id, body, now), arnsMatch) == EndpointComplete(body, arnsMatch)
    ensures SupportedMode(body) <==> Lower(Strip(body.mode)) == "sync" || Lower(Strip(body.mode)) == "streaming"
    ensures LayersComplete(body) && EndpointComplete(body, arnsMatch)
       <==> var runtime, hash, key, script :=
              Strip(body.runtimeArn) != "", Strip(body.layerHash) != "", Strip(body.layerS3Key) != "", Strip(body.scriptS3Key) != "";
            var arn, name, version :=
              Strip(body.runtimeEndpointArn) != "", Strip(body.runtimeEndpointName) != "", Strip(body.runtimeEndpointVersion) != "";
            if runtime then arn && name && version && arnsMatch
            else !arn && !name && !version && hash == key && (script ==> hash)
  {
    hide Strip, Lower, StatusText;
    StripTwice(body.runtimeArn);
    StripTwice(body.layerHash);
    StripTwice(body.layerS3Key);
    StripTwice(body.scriptS3Key);
    StripTwice(body.runtimeEndpointArn);
    StripTwice(body.runtimeEndpointName);
    StripTwice(body.runtimeEndpointVersion);
  }

  lemma InitialIsBuiltIff(raw: string)
    ensures InitialStatus(raw) == Some(Built)
       <==> raw == "" || Lower(Strip(raw)) == "built" || Lower(Strip(raw)) == "pending"
  {
    NormalizeStatusIs(raw);
    LowerOfNothing();
    hide Strip, Lower, NormalizeStatus;
  }

  lemma LowerOfNothing()
    ensures Lower("") == ""
  {}

  /** The moves that a status change may make, by the stored texts. */
  const MOVES: seq<(string, string)> :=
    [("built", "deployed_staging"), ("built", "failed"),
     ("deployed_staging", "integration_verified"), ("deployed_staging", "failed"),
     ("integration_verified", "evaluation_passed"), ("integration_verified", "failed"),
     ("evaluation_passed", "approved"), ("evaluation_passed", "failed"),
     ("approved", "promoted"), ("approved", "failed"),
     ("promoted", "rolled_back")]

  /** Which status changes are accepted: of a stored version whose status can be read, to the same status or
      along one of the eleven moves, and to promoted only with both approval fields. */
  lemma UpdateAcceptedIff(t: Table, id: VersionId, s: AgentStatus, target: AgentStatus, sub: string, now: string)
    requires id in t && StoredStatus(t[id]) == Some(s)
    ensures UpdateOutcome(t, id, target, sub, now).Success?
       <==> && (s == target || (StatusText(s), StatusText(target)) in MOVES)
            && (target == Promoted ==> t[id].approvedBy != "" && t[id].approvedAt != "")
  {
    MovesAre(s, target);
    hide StoredStatus, StatusText, MOVES, MayFollow, UpdatedItem;
  }

  lemma MovesAre(s: AgentStatus, target: AgentStatus)
    ensures MayFollow(s, target) <==> (StatusText(s), StatusText(target)) in MOVES
  {
    if pair :| pair in MOVES && pair == (StatusText(s), StatusText(target)) {
      MoveOf(s, target);
    } else if MayFollow(s, target) {
      MoveIsListed(s, target);
    }
  }

  lemma MoveIsListed(s: AgentStatus, target: AgentStatus)
    requires MayFollow(s, target)
    ensures (StatusText(s), StatusText(target)) in MOVES
  {
    hide MOVES;
    MovesListed();
  }

  lemma MovesListed()
    ensures ("built", "deployed_staging") in MOVES && ("built", "failed") in MOVES
    ensures ("deployed_staging", "integration_verified") in MOVES && ("deployed_staging", "failed") in MOVES
    ensures ("integration_verified", "evaluation_passed") in MOVES && ("integration_verified", "failed") in MOVES
    ensures ("evaluation_passed", "approved") in MOVES && ("evaluation_passed", "failed") in MOVES
    ensures ("approved", "promoted") in MOVES && ("approved", "failed") in MOVES && ("promoted", "rolled_back") in MOVES
  {
    assert MOVES[0] == ("built", "deployed_staging") && MOVES[1] == ("built", "failed");
    assert MOVES[2] == ("deployed_staging", "integration_verified") && MOVES[3] == ("deployed_staging", "failed");
    assert MOVES[4] == ("integration_verified", "evaluation_passed") && MOVES[5] == ("integration_verified", "failed");
    assert MOVES[6] == ("evaluation_passed", "approved") && MOVES[7] == ("evaluation_passed", "failed");
    assert MOVES[8] == ("approved", "promoted") && MOVES[9] == ("approved", "failed") && MOVES[10] == ("promoted", "rolled_back");
  }

  lemma MoveOf(s: AgentStatus, target: AgentStatus)
    requires (StatusText(s), StatusText(target)) in MOVES
    ensures MayFollow(s, target)
  {
    var k :| 0 <= k < |MOVES| && MOVES[k] == (StatusText(s), StatusText(target));
    StatusOfText(s);
    StatusOfText(target);
    assert StatusOf(MOVES[k].0) == Some(s) && StatusOf(MOVES[k].1) == Some(target);
  }

  /** A version without a readable status cannot be moved at all. */
  lemma UnreadableIsStuck(t: Table, id: VersionId, target: AgentStatus, sub: string, now: string)
    requires id in t && (t[id].status.None? || Strip(t[id].status.value) == "" || NormalizeStatus(t[id].status.value).None?)
    ensures UpdateOutcome(t, id, target, sub, now) == Failure(UnknownStatus)
  {
    hide Strip, NormalizeStatus;
  }

  /** The six requests of a release. */
  function ReleaseOps(id: VersionId, body: Item, arnsMatch: bool, sub: string, now: string): seq<Op> {
    [Register(id, body, "", arnsMatch, now),
     Update(id, DeployedStaging, sub, now), Update(id, IntegrationVerified, sub, now), Update(id, EvaluationPassed, sub, now),
     Update(id, Approved, sub, now), Update(id, Promoted, sub, now)]
  }

  /** Every acceptable registration can be released: after the six requests the version is stored as promoted,
      with the approver and time of the fifth. */
  lemma ReleaseGoesThrough(id: VersionId, body: Item, arnsMatch: bool, sub: string, now: string)
    requires RegisterOutcome(map[], id, body, "", arnsMatch, now).Success? && sub != "" && now != ""
    ensures var t := Run(ReleaseOps(id, body, arnsMatch, sub, now));
            && id in t && t[id].status == Some("promoted") && t[id].approvedBy == sub && t[id].approvedAt == now
            && SameContent(t[id], RegisteredItem(id, body, now))
  {
    hide *;
    var i := RegisteredItem(id, body, now);
    var ops := ReleaseOps(id, body, arnsMatch, sub, now);
    ReleaseOpsAre(id, body, arnsMatch, sub, now);
    ReleaseMoves();
    StandsAfterRegistration(map[], ops[0]);
    ReleaseStep(ops, 0);
    ReleaseStep(ops, 1);
    MoveStands(Run(ops[..1]), ops[1], Built, i, "", "");
    ReleaseStep(ops, 2);
    MoveStands(Run(ops[..2]), ops[2], DeployedStaging, i, "", "");
    ReleaseStep(ops, 3);
    MoveStands(Run(ops[..3]), ops[3], IntegrationVerified, i, "", "");
    ReleaseStep(ops, 4);
    MoveStands(Run(ops[..4]), ops[4], EvaluationPassed, i, "", "");
    ReleaseStep(ops, 5);
    MoveStands(Run(ops[..5]), ops[5], Approved, i, sub, now);
    assert ops[..6] == ops;
    StandsMeans(Run(ops), id, Promoted, i, sub, now);
    PromotedText();
  }

  lemma ReleaseMoves()
    ensures MayFollow(Built, DeployedStaging) && MayFollow(DeployedStaging, IntegrationVerified)
    ensures MayFollow(IntegrationVerified, EvaluationPassed) && MayFollow(EvaluationPassed, Approved) && MayFollow(Approved, Promoted)
  {}

  lemma ReleaseOpsAre(id: VersionId, body: Item, arnsMatch: bool, sub: string, now: string)
    ensures var ops := ReleaseOps(id, body, arnsMatch, sub, now);
            && |ops| == 6 && ops[0] == Register(id, body, "", arnsMatch, now) && ops[1] == Update(id, DeployedStaging, sub, now)
            && ops[2] == Update(id, IntegrationVerified, sub, now) && ops[3] == Update(id, EvaluationPassed, sub, now)
            && ops[4] == Update(id, Approved, sub, now) && ops[5] == Update(id, Promoted, sub, now)
            && (RegisterOutcome(map[], id, body, "", arnsMatch, now).Success? ==> Accepted(map[], ops[0], id))
  {
    hide RegisterOutcome;
  }

  /** The version is stored with this status, content and approval. */
  ghost predicate Stands(t: Table, id: VersionId, s: AgentStatus, j: Item, sub: string, when: string) {
    && id in t && t[id].status == Some(StatusText(s)) && SameContent(t[id], j)
    && t[id].approvedBy == sub && t[id].approvedAt == when
  }

  lemma StandsMeans(t: Table, id: VersionId, s: AgentStatus, j: Item, sub: string, when: string)
    requires Stands(t, id, s, j, sub, when)
    ensures id in t && t[id].status == Some(StatusText(s)) && SameContent(t[id], j) && t[id].approvedBy == sub && t[id].approvedAt == when
  {
    hide StatusText, SameContent;
  }

  lemma StandsAfterRegistration(t: Table, op: Op)
    requires op.Register? && Accepted(t, op, op.id)
    ensures Stands(Apply(t, op), op.id, Built, RegisteredItem(op.id, op.body, op.now), "", "")
  {
    hide RegisteredItem, Apply, Accepted, SameContent, StatusText;
    RegisterApplies(t, op);
    FreshRecord(op.id, op.body, op.now);
  }

  lemma FreshRecord(id: VersionId, body: Item, now: string)
    ensures var i := RegisteredItem(id, body, now);
            i.status == Some(StatusText(Built)) && i.approvedBy == "" && i.approvedAt == "" && SameContent(i, i)
  {
    hide StatusText, Strip, Lower;
  }

  lemma MoveStands(t: Table, op: Op, s: AgentStatus, j: Item, sub: string, when: string)
    requires op.Update? && Stands(t, op.id, s, j, sub, when) && MayFollow(s, op.target)
    requires op.target == Promoted ==> sub != "" && when != ""
    ensures Stands(Apply(t, op), op.id, op.target, j, if op.target == Approved then op.sub else sub,
                   if op.target == Approved then op.now else when)
  {
    hide StatusText, SameContent, Apply;
    MoveApplies(t, op, s, j);
  }

  lemma ReleaseStep(ops: seq<Op>, k: nat)
    requires k < |ops|
    ensures Run(ops[..k + 1]) == Apply(Run(ops[..k]), ops[k])
    ensures Run(ops[..0]) == map[]
  {
    hide Apply;
    assert ops[..k + 1][..k] == ops[..k] && ops[..k + 1][k] == ops[k];
  }

  /** An update along a permitted move, of a version that keeps the content `j`. */
  lemma MoveApplies(t: Table, op: Op, s: AgentStatus, j: Item)
    requires op.Update? && op.id in t && t[op.id].status == Some(StatusText(s)) && MayFollow(s, op.target)
    requires op.target == Promoted ==> t[op.id].approvedBy != "" && t[op.id].approvedAt != ""
    requires SameContent(t[op.id], j)
    ensures var u := Apply(t, op);
            && op.id in u && u[op.id].status == Some(StatusText(op.target)) && SameContent(u[op.id], j)
            && (op.target == Approved ==> u[op.id].approvedBy == op.sub && u[op.id].approvedAt == op.now)
            && (op.target != Approved ==> u[op.id].approvedBy == t[op.id].approvedBy && u[op.id].approvedAt == t[op.id].approvedAt)
  {
    StoredStatusOf(t[op.id], s);
    UpdatedFields(t[op.id], op.target, op.sub, op.now, j);
    hide StatusText, StoredStatus, UpdatedItem, SameContent, MayFollow;
  }

  // ---- What registration does and does not guarantee ----

  /** What the checks leave in a record: a supported mode, complete layers, a status spelled exactly, and no
      white space around the fields. */
  ghost predicate Checked(i: Item) {
    && (i.mode == "sync" || i.mode == "streaming") && LayersComplete(i)
    && (exists s :: i.status == Some(StatusText(s)))
    && Strip(i.runtimeArn) == i.runtimeArn && Strip(i.layerHash) == i.layerHash
  }

  lemma StripTwice(s: string)
    ensures Strip(Strip(s)) == Strip(s)
  {
    if Strip(s) == "" { assert Strip("") == ""; }
  }

  lemma RegisteredIsChecked(t: Table, op: Op)
    requires op.Register? && Accepted(t, op, op.id)
    ensures op.id in Apply(t, op) && Checked(Apply(t, op)[op.id])
  {
    hide Strip, Lower, StatusText, InitialStatus, LayersComplete, EndpointComplete;
    StripTwice(op.body.runtimeArn);
    StripTwice(op.body.layerHash);
  }

  lemma UpdatedIsChecked(t: Table, op: Op)
    requires op.Update? && Accepted(t, op, op.id) && op.id in t && Checked(t[op.id])
    ensures op.id in Apply(t, op) && Checked(Apply(t, op)[op.id])
  {
    hide Strip, StatusText, StoredStatus, ValidTransition;
  }

  lemma {:induction false} StoredIsChecked(ops: seq<Op>, id: VersionId)
    requires id in Run(ops)
    ensures Checked(Run(ops)[id])
  {
    hide Checked, Apply, Accepted;
    var init, op := ops[..|ops| - 1], ops[|ops| - 1];
    if !Accepted(Run(init), op, id) {
      OtherVersion(Run(init), op, id);
      StoredIsChecked(init, id);
    } else {
      AcceptedIsOwn(Run(init), op, id);
      if op.Register? {
        RegisteredIsChecked(Run(init), op);
      } else {
        UpdateNeedsVersion(Run(init), op);
        StoredIsChecked(init, id);
        UpdatedIsChecked(Run(init), op);
      }
    }
  }

  /** Which stored versions the bridge can build, in every run: those with a runtime or a layer whose tier
      and transport are known. The registration checks the mode and that layers are complete, but accepts a
      version that has neither runtime nor layer, and any tier and transport. */
  lemma StoredIsConstructibleIff(ops: seq<Op>, id: VersionId)
    requires id in Run(ops)
    ensures var i := Run(ops)[id];
            Constructible(i)
            <==> && (i.runtimeArn != "" || i.layerHash != "")
                 && (i.tier == "basic" || i.tier == "standard" || i.tier == "premium")
                 && (i.transport == "sse" || i.transport == "websocket")
  {
    StoredIsChecked(ops, id);
    CheckedIsConstructibleIff(Run(ops)[id]);
  }

  lemma CheckedIsConstructibleIff(i: Item)
    requires Checked(i)
    ensures Constructible(i)
       <==> && (i.runtimeArn != "" || i.layerHash != "")
            && (i.tier == "basic" || i.tier == "standard" || i.tier == "premium")
            && (i.transport == "sse" || i.transport == "websocket")
  {
    hide Strip, StatusText, StatusOf;
    var s :| i.status == Some(StatusText(s));
    StatusTextRoundTrip(s);
  }

  /** No operation of `ops` from `n` on registers `id`. */
  predicate NoRegistration(ops: seq<Op>, n: nat, id: VersionId) {
    forall k :: n <= k < |ops| ==> !(ops[k].Register? && ops[k].id == id)
  }

  /** A version that failed, or was rolled back, stays so for ever unless it is registered again. */
  lemma {:induction false} FinalStatusStays(ops: seq<Op>, n: nat, id: VersionId, s: AgentStatus)
    requires n <= |ops| && NoRegistration(ops, n, id) && (s == Failed || s == RolledBack)
    requires id in Run(ops[..n]) && Run(ops[..n])[id].status == Some(StatusText(s))
    ensures id in Run(ops) && Run(ops)[id].status == Some(StatusText(s))
    decreases |ops|
  {
    hide Run, StatusText, StatusPath, LastApproval, LastRegistration, Apply;
    if n == |ops| {
      assert ops[..n] == ops;
    } else {
      var init, op := ops[..|ops| - 1], ops[|ops| - 1];
      assert ops == init + [op] && init[..n] == ops[..n];
      assert op == ops[|init|] && forall k :: n <= k < |init| ==> init[k] == ops[k];
      FinalStatusStays(init, n, id, s);
      RunStep(init, op, id);
      FinalStep(Run(init), op, id, s);
    }
  }

  lemma ContentIsReflexive(i: Item)
    ensures SameContent(i, i)
  {}

  lemma FinalStep(t: Table, op: Op, id: VersionId, s: AgentStatus)
    requires (s == Failed || s == RolledBack) && id in t && t[id].status == Some(StatusText(s))
    requires !(op.Register? && op.id == id)
    ensures id in Apply(t, op) && Apply(t, op)[id].status == Some(StatusText(s))
  {
    hide StatusText, StoredStatus, Outcome, Apply, UpdatedItem, SameContent;
    if Accepted(t, op, id) {
      AcceptedIsOwn(t, op, id);
      AcceptedUpdate(t, op, s);
      ContentIsReflexive(t[id]);
      UpdatedFields(t[id], op.target, op.sub, op.now, t[id]);
    } else {
      OtherVersion(t, op, id);
    }
  }
}
