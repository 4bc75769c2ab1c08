/** What each locked body of the configuration store does, as a function of the
    files before it, its arguments and the outcomes of its writes. */
module StoreOperations {
  import opened Text
  import opened StorePaths
  import opened StoreRecords
  import opened ManifestTree

  /** One external knowledge binding; all but its id is one opaque text. */
  datatype KnowledgeBinding = KnowledgeBinding(bindingId: string, exact: string)

  /** Code outside the store: the YAML loader, the governance rules for MCP
      contracts, the production rule for MCP sources, the workflow stage rule of a
      manifest, the validation of one knowledge binding, and the parser of
      publication.json. */
  datatype Env = Env(
    load: Loader,
    parse: Parser,
    governed: Tree -> bool,
    sourceAllowed: ToolSource -> bool,
    stagesAvailable: string -> bool,
    binding: Tree -> Option<KnowledgeBinding>)

  datatype Error =
    | NotFound
    | Unreadable
    | RevisionConflict(actual: Option<int>)
    | PointerConflict(actualPointer: Option<string>)
    | InvariantViolated
    | AlreadyExists
    | Reserved
    | ChecksFailed
    | ConnectionUnusable
    | StageUnavailable
    | KnowledgeConflict
    | ToolSourceUnusable
    | LifecycleConflict
    | ReasonRequired
    | StillReferenced
    | DiscoveryFailed
    | WriteFailed

  /** Declined is a call that returns without doing anything. */
  datatype Reply = Accepted | Declined | Rejected(error: Error)

  datatype Stepped = Stepped(records: Records, reply: Reply, rest: seq<Outcome>)

  /** Guards first, then the writes. */
  function Commit(r: Records, plan: Result<seq<Write>, Error>, os: seq<Outcome>): Stepped {
    match plan
    case Err(e) => Stepped(r, Rejected(e), os)
    case Ok(ws) =>
      var x := Execute(r, ws, os);
      Stepped(x.records, if x.ok then Accepted else Rejected(WriteFailed), x.rest)
  }

  function AuditWrite(audit: OperationAudit): Write {
    Put(ConfigurationAuditKey(audit.operationId), AuditFile(audit), true)
  }

  // ----- drafts -----

  /** _write_draft: the draft, then its revision. */
  function DraftWrites(draft: DraftAgent, revision: int): seq<Write> {
    [ Put(DraftKey(draft.agentId, draft.draftId), DraftFile(draft), true),
      Put(DraftRevisionKey(draft.agentId, draft.draftId), RevisionFile(revision), true) ]
  }

  /** The revision a conditional save compares with: 0 when there is no draft. */
  function ActualRevision(r: Records, agentId: string, draftId: string): Result<int, Error> {
    match ReadDraft(r, agentId, draftId)
    case Missing => Ok(0)
    case Malformed => Err(Unreadable)
    case Found(current) =>
      match ReadDraftRevision(r, current)
      case Found(n) => Ok(n)
      case _ => Err(Unreadable)
  }

  /** _write_draft without a given revision, as create_draft uses it. */
  function WriteDraftPlan(r: Records, draft: DraftAgent): Result<seq<Write>, Error> {
    match ActualRevision(r, draft.agentId, draft.draftId)
    case Ok(n) => Ok(DraftWrites(draft, n + 1))
    case Err(e) => Err(e)
  }

  function SaveDraftPlan(r: Records, draft: DraftAgent, expectedRevision: int): Result<seq<Write>, Error> {
    match ActualRevision(r, draft.agentId, draft.draftId)
    case Ok(n) =>
      if n != expectedRevision then Err(RevisionConflict(Some(n))) else Ok(DraftWrites(draft, n + 1))
    case Err(e) => Err(e)
  }

  datatype DraftChanges = DraftChanges(
    displayName: Option<string>,
    purpose: Option<string>,
    bundle: Option<ContractBundle>)

  function Or<T>(change: Option<T>, current: T): T {
    if change.Some? then change.value else current
  }

  function UpdatedDraft(d: DraftAgent, changes: DraftChanges, audit: OperationAudit): DraftAgent {
    DraftAgent(
      d.agentId, d.draftId,
      Or(changes.displayName, d.displayName),
      Or(changes.purpose, d.purpose),
      Or(changes.bundle, d.bundle),
      audit.actor,
      d.operationAudit + [audit])
  }

  function UpdateDraftPlan(
    r: Records, agentId: string, draftId: string, changes: DraftChanges, audit: OperationAudit)
    : Result<seq<Write>, Error>
  {
    match ReadDraft(r, agentId, draftId)
    case Missing => Err(NotFound)
    case Malformed => Err(Unreadable)
    case Found(existing) => WriteDraftPlan(r, UpdatedDraft(existing, changes, audit))
  }

  // ----- publication checks -----

  predicate ConnectionActive(r: Records, id: string) {
    ReadConnection(r, id).Found? && ReadConnection(r, id).value.lifecycle.Active?
  }

  predicate ConnectionsActive(env: Env, r: Records, agentYaml: string) {
    forall id | id in ManifestConnectionIds(env.load, agentYaml) :: ConnectionActive(r, id)
  }

  predicate ValidationsReadable(r: Records, sourceId: string) {
    forall k | k in r :: k.ToolSourceValidationKey? && k.sourceId == sourceId ==> r[k].ValidationFile?
  }

  /** A stored validation of the source's present revision that has the digest. */
  predicate CoveredBy(r: Records, source: ToolSource, digest: string, k: StoreKey) {
    && k in r && k.ToolSourceValidationKey? && k.sourceId == source.sourceId
    && r[k].ValidationFile?
    && r[k].validation.configRevision == source.configRevision
    && digest in r[k].validation.snapshotDigests
  }

  function BoundSourceId(tool: Tree): string {
    Strip(TextField(tool, "tool_source_id"))
  }

  predicate ToolPublishable(env: Env, r: Records, tool: Tree) {
    && env.governed(tool)
    && BoundSourceId(tool) != ""
    && ReadToolSource(r, BoundSourceId(tool)).Found?
    && var source := ReadToolSource(r, BoundSourceId(tool)).value;
    && source.config.provider == "mcp"
    && source.lifecycle.Active?
    && env.sourceAllowed(source)
    && TextField(tool, "name") in source.config.toolContractIds
    && ValidationsReadable(r, source.sourceId)
    && exists k | k in r :: CoveredBy(r, source, SnapshotDigest(tool), k)
  }

  predicate ToolsPublishable(env: Env, r: Records, toolsYaml: string) {
    var tools := McpToolContracts(env.load, toolsYaml);
    tools.Some? && forall tool | tool in tools.value :: ToolPublishable(env, r, tool)
  }

  /** _manifest_has_embedded_or_shared_knowledge */
  predicate EmbedsKnowledge(load: Loader, agentYaml: string) {
    match LoadOrEmpty(load, agentYaml)
    case None => true
    case Some(raw) =>
      || !raw.Mapping?
      || exists key | key in {"package_knowledge_sources", "knowledge", "knowledge_sources"} ::
           Get(raw, key).Some? && Truthy(Get(raw, key).value)
  }

  /** What iterating over raw.get("knowledge_bindings", ()) yields, as far as it
      can validate: characters and keys are no bindings, and other values raise. */
  function BindingItems(load: Loader, agentYaml: string): Option<seq<Tree>> {
    match load(agentYaml)
    case Some(Mapping(entries)) =>
      (match Lookup(entries, "knowledge_bindings")
       case None => Some([])
       case Some(Sequence(items)) => Some(items)
       case Some(Scalar(text)) => if text == "" then Some([]) else None
       case Some(Mapping(inner)) => if inner == [] then Some([]) else None
       case Some(_) => None)
    case _ => None
  }

  function ParseBindings(binding: Tree -> Option<KnowledgeBinding>, items: seq<Tree>): (parsed: Option<seq<KnowledgeBinding>>)
    ensures parsed.Some? <==> forall i | 0 <= i < |items| :: binding(items[i]).Some?
    ensures parsed.Some? ==>
              |parsed.value| == |items| && forall i | 0 <= i < |items| :: binding(items[i]) == Some(parsed.value[i])
  {
    if items == [] then Some([])
    else
      var rest := ParseBindings(binding, items[1..]);
      assert items == [items[0]] + items[1..];
      if binding(items[0]).None? || rest.None? then None else Some([binding(items[0]).value] + rest.value)
  }

  function BindingIds(bindings: seq<KnowledgeBinding>): (ids: seq<string>)
    ensures |ids| == |bindings| && forall i | 0 <= i < |bindings| :: ids[i] == bindings[i].bindingId
  {
    seq(|bindings|, i requires 0 <= i < |bindings| => bindings[i].bindingId)
  }

  /** The external knowledge checks of _validate_draft_publication_unlocked. */
  predicate KnowledgeMatches(env: Env, agentYaml: string, resolved: seq<KnowledgeBinding>) {
    var items := BindingItems(env.load, agentYaml);
    && !EmbedsKnowledge(env.load, agentYaml)
    && items.Some?
    && var expected := ParseBindings(env.binding, items.value);
    expected.Some? && |expected.value| <= 5 && Unique(BindingIds(expected.value)) && expected.value == resolved
  }

  datatype PublishRequest = PublishRequest(
    agentId: string,
    draftId: string,
    versionId: string,
    validationRunId: string,
    actor: string,
    now: string,
    bindings: seq<KnowledgeBinding>)

  /** The seed resolves no knowledge bindings. */
  type SeedRequest = q: PublishRequest | q.bindings == [] witness PublishRequest("", "", "", "", "", "", [])

  function VersionFrom(q: PublishRequest, draft: DraftAgent): PublishedVersion {
    PublishedVersion(
      q.agentId, q.versionId, q.draftId, q.validationRunId,
      draft.displayName, draft.purpose, draft.bundle, q.now, q.actor)
  }

  function PointerFor(q: PublishRequest): ActiveVersion {
    ActiveVersion(q.agentId, q.versionId, q.now, q.actor, None)
  }

  /** _publish_version_unlocked */
  function PublishPlan(env: Env, r: Records, q: PublishRequest): Result<seq<Write>, Error> {
    match ReadDraft(r, q.agentId, q.draftId)
    case Missing => Err(NotFound)
    case Malformed => Err(Unreadable)
    case Found(draft) =>
      if !ConnectionsActive(env, r, draft.bundle.agentYaml) then Err(ConnectionUnusable)
      else if !env.stagesAvailable(draft.bundle.agentYaml) then Err(StageUnavailable)
      else if !KnowledgeMatches(env, draft.bundle.agentYaml, q.bindings) then Err(KnowledgeConflict)
      else if !ToolsPublishable(env, r, draft.bundle.toolsYaml) then Err(ToolSourceUnusable)
      else if Strip(q.validationRunId) == "" then Err(ChecksFailed)
      else Ok(VersionWrites(VersionFrom(q, draft)) + [PointerWrite(PointerFor(q))])
  }

  /** _require_canonical_seed_authority_allows_agent_unlocked */
  function AuthorityRefuses(r: Records, agentId: string): Option<Error> {
    match ReadAuthority(r)
    case Missing => None
    case Malformed => Some(Unreadable)
    case Found(canonical) => if canonical == agentId then None else Some(Reserved)
  }

  function PublishVersionPlan(env: Env, r: Records, q: PublishRequest): Result<seq<Write>, Error> {
    match AuthorityRefuses(r, q.agentId)
    case Some(e) => Err(e)
    case None => PublishPlan(env, r, q)
  }

  // ----- the prepared publication, with rollback -----

  datatype RawPublicationRecord = RawPublicationRecord(
    version: PublishedVersion,
    activation: ActiveVersion,
    draftRevision: int,
    pointerExpectation: Option<Option<string>>)
  {
    /** AgentPublicationRecord.require_matching_identities without formal evidence. */
    predicate Coherent() {
      && activation.agentId == version.agentId
      && activation.versionId == version.versionId
      && draftRevision >= 1
    }
  }

  const NoBundle := ContractBundle("", "", "", [], "")
  const NoVersion := PublishedVersion("a", "v", "d", "r", "", "", NoBundle, "", "")
  const NoActivation := ActiveVersion("a", "v", "", "", None)

  type PublicationRecord = p: RawPublicationRecord | p.Coherent()
    witness RawPublicationRecord(NoVersion, NoActivation, 1, None)

  function ActivePointer(r: Records, agentId: string): Result<Option<string>, Error> {
    match ReadActive(r, agentId)
    case Missing => Ok(None)
    case Malformed => Err(Unreadable)
    case Found(active) => Ok(Some(active.versionId))
  }

  /** The pointer precondition, when the record carries one. */
  function PointerRefuses(r: Records, agentId: string, expectation: Option<Option<string>>): Option<Error> {
    if expectation.None? then None
    else
      match ActivePointer(r, agentId)
      case Err(e) => Some(e)
      case Ok(actual) => if actual == expectation.value then None else Some(PointerConflict(actual))
  }

  function PublishRecordPlan(r: Records, p: PublicationRecord, expectedDraftRevision: int)
    : Result<seq<Write>, Error>
  {
    var v := p.version;
    if PointerRefuses(r, v.agentId, p.pointerExpectation).Some? then
      Err(PointerRefuses(r, v.agentId, p.pointerExpectation).value)
    else
      match ReadDraft(r, v.agentId, v.sourceDraftId)
      case Malformed => Err(Unreadable)
      case Missing => Err(RevisionConflict(None))
      case Found(draft) =>
        match ReadDraftRevision(r, draft)
        case Found(n) =>
          if n != expectedDraftRevision then Err(RevisionConflict(Some(n)))
          else if p.draftRevision != expectedDraftRevision then Err(InvariantViolated)
          else if v.bundle != draft.bundle then Err(InvariantViolated)
          else if VersionDirExists(r, v.agentId, v.versionId) then Err(AlreadyExists)
          else Ok(VersionWrites(v) + [PointerWrite(p.activation)])
        case _ => Err(Unreadable)
  }

  /** The except branch: remove the directory, put the old pointer bytes back. */
  function RolledBack(now: Records, before: Records, agentId: string, versionId: string): Records {
    var k := ActivePointerKey(agentId);
    var removed := WithoutVersion(now, agentId, versionId);
    if k in before then removed[k := before[k]] else removed - {k}
  }

  function PublishRecordStep(r: Records, p: PublicationRecord, expectedDraftRevision: int, os: seq<Outcome>)
    : Stepped
  {
    match PublishRecordPlan(r, p, expectedDraftRevision)
    case Err(e) => Stepped(r, Rejected(e), os)
    case Ok(ws) =>
      var x := Execute(r, ws, os);
      if x.ok then Stepped(x.records, Accepted, x.rest)
      else Stepped(RolledBack(x.records, r, p.version.agentId, p.version.versionId), Rejected(WriteFailed), x.rest)
  }

  // ----- the canonical seed -----

  /** Agents with an active_version.json, readable or not. */
  function ActiveAgents(r: Records): set<string> {
    set k | k in r && k.ActivePointerKey? :: k.agentId
  }

  function AuthorityWrite(agentId: string, initial: Option<string>): Write {
    Put(SeedAuthorityKey, AuthorityFile(agentId, initial), true)
  }

  function SeedStep(env: Env, r: Records, q: PublishRequest, os: seq<Outcome>): Stepped {
    if ActiveAgents(r) != {} || SeedAuthorityKey in r then Stepped(r, Declined, os)
    else
      var x := Execute(r, [AuthorityWrite(q.agentId, None)], os);
      if !x.ok then Stepped(x.records, Rejected(WriteFailed), x.rest)
      else
        match PublishPlan(env, x.records, q)
        case Err(e) => Stepped(x.records, Rejected(e), x.rest)
        case Ok(ws) => Commit(x.records, Ok(ws + [AuthorityWrite(q.agentId, Some(q.versionId))]), x.rest)
  }

  function EnsureAuthorityStep(r: Records, agentId: string, expectedVersionId: string, os: seq<Outcome>): Stepped {
    if ActiveAgents(r) != {agentId} then Stepped(r, Declined, os)
    else
      match ReadActive(r, agentId)
      case Missing => Stepped(r, Declined, os)
      case Malformed => Stepped(r, Rejected(Unreadable), os)
      case Found(active) =>
        if active.versionId != expectedVersionId then Stepped(r, Declined, os)
        else
          match ReadAuthority(r)
          case Malformed => Stepped(r, Rejected(Unreadable), os)
          case Found(canonical) => Stepped(r, if canonical == agentId then Accepted else Declined, os)
          case Missing => Commit(r, Ok([AuthorityWrite(agentId, Some(active.versionId))]), os)
  }

  // ----- activation -----

  datatype RawActivationRecord = RawActivationRecord(activation: ActiveVersion, expectation: Option<string>) {
    /** AgentActivationRecord.require_matching_rollback_origin */
    predicate Coherent() {
      activation.rollbackFromVersionId == expectation
    }
  }

  type ActivationRecord = a: RawActivationRecord | a.Coherent()
    witness RawActivationRecord(NoActivation, None)

  function ActivatePlan(env: Env, r: Records, a: ActivationRecord): Result<seq<Write>, Error> {
    var active := a.activation;
    if AuthorityRefuses(r, active.agentId).Some? then Err(AuthorityRefuses(r, active.agentId).value)
    else
      match ReadVersion(env.parse, r, active.agentId, active.versionId)
      case Missing => Err(NotFound)
      case Malformed => Err(Unreadable)
      case Found(_) =>
        match ActivePointer(r, active.agentId)
        case Err(e) => Err(e)
        case Ok(actual) =>
          if actual != a.expectation then Err(PointerConflict(actual)) else Ok([PointerWrite(active)])
  }

  // ----- model connections -----

  function ConnectionWrites(c: ModelConnection, audit: OperationAudit): seq<Write> {
    [Put(ConnectionKey(c.connectionId, CONNECTION), ConnectionFile(c), true), AuditWrite(audit)]
  }

  datatype ConnectionChanges = ConnectionChanges(
    displayName: Option<string>,
    description: Option<string>,
    tags: Option<seq<string>>,
    provider: Option<string>,
    modelIdentifier: Option<string>,
    baseUrl: Option<string>,
    credentialRef: Option<string>,
    organizationEnv: Option<string>,
    projectEnv: Option<string>,
    timeoutSeconds: Option<real>)

  function OrKeep<T>(change: Option<T>, current: Option<T>): Option<T> {
    if change.Some? then change else current
  }

  function ChangedSettings(s: ConnectionSettings, ch: ConnectionChanges): ConnectionSettings {
    ConnectionSettings(
      Or(ch.displayName, s.displayName), Or(ch.description, s.description), Or(ch.tags, s.tags),
      Or(ch.provider, s.provider), Or(ch.modelIdentifier, s.modelIdentifier), OrKeep(ch.baseUrl, s.baseUrl),
      Or(ch.credentialRef, s.credentialRef), OrKeep(ch.organizationEnv, s.organizationEnv),
      OrKeep(ch.projectEnv, s.projectEnv), OrKeep(ch.timeoutSeconds, s.timeoutSeconds))
  }

  function CreateConnectionPlan(r: Records, id: string, settings: ConnectionSettings, now: string, audit: OperationAudit)
    : Result<seq<Write>, Error>
  {
    match ReadConnection(r, id)
    case Malformed => Err(Unreadable)
    case Found(_) => Err(AlreadyExists)
    case Missing => Ok(ConnectionWrites(ModelConnection(id, settings, Active, now), audit))
  }

  function UpdateConnectionPlan(r: Records, id: string, changes: ConnectionChanges, now: string, audit: OperationAudit)
    : Result<seq<Write>, Error>
  {
    match ReadConnection(r, id)
    case Malformed => Err(Unreadable)
    case Missing => Err(NotFound)
    case Found(c) => Ok(ConnectionWrites(c.(settings := ChangedSettings(c.settings, changes), updatedAt := now), audit))
  }

  function ArchiveConnectionPlan(r: Records, id: string, reason: string, now: string, audit: OperationAudit)
    : Result<seq<Write>, Error>
  {
    if Strip(reason) == "" then Err(ReasonRequired)
    else
      match ReadConnection(r, id)
      case Malformed => Err(Unreadable)
      case Missing => Err(NotFound)
      case Found(c) =>
        if c.lifecycle.Archived? then Err(LifecycleConflict)
        else Ok(ConnectionWrites(c.(lifecycle := Archived, updatedAt := now), audit))
  }

  function RestoreConnectionPlan(r: Records, id: string, now: string, audit: OperationAudit)
    : Result<seq<Write>, Error>
  {
    match ReadConnection(r, id)
    case Malformed => Err(Unreadable)
    case Missing => Err(NotFound)
    case Found(c) =>
      if !c.lifecycle.Archived? then Err(LifecycleConflict)
      else Ok(ConnectionWrites(c.(lifecycle := Active, updatedAt := now), audit))
  }

  predicate IsPublicationKey(k: StoreKey) {
    k.VersionKey? && k.member == PUBLICATION
  }

  /** list_drafts and list_versions raise on a file that does not parse. */
  predicate ReferencesReadable(env: Env, r: Records) {
    forall k | k in r ::
      && (k.DraftKey? ==> r[k].DraftFile?)
      && (IsPublicationKey(k) ==> PublicationIn(env.parse, r[k]).Some?)
  }

  predicate DraftRefersTo(env: Env, r: Records, k: StoreKey, id: string) {
    && k in r && k.DraftKey? && r[k].DraftFile?
    && id in ManifestConnectionIds(env.load, r[k].draft.bundle.agentYaml)
  }

  predicate VersionRefersTo(env: Env, r: Records, k: StoreKey, id: string) {
    && k in r && IsPublicationKey(k) && PublicationIn(env.parse, r[k]).Some?
    && id in ManifestConnectionIds(env.load, PublicationIn(env.parse, r[k]).value.bundle.agentYaml)
  }

  datatype Blocker = ConnectionNotArchived | DraftAgentReferences | PublishedAgentVersions

  /** _model_connection_deletion_blockers over the counted references. */
  function DeletionBlockers(env: Env, r: Records, c: ModelConnection): seq<Blocker> {
    (if c.lifecycle.Archived? then [] else [ConnectionNotArchived])
    + (if exists k | k in r :: DraftRefersTo(env, r, k, c.connectionId) then [DraftAgentReferences] else [])
    + (if exists k | k in r :: VersionRefersTo(env, r, k, c.connectionId) then [PublishedAgentVersions] else [])
  }

  function DeleteConnectionPlan(env: Env, r: Records, id: string, reason: string, audit: OperationAudit)
    : Result<seq<Write>, Error>
  {
    if Strip(reason) == "" then Err(ReasonRequired)
    else
      match ReadConnection(r, id)
      case Malformed => Err(Unreadable)
      case Missing => Err(NotFound)
      case Found(c) =>
        if !ReferencesReadable(env, r) then Err(Unreadable)
        else if DeletionBlockers(env, r, c) != [] then Err(StillReferenced)
        else Ok([AuditWrite(audit), DropConnection(id)])
  }

  // ----- tool sources -----

  function ToolSourceWrites(s: ToolSource, audit: OperationAudit): seq<Write> {
    [Put(ToolSourceKey(s.sourceId), ToolSourceFile(s), true), AuditWrite(audit)]
  }

  /** configOk: the parameters are secret-free and fit the provider. */
  function CreateToolSourcePlan(
    r: Records, id: string, config: ToolSourceConfig, configOk: bool, now: string, audit: OperationAudit)
    : Result<seq<Write>, Error>
  {
    if !configOk then Err(ChecksFailed)
    else
      match ReadToolSource(r, id)
      case Malformed => Err(Unreadable)
      case Found(_) => Err(AlreadyExists)
      case Missing => Ok(ToolSourceWrites(ToolSource(id, config, Active, 1, now), audit))
  }

  datatype ToolSourceChanges = ToolSourceChanges(
    name: Option<string>,
    sourceType: Option<string>,
    provider: Option<string>,
    toolContractIds: Option<seq<string>>,
    credentialEnvRef: Option<string>,
    params: Option<string>)

  function ChangedConfig(c: ToolSourceConfig, ch: ToolSourceChanges): ToolSourceConfig {
    ToolSourceConfig(
      Or(ch.name, c.name), Or(ch.sourceType, c.sourceType), Or(ch.provider, c.provider),
      Or(ch.toolContractIds, c.toolContractIds),
      OrKeep(ch.credentialEnvRef, c.credentialEnvRef),
      Or(ch.params, c.params))
  }

  /** Every update takes the next revision, even one that changes nothing. */
  function RevisedToolSource(s: ToolSource, changes: ToolSourceChanges, now: string): ToolSource {
    s.(config := ChangedConfig(s.config, changes), configRevision := s.configRevision + 1, updatedAt := now)
  }

  function UpdateToolSourcePlan(
    r: Records, id: string, changes: ToolSourceChanges, configOk: bool, now: string, audit: OperationAudit)
    : Result<seq<Write>, Error>
  {
    match ReadToolSource(r, id)
    case Malformed => Err(Unreadable)
    case Missing => Err(NotFound)
    case Found(s) =>
      if !configOk then Err(ChecksFailed)
      else Ok(ToolSourceWrites(RevisedToolSource(s, changes, now), audit))
  }

  function ArchiveToolSourcePlan(r: Records, id: string, reason: string, now: string, audit: OperationAudit)
    : Result<seq<Write>, Error>
  {
    if Strip(reason) == "" then Err(ReasonRequired)
    else
      match ReadToolSource(r, id)
      case Malformed => Err(Unreadable)
      case Missing => Err(NotFound)
      case Found(s) =>
        if s.lifecycle.Archived? then Err(LifecycleConflict)
        else Ok(ToolSourceWrites(s.(lifecycle := Archived, updatedAt := now), audit))
  }

  function RestoreToolSourcePlan(r: Records, id: string, now: string, audit: OperationAudit)
    : Result<seq<Write>, Error>
  {
    match ReadToolSource(r, id)
    case Malformed => Err(Unreadable)
    case Missing => Err(NotFound)
    case Found(s) =>
      if !s.lifecycle.Archived? then Err(LifecycleConflict)
      else Ok(ToolSourceWrites(s.(lifecycle := Active, updatedAt := now), audit))
  }

  /** The contracts of a validation call that are bound to the source. */
  function RelevantContracts(contracts: seq<Tree>, sourceId: string): (relevant: seq<Tree>)
    ensures forall t | t in relevant :: t in contracts
  {
    if contracts == [] then []
    else
      (if Get(contracts[0], "source") == Some(Scalar("mcp"))
          && Get(contracts[0], "tool_source_id") == Some(Scalar(sourceId))
       then [contracts[0]] else [])
      + RelevantContracts(contracts[1..], sourceId)
  }

  function MapTrees(ts: seq<Tree>, f: Tree -> string): (out: seq<string>)
    ensures |out| == |ts| && forall i | 0 <= i < |ts| :: out[i] == f(ts[i])
  {
    seq(|ts|, i requires 0 <= i < |ts| => f(ts[i]))
  }

  function ValidationOf(current: ToolSource, contracts: seq<Tree>, validationId: string): ToolSourceValidation {
    var relevant := RelevantContracts(contracts, current.sourceId);
    ToolSourceValidation(
      validationId, current.sourceId, current.configRevision,
      MapTrees(relevant, (t: Tree) => TextField(t, "name")),
      MapTrees(relevant, (t: Tree) => SnapshotDigest(t)))
  }

  /** The second locked body of validate_mcp_tool_source_publication: captured is
      the source the first one read, discovered the result of the remote call
      made in between without the lock. */
  function FinishValidationPlan(
    r: Records, captured: ToolSource, contracts: seq<Tree>, discovered: bool, validationId: string)
    : Result<seq<Write>, Error>
  {
    if !discovered then Err(DiscoveryFailed)
    else
      match ReadToolSource(r, captured.sourceId)
      case Malformed => Err(Unreadable)
      case Missing => Err(NotFound)
      case Found(current) =>
        if current.configRevision != captured.configRevision then Err(LifecycleConflict)
        else
          var v := ValidationOf(current, contracts, validationId);
          Ok([Put(ToolSourceValidationKey(v.sourceId, v.validationId), ValidationFile(v), true)])
  }

  // ----- one locked body -----

  datatype Operation =
    | CreateDraft(newDraft: DraftAgent)
    | SaveDraft(draft: DraftAgent, expectedRevision: int)
    | UpdateDraft(agentId: string, draftId: string, changes: DraftChanges, audit: OperationAudit)
    | PublishVersion(request: PublishRequest)
    | PublishRecord(publication: PublicationRecord, expectedDraftRevision: int)
    | SeedVersion(seed: SeedRequest)
    | EnsureAuthority(seedAgentId: string, expectedVersionId: string)
    | ActivateVersion(activation: ActivationRecord)
    | CreateConnection(connectionId: string, settings: ConnectionSettings, now: string, audit: OperationAudit)
    | UpdateConnection(connectionId: string, connectionChanges: ConnectionChanges, now: string, audit: OperationAudit)
    | ArchiveConnection(connectionId: string, reason: string, now: string, audit: OperationAudit)
    | RestoreConnection(connectionId: string, now: string, audit: OperationAudit)
    | DeleteConnection(connectionId: string, reason: string, audit: OperationAudit)
    | CreateToolSource(sourceId: string, config: ToolSourceConfig, configOk: bool, now: string, audit: OperationAudit)
    | UpdateToolSource(sourceId: string, sourceChanges: ToolSourceChanges, configOk: bool, now: string, audit: OperationAudit)
    | ArchiveToolSource(sourceId: string, reason: string, now: string, audit: OperationAudit)
    | RestoreToolSource(sourceId: string, now: string, audit: OperationAudit)
    | RecordAudit(audit: OperationAudit)

  /** The guards and writes of the operations that only commit. */
  function Plan(env: Env, r: Records, op: Operation): Result<seq<Write>, Error>
    requires !op.PublishRecord? && !op.SeedVersion? && !op.EnsureAuthority?
  {
    match op
    case CreateDraft(d) => WriteDraftPlan(r, d)
    case SaveDraft(d, n) => SaveDraftPlan(r, d, n)
    case UpdateDraft(a, d, changes, audit) => UpdateDraftPlan(r, a, d, changes, audit)
    case PublishVersion(q) => PublishVersionPlan(env, r, q)
    case ActivateVersion(a) => ActivatePlan(env, r, a)
    case CreateConnection(id, settings, now, audit) => CreateConnectionPlan(r, id, settings, now, audit)
    case UpdateConnection(id, changes, now, audit) => UpdateConnectionPlan(r, id, changes, now, audit)
    case ArchiveConnection(id, reason, now, audit) => ArchiveConnectionPlan(r, id, reason, now, audit)
    case RestoreConnection(id, now, audit) => RestoreConnectionPlan(r, id, now, audit)
    case DeleteConnection(id, reason, audit) => DeleteConnectionPlan(env, r, id, reason, audit)
    case CreateToolSource(id, config, ok, now, audit) => CreateToolSourcePlan(r, id, config, ok, now, audit)
    case UpdateToolSource(id, changes, ok, now, audit) => UpdateToolSourcePlan(r, id, changes, ok, now, audit)
    case ArchiveToolSource(id, reason, now, audit) => ArchiveToolSourcePlan(r, id, reason, now, audit)
    case RestoreToolSource(id, now, audit) => RestoreToolSourcePlan(r, id, now, audit)
    case RecordAudit(audit) => Ok([AuditWrite(audit)])
  }

  function Step(env: Env, r: Records, op: Operation, os: seq<Outcome>): Stepped {
    match op
    case PublishRecord(p, n) => PublishRecordStep(r, p, n, os)
    case SeedVersion(q) => SeedStep(env, r, q, os)
    case EnsureAuthority(a, v) => EnsureAuthorityStep(r, a, v, os)
    case _ => Commit(r, Plan(env, r, op), os)
  }

  /** Generated version ids are fresh; nothing else is asked of a caller. */
  predicate FreshId(r: Records, op: Operation) {
    match op
    case PublishVersion(q) => !VersionDirExists(r, q.agentId, q.versionId)
    case SeedVersion(q) => !VersionDirExists(r, q.agentId, q.versionId)
    case _ => true
  }
}
