/** When each operation of the configuration store is accepted and what it then
    leaves, stated on the files themselves: the guards and the written records of
    every locked body, one operation at a time. */
module StoreAcceptance {
  import opened Text
  import opened StorePaths
  import opened StoreRecords
  import opened StoreOperations
  import opened StoreInvariants
  import opened StoreRuns
  import opened StoreGuarantees
  import opened StoreLifecycles
  import opened ManifestTree

  /** No write raises. */
  predicate AllDone(os: seq<Outcome>) {
    forall o | o in os :: o.Done?
  }

  lemma {:induction false} DoneExecutes(r: Records, ws: seq<Write>, os: seq<Outcome>)
    requires AllDone(os)
    ensures Execute(r, ws, os).ok && AllDone(Execute(r, ws, os).rest)
    decreases |ws|
  {
    if ws != [] {
      assert os != [] ==> os[0] in os && forall o | o in os[1..] :: o in os;
      DoneExecutes(Apply(r, ws[0], HeadOutcome(os)), ws[1..], TailOutcomes(os));
    }
  }

  // ----- drafts -----

  /** The effective revision of a draft: 0 without a draft, else what its revision
      file says, else the number of its audit entries but at least one. */
  predicate HasRevision(r: Records, a: string, d: string, n: int) {
    var draft, revision := DraftKey(a, d), DraftRevisionKey(a, d);
    if draft !in r then n == 0
    else if revision in r then r[revision] == RevisionFile(n)
    else r[draft].DraftFile? && n == (if r[draft].draft.operationAudit == [] then 1 else |r[draft].draft.operationAudit|)
  }

  lemma RevisionMeans(r: Records, a: string, d: string)
    requires Sound(r)
    ensures ActualRevision(r, a, d).Ok?
    ensures forall n :: HasRevision(r, a, d, n) <==> ActualRevision(r, a, d) == Ok(n)
  {
    assert DraftKey(a, d) in r ==> KeyMatches(DraftKey(a, d), r[DraftKey(a, d)]);
    assert DraftRevisionKey(a, d) in r ==> KeyMatches(DraftRevisionKey(a, d), r[DraftRevisionKey(a, d)]);
  }

  /** The two files of a draft, and nothing else, are written. */
  predicate DraftWritten(r: Records, s: Records, draft: DraftAgent, n: int) {
    s == r[DraftKey(draft.agentId, draft.draftId) := DraftFile(draft)]
          [DraftRevisionKey(draft.agentId, draft.draftId) := RevisionFile(n)]
  }

  lemma DraftCommits(r: Records, draft: DraftAgent, n: int, os: seq<Outcome>)
    ensures var x := Execute(r, DraftWrites(draft, n), os);
            (AllDone(os) ==> x.ok) && (x.ok ==> DraftWritten(r, x.records, draft, n))
  {
    if AllDone(os) {
      DoneExecutes(r, DraftWrites(draft, n), os);
    }
    var ws := DraftWrites(draft, n);
    assert ws[1..] == [ws[1]];
    ExecuteOne(Apply(r, ws[0], HeadOutcome(os)), ws[1], TailOutcomes(os));
  }

  /** create_draft is accepted whenever its writes return, and raises the revision
      by one. */
  lemma CreateDraftExactly(env: Env, r: Records, draft: DraftAgent, n: int, os: seq<Outcome>)
    requires Sound(r) && HasRevision(r, draft.agentId, draft.draftId, n)
    ensures var step := Step(env, r, CreateDraft(draft), os);
            && (AllDone(os) ==> step.reply.Accepted?)
            && (step.reply.Accepted? ==> DraftWritten(r, step.records, draft, n + 1))
  {
    RevisionMeans(r, draft.agentId, draft.draftId);
    DraftCommits(r, draft, n + 1, os);
  }

  /** save_draft_record is accepted exactly at the expected revision. */
  lemma SaveDraftExactly(env: Env, r: Records, draft: DraftAgent, n: int, os: seq<Outcome>)
    requires Sound(r)
    ensures var step := Step(env, r, SaveDraft(draft, n), os);
            && (AllDone(os) ==> (step.reply.Accepted? <==> HasRevision(r, draft.agentId, draft.draftId, n)))
            && (step.reply.Accepted? ==>
                  HasRevision(r, draft.agentId, draft.draftId, n) && DraftWritten(r, step.records, draft, n + 1))
  {
    RevisionMeans(r, draft.agentId, draft.draftId);
    DraftCommits(r, draft, n + 1, os);
  }

  /** update_draft is accepted exactly for drafts that exist, and writes the draft
      as DraftUpdateKeepsRest says under the next revision. */
  lemma UpdateDraftExactly(
    env: Env, r: Records, a: string, d: string, changes: DraftChanges, audit: OperationAudit, n: int, os: seq<Outcome>)
    requires Sound(r) && HasRevision(r, a, d, n)
    ensures var step := Step(env, r, UpdateDraft(a, d, changes, audit), os);
            && (AllDone(os) ==> (step.reply.Accepted? <==> DraftKey(a, d) in r))
            && (step.reply.Accepted? ==>
                  && ReadDraft(step.records, a, d).Found?
                  && DraftWritten(r, step.records, ReadDraft(step.records, a, d).value, n + 1))
  {
    RevisionMeans(r, a, d);
    if DraftKey(a, d) in r {
      assert KeyMatches(DraftKey(a, d), r[DraftKey(a, d)]);
      DraftCommits(r, UpdatedDraft(r[DraftKey(a, d)].draft, changes, audit), n + 1, os);
    }
  }

  // ----- publish_version -----

  /** The store is not reserved, or reserved for this agent. */
  predicate OpenTo(r: Records, agentId: string) {
    SeedAuthorityKey in r ==> r[SeedAuthorityKey].AuthorityFile? && r[SeedAuthorityKey].canonicalAgentId == agentId
  }

  /** Every connection the manifest declares exists and is active. */
  ghost predicate ConnectionsUsable(env: Env, r: Records, agentYaml: string) {
    forall id | ManifestDeclares(env, agentYaml, id) ::
      && IsPlainName(id) && ConnectionKey(id, CONNECTION) in r
      && var c := r[ConnectionKey(id, CONNECTION)];
      c.ConnectionFile? && c.connection.lifecycle.Active?
  }

  /** The bindings of a manifest, one by one. */
  predicate BindingsAre(env: Env, raw: Tree, bindings: seq<KnowledgeBinding>) {
    match Get(raw, "knowledge_bindings")
    case None => bindings == []
    case Some(Sequence(items)) =>
      && |items| == |bindings| <= 5
      && (forall i | 0 <= i < |items| :: env.binding(items[i]) == Some(bindings[i]))
      && (forall i, j | 0 <= i < j < |bindings| :: bindings[i].bindingId != bindings[j].bindingId)
    case Some(Scalar(text)) => text == "" && bindings == []
    case Some(Mapping(entries)) => entries == [] && bindings == []
    case Some(_) => false
  }

  predicate Absent(raw: Tree, key: string) {
    Get(raw, key).None? || !Truthy(Get(raw, key).value)
  }

  /** The manifest is a mapping without embedded knowledge and with exactly these
      external bindings. */
  predicate KnowledgeUsable(env: Env, agentYaml: string, bindings: seq<KnowledgeBinding>) {
    && env.load(agentYaml).Some? && env.load(agentYaml).value.Mapping?
    && var raw := env.load(agentYaml).value;
    && Absent(raw, "package_knowledge_sources") && Absent(raw, "knowledge") && Absent(raw, "knowledge_sources")
    && BindingsAre(env, raw, bindings)
  }

  /** The stripped snapshot digest of a tool contract, "" when there is none. */
  predicate HasDigest(tool: Tree, digest: string) {
    match Get(tool, "mcp_contract_snapshot")
    case None => digest == ""
    case Some(snapshot) =>
      match Get(snapshot, "digest")
      case Some(Scalar(text)) => digest == Strip(text)
      case _ => digest == ""
  }

  predicate HasName(tool: Tree, name: string) {
    match Get(tool, "name")
    case Some(Scalar(text)) => name == text
    case _ => name == ""
  }

  /** A readable validation of the source's present revision holds the digest, and
      all its validations can be read. */
  predicate Validates(r: Records, sourceId: string, revision: int, tool: Tree) {
    && (forall k | k in r :: k.ToolSourceValidationKey? && k.sourceId == sourceId ==> r[k].ValidationFile?)
    && exists k | k in r ::
         && k.ToolSourceValidationKey? && k.sourceId == sourceId && r[k].ValidationFile?
         && r[k].validation.configRevision == revision
         && exists digest | digest in r[k].validation.snapshotDigests :: HasDigest(tool, digest)
  }

  /** An MCP tool that may be published: bound to an active source that has
      imported it and has a validation of its present revision for it. */
  predicate ToolUsable(env: Env, r: Records, tool: Tree) {
    && env.governed(tool)
    && Get(tool, "tool_source_id").Some? && Get(tool, "tool_source_id").value.Scalar?
    && var id := Strip(Get(tool, "tool_source_id").value.text);
    && id != "" && IsPlainName(id) && ToolSourceKey(id) in r && r[ToolSourceKey(id)].ToolSourceFile?
    && var source := r[ToolSourceKey(id)].source;
    && source.config.provider == "mcp" && source.lifecycle.Active? && env.sourceAllowed(source)
    && (exists name | name in source.config.toolContractIds :: HasName(tool, name))
    && Validates(r, id, source.configRevision, tool)
  }

  predicate ToolsUsable(env: Env, r: Records, toolsYaml: string) {
    && env.load(toolsYaml).Some?
    && var raw := env.load(toolsYaml).value;
    match Get(raw, "tools")
    case Some(Sequence(items)) =>
      forall i | 0 <= i < |items| && Get(items[i], "source") == Some(Scalar("mcp")) :: ToolUsable(env, r, items[i])
    case _ => true
  }

  lemma ConnectionsUsableExactly(env: Env, r: Records, agentYaml: string)
    ensures ConnectionsActive(env, r, agentYaml) <==> ConnectionsUsable(env, r, agentYaml)
  {
    forall id ensures id in ManifestConnectionIds(env.load, agentYaml) <==> ManifestDeclares(env, agentYaml, id) {
      SharedConnectionIdsAreTheDeclaredIds(env.load, Scalar(agentYaml), id);
    }
    forall id ensures ConnectionActive(r, id) <==>
      IsPlainName(id) && ConnectionKey(id, CONNECTION) in r && r[ConnectionKey(id, CONNECTION)].ConnectionFile?
      && r[ConnectionKey(id, CONNECTION)].connection.lifecycle.Active?
    {
    }
  }

  lemma KnowledgeUsableExactly(env: Env, agentYaml: string, bindings: seq<KnowledgeBinding>)
    ensures KnowledgeMatches(env, agentYaml, bindings) <==> KnowledgeUsable(env, agentYaml, bindings)
  {
    EmbedsExactly(env.load, agentYaml);
    UniqueMeansDistinct(BindingIds(bindings));
    var ids := BindingIds(bindings);
    assert Distinct(ids) <==> forall i, j | 0 <= i < j < |bindings| :: bindings[i].bindingId != bindings[j].bindingId by {
      if Distinct(ids) {
        assert forall i, j | 0 <= i < j < |bindings| :: ids[i] != ids[j];
      }
    }
    if env.load(agentYaml).Some? && env.load(agentYaml).value.Mapping? {
      BindingsExactly(env, env.load(agentYaml).value, agentYaml, bindings);
    }
  }

  lemma EmbedsExactly(load: Loader, agentYaml: string)
    ensures load(agentYaml).Some? && load(agentYaml).value.Mapping? ==>
              var raw := load(agentYaml).value;
              (EmbedsKnowledge(load, agentYaml) <==>
               !(Absent(raw, "package_knowledge_sources") && Absent(raw, "knowledge") && Absent(raw, "knowledge_sources")))
    ensures !(load(agentYaml).Some? && load(agentYaml).value.Mapping?) ==>
              EmbedsKnowledge(load, agentYaml) || BindingItems(load, agentYaml).None?
  {
  }

  lemma BindingsExactly(env: Env, raw: Tree, agentYaml: string, bindings: seq<KnowledgeBinding>)
    requires env.load(agentYaml) == Some(raw) && raw.Mapping?
    ensures BindingsAre(env, raw, bindings) <==>
              var items := BindingItems(env.load, agentYaml);
              && items.Some?
              && var expected := ParseBindings(env.binding, items.value);
              && expected.Some? && |expected.value| <= 5 && expected.value == bindings
              && forall i, j | 0 <= i < j < |bindings| :: bindings[i].bindingId != bindings[j].bindingId
  {
  }

  lemma ToolUsableExactly(env: Env, r: Records, tool: Tree)
    requires Sound(r)
    ensures ToolPublishable(env, r, tool) <==> ToolUsable(env, r, tool)
  {
  }

  lemma ToolsUsableExactly(env: Env, r: Records, toolsYaml: string)
    requires Sound(r)
    ensures ToolsPublishable(env, r, toolsYaml) <==> ToolsUsable(env, r, toolsYaml)
  {
    forall tool ensures ToolPublishable(env, r, tool) <==> ToolUsable(env, r, tool) {
      ToolUsableExactly(env, r, tool);
    }
  }

  /** What _publish_version_unlocked asks for, check by check. */
  ghost predicate Publishable(env: Env, r: Records, q: PublishRequest) {
    var k := DraftKey(q.agentId, q.draftId);
    && k in r && r[k].DraftFile?
    && var bundle := r[k].draft.bundle;
    && ConnectionsUsable(env, r, bundle.agentYaml)
    && env.stagesAvailable(bundle.agentYaml)
    && KnowledgeUsable(env, bundle.agentYaml, q.bindings)
    && ToolsUsable(env, r, bundle.toolsYaml)
    && !IsBlank(q.validationRunId)
  }

  lemma PlanExactly(env: Env, r: Records, q: PublishRequest)
    requires Sound(r)
    ensures PublishPlan(env, r, q).Ok? <==> Publishable(env, r, q)
  {
    var k: StoreKey := DraftKey(q.agentId, q.draftId);
    StripEmpty(q.validationRunId);
    if k in r && r[k].DraftFile? {
      var bundle := r[k].draft.bundle;
      ConnectionsUsableExactly(env, r, bundle.agentYaml);
      KnowledgeUsableExactly(env, bundle.agentYaml, q.bindings);
      ToolsUsableExactly(env, r, bundle.toolsYaml);
    }
  }

  /** publish_version is accepted exactly for publishable drafts of a store that is
      open to the agent; AcceptedPublication says what it leaves. */
  lemma PublishVersionExactly(env: Env, r: Records, q: PublishRequest, os: seq<Outcome>)
    requires Sound(r) && AllDone(os)
    ensures Step(env, r, PublishVersion(q), os).reply.Accepted? <==> OpenTo(r, q.agentId) && Publishable(env, r, q)
  {
    PlanExactly(env, r, q);
    if PublishPlan(env, r, q).Ok? {
      DoneExecutes(r, PublishPlan(env, r, q).value, os);
    }
  }

  /** The seed is accepted exactly in a store without pointers and reservation, for
      a publishable draft; otherwise it declines or leaves the reservation. */
  lemma SeedExactly(env: Env, r: Records, q: SeedRequest, os: seq<Outcome>)
    requires Sound(r) && AllDone(os)
    ensures var empty := SeedAuthorityKey !in r && forall a :: ActivePointerKey(a) !in r;
            var step := Step(env, r, SeedVersion(q), os);
            && (step.reply.Accepted? <==> empty && Publishable(env, r, q))
            && (!empty ==> step.reply == Declined && step.records == r)
            && (empty && !Publishable(env, r, q) ==> step.records == r[SeedAuthorityKey := AuthorityFile(q.agentId, None)])
  {
    NoActiveAgents(r);
    var reserve := AuthorityWrite(q.agentId, None);
    ExecuteOne(r, reserve, os);
    DoneExecutes(r, [reserve], os);
    var x := Execute(r, [reserve], os);
    if ActiveAgents(r) == {} && SeedAuthorityKey !in r {
      OneWriteFits(env, r, reserve);
      ExecuteKeepsSound(env, r, [reserve], os);
      PlanExactly(env, x.records, q);
      ReservationIsNoMatter(env, r, q);
      if PublishPlan(env, x.records, q).Ok? {
        DoneExecutes(x.records, PublishPlan(env, x.records, q).value + [AuthorityWrite(q.agentId, Some(q.versionId))], x.rest);
      }
    }
  }

  lemma NoActiveAgents(r: Records)
    ensures ActiveAgents(r) == {} <==> forall a :: ActivePointerKey(a) !in r
  {
    if ActiveAgents(r) == {} {
      forall a ensures ActivePointerKey(a) !in r {
        assert a !in ActiveAgents(r);
      }
    }
  }

  lemma ReservationIsNoMatter(env: Env, r: Records, q: PublishRequest)
    ensures Publishable(env, r[SeedAuthorityKey := AuthorityFile(q.agentId, None)], q) <==> Publishable(env, r, q)
  {
    var s: Records := r[SeedAuthorityKey := AuthorityFile(q.agentId, None)];
    var k: StoreKey := DraftKey(q.agentId, q.draftId);
    assert Same(r, s, k);
    if k in r && r[k].DraftFile? {
      ConnectionsKeepUse(env, r, s, r[k].draft.bundle.agentYaml);
      ToolsKeepUse(env, r, s, r[k].draft.bundle.toolsYaml);
    }
  }

  lemma ConnectionsKeepUse(env: Env, r: Records, s: Records, agentYaml: string)
    requires forall k: StoreKey | !k.SeedAuthorityKey? :: Same(r, s, k)
    ensures ConnectionsUsable(env, s, agentYaml) <==> ConnectionsUsable(env, r, agentYaml)
  {
    forall id ensures Same(r, s, ConnectionKey(id, CONNECTION)) {
    }
  }

  lemma ToolsKeepUse(env: Env, r: Records, s: Records, toolsYaml: string)
    requires forall k: StoreKey | !k.SeedAuthorityKey? :: Same(r, s, k)
    ensures ToolsUsable(env, s, toolsYaml) <==> ToolsUsable(env, r, toolsYaml)
  {
    forall tool ensures ToolUsable(env, s, tool) <==> ToolUsable(env, r, tool) {
      ToolKeepsUse(env, r, s, tool);
    }
  }

  lemma ToolKeepsUse(env: Env, r: Records, s: Records, tool: Tree)
    requires forall k: StoreKey | !k.SeedAuthorityKey? :: Same(r, s, k)
    ensures ToolUsable(env, s, tool) <==> ToolUsable(env, r, tool)
  {
    forall id, n ensures Validates(r, id, n, tool) <==> Validates(s, id, n, tool) {
      ValidatesSame(r, s, id, n, tool);
    }
    if Get(tool, "tool_source_id").Some? && Get(tool, "tool_source_id").value.Scalar? {
      var k: StoreKey := ToolSourceKey(Strip(Get(tool, "tool_source_id").value.text));
      assert Same(r, s, k);
    }
  }

  lemma ValidatesSame(r: Records, s: Records, id: string, n: int, tool: Tree)
    requires forall k: StoreKey | !k.SeedAuthorityKey? :: Same(r, s, k)
    ensures Validates(r, id, n, tool) <==> Validates(s, id, n, tool)
  {
    forall k: StoreKey | k.ToolSourceValidationKey? ensures Same(r, s, k) {
    }
  }

  // ----- publish_version_record -----

  /** The pointer a prepared publication expects is the one in place. */
  predicate PointerIs(r: Records, a: string, expected: Option<string>) {
    var k := ActivePointerKey(a);
    match expected
    case None => k !in r
    case Some(versionId) => k in r && r[k].PointerFile? && r[k].active.versionId == versionId
  }

  /** publish_version_record is accepted exactly when the pointer is the expected
      one, if any is expected, the source draft is there at exactly the expected
      revision, which is the record's, its bundle is the version's, and nothing is
      stored under the version; PublishRecordIsAtomic says what it leaves. */
  lemma PublishRecordExactly(env: Env, r: Records, p: PublicationRecord, n: int, os: seq<Outcome>)
    requires Sound(r) && AllDone(os)
    ensures var v := p.version;
            var k := DraftKey(v.agentId, v.sourceDraftId);
            Step(env, r, PublishRecord(p, n), os).reply.Accepted? <==>
            && (p.pointerExpectation.Some? ==> PointerIs(r, v.agentId, p.pointerExpectation.value))
            && k in r && HasRevision(r, v.agentId, v.sourceDraftId, n) && p.draftRevision == n
            && v.bundle == r[k].draft.bundle
            && forall x | x in r :: !(x.VersionKey? && x.agentId == v.agentId && x.versionId == v.versionId)
  {
    var v := p.version;
    var k: StoreKey := DraftKey(v.agentId, v.sourceDraftId);
    RevisionMeans(r, v.agentId, v.sourceDraftId);
    assert k in r ==> KeyMatches(k, r[k]);
    if PublishRecordPlan(r, p, n).Ok? {
      DoneExecutes(r, PublishRecordPlan(r, p, n).value, os);
    }
  }

  // ----- activation and the reservation -----

  /** activate_version_record is accepted exactly in a store open to the agent, for
      a version that can be read, on the pointer it names; it writes that pointer
      and nothing else. */
  lemma ActivateVersionExactly(env: Env, r: Records, a: ActivationRecord, os: seq<Outcome>)
    requires AllDone(os)
    ensures var active := a.activation;
            var k := VersionKey(active.agentId, active.versionId, PUBLICATION);
            var step := Step(env, r, ActivateVersion(a), os);
            && (step.reply.Accepted? <==>
                  && OpenTo(r, active.agentId)
                  && k in r && PublicationIn(env.parse, r[k]).Some?
                  && PointerIs(r, active.agentId, active.rollbackFromVersionId))
            && step.records == if step.reply.Accepted? then r[ActivePointerKey(active.agentId) := PointerFile(active)] else r
  {
    DoneExecutes(r, [PointerWrite(a.activation)], os);
    ExecuteOne(r, PointerWrite(a.activation), os);
  }

  /** ensure_canonical_seed_authority: in a store with this one active agent at the
      expected version, an existing reservation decides, and without one the agent
      is reserved with that version; otherwise it declines. */
  lemma EnsureAuthorityExactly(env: Env, r: Records, a: string, versionId: string, os: seq<Outcome>)
    requires Sound(r) && AllDone(os)
    ensures var sole := (forall b :: ActivePointerKey(b) in r <==> b == a) && PointerIs(r, a, Some(versionId));
            var step := Step(env, r, EnsureAuthority(a, versionId), os);
            && (step.reply.Accepted? <==> sole && OpenTo(r, a))
            && step.records == if sole && SeedAuthorityKey !in r
                               then r[SeedAuthorityKey := AuthorityFile(a, Some(versionId))] else r
  {
    assert SeedAuthorityKey in r ==> KeyMatches(SeedAuthorityKey, r[SeedAuthorityKey]);
    SoleAgent(r, a);
    var w := AuthorityWrite(a, Some(versionId));
    DoneExecutes(r, [w], os);
    ExecuteOne(r, w, os);
  }

  lemma SoleAgent(r: Records, a: string)
    ensures ActiveAgents(r) == {a} <==> forall b :: ActivePointerKey(b) in r <==> b == a
  {
    forall b ensures b in ActiveAgents(r) <==> ActivePointerKey(b) in r {
    }
  }

  // ----- model connections -----

  lemma DoneTwoWrites(r: Records, first: Write, audit: OperationAudit, os: seq<Outcome>)
    requires first.Put? && !first.key.ConfigurationAuditKey?
    ensures var x := Execute(r, [first, AuditWrite(audit)], os);
            && (AllDone(os) ==> x.ok)
            && (x.ok ==> x.records == Audited(r[first.key := first.content], audit))
  {
    if AllDone(os) {
      DoneExecutes(r, [first, AuditWrite(audit)], os);
    }
    if Execute(r, [first, AuditWrite(audit)], os).ok {
      TwoWrites(r, first, audit, os);
    }
  }

  /** The store with one more audit entry. */
  function Audited(r: Records, audit: OperationAudit): Records {
    r[ConfigurationAuditKey(audit.operationId) := AuditFile(audit)]
  }

  /** The connection is stored under the id, which is a plain name. */
  predicate HoldsConnection(r: Records, id: string, c: ModelConnection) {
    IsPlainName(id) && ConnectionKey(id, CONNECTION) in r && r[ConnectionKey(id, CONNECTION)] == ConnectionFile(c)
  }

  lemma ConnectionMeans(r: Records, id: string)
    requires Sound(r)
    ensures ReadConnection(r, id).Malformed? <==> !IsPlainName(id)
    ensures ReadConnection(r, id).Missing? <==> IsPlainName(id) && ConnectionKey(id, CONNECTION) !in r
    ensures ReadConnection(r, id).Found? ==>
              HoldsConnection(r, id, ReadConnection(r, id).value) && ReadConnection(r, id).value.connectionId == id
  {
    var k: StoreKey := ConnectionKey(id, CONNECTION);
    assert k in r ==> KeyMatches(k, r[k]);
  }

  /** create_model_connection is accepted exactly under a plain name that is free. */
  lemma CreateConnectionExactly(
    env: Env, r: Records, id: string, settings: ConnectionSettings, now: string, audit: OperationAudit, os: seq<Outcome>)
    requires Sound(r)
    ensures var k: StoreKey := ConnectionKey(id, CONNECTION);
            var step := Step(env, r, CreateConnection(id, settings, now, audit), os);
            && (AllDone(os) ==> (step.reply.Accepted? <==> IsPlainName(id) && k !in r))
            && (step.reply.Accepted? ==>
                  step.records == Audited(r[k := ConnectionFile(ModelConnection(id, settings, Active, now))], audit))
  {
    ConnectionMeans(r, id);
    DoneTwoWrites(r, ConnectionWrites(ModelConnection(id, settings, Active, now), audit)[0], audit, os);
  }

  /** update_model_connection is accepted exactly for connections that exist, and
      writes the connection as ConnectionUpdateKeepsRest says. */
  lemma UpdateConnectionExactly(
    env: Env, r: Records, id: string, changes: ConnectionChanges, now: string, audit: OperationAudit, os: seq<Outcome>)
    requires Sound(r)
    ensures var k: StoreKey := ConnectionKey(id, CONNECTION);
            var step := Step(env, r, UpdateConnection(id, changes, now, audit), os);
            && (AllDone(os) ==> (step.reply.Accepted? <==> IsPlainName(id) && k in r))
            && (step.reply.Accepted? ==> k in step.records && step.records == Audited(r[k := step.records[k]], audit))
  {
    ConnectionMeans(r, id);
    if ReadConnection(r, id).Found? {
      var c := ReadConnection(r, id).value;
      DoneTwoWrites(
        r, ConnectionWrites(c.(settings := ChangedSettings(c.settings, changes), updatedAt := now), audit)[0], audit, os);
    }
  }

  /** archive_model_connection is accepted exactly with a reason, for an active
      connection, which is then archived. */
  lemma ArchiveConnectionExactly(
    env: Env, r: Records, id: string, c: ModelConnection, reason: string, now: string, audit: OperationAudit,
    os: seq<Outcome>)
    requires Sound(r) && HoldsConnection(r, id, c)
    ensures var step := Step(env, r, ArchiveConnection(id, reason, now, audit), os);
            && (AllDone(os) ==> (step.reply.Accepted? <==> !IsBlank(reason) && c.lifecycle == Active))
            && (step.reply.Accepted? ==>
                  step.records == Audited(r[ConnectionKey(id, CONNECTION) :=
                    ConnectionFile(ModelConnection(id, c.settings, Archived, now))], audit))
  {
    StripEmpty(reason);
    ConnectionMeans(r, id);
    DoneTwoWrites(r, ConnectionWrites(c.(lifecycle := Archived, updatedAt := now), audit)[0], audit, os);
  }

  /** restore_model_connection is accepted exactly for an archived connection, which
      is then active. */
  lemma RestoreConnectionExactly(
    env: Env, r: Records, id: string, c: ModelConnection, now: string, audit: OperationAudit, os: seq<Outcome>)
    requires Sound(r) && HoldsConnection(r, id, c)
    ensures var step := Step(env, r, RestoreConnection(id, now, audit), os);
            && (AllDone(os) ==> (step.reply.Accepted? <==> c.lifecycle == Archived))
            && (step.reply.Accepted? ==>
                  step.records == Audited(r[ConnectionKey(id, CONNECTION) :=
                    ConnectionFile(ModelConnection(id, c.settings, Active, now))], audit))
  {
    ConnectionMeans(r, id);
    DoneTwoWrites(r, ConnectionWrites(c.(lifecycle := Active, updatedAt := now), audit)[0], audit, os);
  }

  /** No operation on a connection that is not there is accepted but its creation. */
  lemma NoConnectionNoChange(
    env: Env, r: Records, id: string, reason: string, now: string, audit: OperationAudit, os: seq<Outcome>)
    requires Sound(r) && !(IsPlainName(id) && ConnectionKey(id, CONNECTION) in r)
    ensures Step(env, r, ArchiveConnection(id, reason, now, audit), os).reply.Rejected?
    ensures Step(env, r, RestoreConnection(id, now, audit), os).reply.Rejected?
    ensures Step(env, r, DeleteConnection(id, reason, audit), os).reply.Rejected?
  {
    ConnectionMeans(r, id);
  }

  /** physically_delete_model_connection is accepted exactly when DeletionGuardIsExact
      lets it, and then the audit entry is there and every file below the
      connection directory is gone. */
  lemma DeleteConnectionExactly(
    env: Env, r: Records, id: string, reason: string, audit: OperationAudit, os: seq<Outcome>)
    ensures var step := Step(env, r, DeleteConnection(id, reason, audit), os);
            && (AllDone(os) ==> (step.reply.Accepted? <==> DeleteConnectionPlan(env, r, id, reason, audit).Ok?))
            && (step.reply.Accepted? ==>
                  forall k: StoreKey :: if k.ConnectionKey? && k.connectionId == id then k !in step.records
                              else Same(step.records, Audited(r, audit), k))
  {
    var ws := [AuditWrite(audit), DropConnection(id)];
    assert ws[1..] == [ws[1]];
    if AllDone(os) {
      DoneExecutes(r, ws, os);
    }
    ExecuteOne(Apply(r, ws[0], HeadOutcome(os)), ws[1], TailOutcomes(os));
  }

  /** Whatever its writes do, no file of a connection goes without an audit entry. */
  lemma DeletionIsAudited(
    env: Env, r: Records, id: string, reason: string, audit: OperationAudit, os: seq<Outcome>, k: StoreKey)
    requires k.ConnectionKey?
    ensures var after := Step(env, r, DeleteConnection(id, reason, audit), os).records;
            var entry: StoreKey := ConfigurationAuditKey(audit.operationId);
            Same(r, after, k) || (entry in after && after[entry] == AuditFile(audit))
  {
    var first, second := AuditWrite(audit), DropConnection(id);
    assert [first, second][1..] == [second];
    ExecuteOne(Apply(r, first, HeadOutcome(os)), second, TailOutcomes(os));
  }

  // ----- tool sources -----

  predicate HoldsSource(r: Records, id: string, s: ToolSource) {
    IsPlainName(id) && ToolSourceKey(id) in r && r[ToolSourceKey(id)] == ToolSourceFile(s)
  }

  lemma SourceMeans(r: Records, id: string)
    requires Sound(r)
    ensures ReadToolSource(r, id).Malformed? <==> !IsPlainName(id)
    ensures ReadToolSource(r, id).Missing? <==> IsPlainName(id) && ToolSourceKey(id) !in r
    ensures ReadToolSource(r, id).Found? ==>
              HoldsSource(r, id, ReadToolSource(r, id).value) && ReadToolSource(r, id).value.sourceId == id
  {
    var k: StoreKey := ToolSourceKey(id);
    assert k in r ==> KeyMatches(k, r[k]);
  }

  /** create_tool_source is accepted exactly with a valid configuration under a
      plain name that is free, and starts at revision one. */
  lemma CreateToolSourceExactly(
    env: Env, r: Records, id: string, config: ToolSourceConfig, configOk: bool, now: string, audit: OperationAudit,
    os: seq<Outcome>)
    requires Sound(r)
    ensures var k: StoreKey := ToolSourceKey(id);
            var step := Step(env, r, CreateToolSource(id, config, configOk, now, audit), os);
            && (AllDone(os) ==> (step.reply.Accepted? <==> configOk && IsPlainName(id) && k !in r))
            && (step.reply.Accepted? ==>
                  step.records == Audited(r[k := ToolSourceFile(ToolSource(id, config, Active, 1, now))], audit))
  {
    SourceMeans(r, id);
    DoneTwoWrites(r, ToolSourceWrites(ToolSource(id, config, Active, 1, now), audit)[0], audit, os);
  }

  /** The source after an update: the next revision, each field that is given, and
      the rest as it was. */
  predicate SourceUpdated(was: ToolSource, next: ToolSource, changes: ToolSourceChanges, now: string) {
    && next.sourceId == was.sourceId && next.lifecycle == was.lifecycle
    && next.configRevision == was.configRevision + 1 && next.updatedAt == now
    && TakesChange(changes.name, was.config.name, next.config.name)
    && TakesChange(changes.sourceType, was.config.sourceType, next.config.sourceType)
    && TakesChange(changes.provider, was.config.provider, next.config.provider)
    && TakesChange(changes.toolContractIds, was.config.toolContractIds, next.config.toolContractIds)
    && TakesOptional(changes.credentialEnvRef, was.config.credentialEnvRef, next.config.credentialEnvRef)
    && TakesChange(changes.params, was.config.params, next.config.params)
  }

  /** update_tool_source is accepted exactly for sources that exist and a valid
      configuration. */
  lemma UpdateToolSourceExactly(
    env: Env, r: Records, id: string, changes: ToolSourceChanges, configOk: bool, now: string, audit: OperationAudit,
    os: seq<Outcome>)
    requires Sound(r)
    ensures var k: StoreKey := ToolSourceKey(id);
            var step := Step(env, r, UpdateToolSource(id, changes, configOk, now, audit), os);
            && (AllDone(os) ==> (step.reply.Accepted? <==> configOk && IsPlainName(id) && k in r))
            && (step.reply.Accepted? ==>
                  && k in r && r[k].ToolSourceFile? && k in step.records && step.records[k].ToolSourceFile?
                  && SourceUpdated(r[k].source, step.records[k].source, changes, now)
                  && step.records == Audited(r[k := step.records[k]], audit))
  {
    SourceMeans(r, id);
    if ReadToolSource(r, id).Found? {
      DoneTwoWrites(
        r, ToolSourceWrites(RevisedToolSource(ReadToolSource(r, id).value, changes, now), audit)[0], audit, os);
    }
  }

  /** archive_tool_source is accepted exactly with a reason, for an active source,
      which is then archived at the same revision. */
  lemma ArchiveToolSourceExactly(
    env: Env, r: Records, id: string, s: ToolSource, reason: string, now: string, audit: OperationAudit, os: seq<Outcome>)
    requires Sound(r) && HoldsSource(r, id, s)
    ensures var step := Step(env, r, ArchiveToolSource(id, reason, now, audit), os);
            && (AllDone(os) ==> (step.reply.Accepted? <==> !IsBlank(reason) && s.lifecycle == Active))
            && (step.reply.Accepted? ==>
                  step.records == Audited(r[ToolSourceKey(id) :=
                    ToolSourceFile(ToolSource(id, s.config, Archived, s.configRevision, now))], audit))
  {
    StripEmpty(reason);
    SourceMeans(r, id);
    DoneTwoWrites(r, ToolSourceWrites(s.(lifecycle := Archived, updatedAt := now), audit)[0], audit, os);
  }

  /** restore_tool_source is accepted exactly for an archived source, which is then
      active at the same revision. */
  lemma RestoreToolSourceExactly(
    env: Env, r: Records, id: string, s: ToolSource, now: string, audit: OperationAudit, os: seq<Outcome>)
    requires Sound(r) && HoldsSource(r, id, s)
    ensures var step := Step(env, r, RestoreToolSource(id, now, audit), os);
            && (AllDone(os) ==> (step.reply.Accepted? <==> s.lifecycle == Archived))
            && (step.reply.Accepted? ==>
                  step.records == Audited(r[ToolSourceKey(id) :=
                    ToolSourceFile(ToolSource(id, s.config, Active, s.configRevision, now))], audit))
  {
    SourceMeans(r, id);
    DoneTwoWrites(r, ToolSourceWrites(s.(lifecycle := Active, updatedAt := now), audit)[0], audit, os);
  }

  lemma NoSourceNoChange(
    env: Env, r: Records, id: string, reason: string, now: string, audit: OperationAudit, os: seq<Outcome>)
    requires Sound(r) && !(IsPlainName(id) && ToolSourceKey(id) in r)
    ensures Step(env, r, ArchiveToolSource(id, reason, now, audit), os).reply.Rejected?
    ensures Step(env, r, RestoreToolSource(id, now, audit), os).reply.Rejected?
  {
    SourceMeans(r, id);
  }

  /** record_configuration_operation writes the entry under its own id. */
  lemma RecordAuditExactly(env: Env, r: Records, audit: OperationAudit, os: seq<Outcome>)
    ensures var step := Step(env, r, RecordAudit(audit), os);
            && (AllDone(os) ==> step.reply.Accepted?)
            && (step.reply.Accepted? ==> step.records == Audited(r, audit))
  {
    ExecuteOne(r, AuditWrite(audit), os);
  }

  // ----- the end of a remote validation -----

  /** A contract of the source: from MCP, and bound to the id as it is written. */
  predicate BoundTo(tool: Tree, sourceId: string) {
    Get(tool, "source") == Some(Scalar("mcp")) && Get(tool, "tool_source_id") == Some(Scalar(sourceId))
  }

  /** The positions of the contracts bound to the source, in order. */
  ghost predicate BoundAt(contracts: seq<Tree>, sourceId: string, at: seq<nat>) {
    && (forall i | 0 <= i < |at| :: at[i] < |contracts|)
    && (forall i, j | 0 <= i < j < |at| :: at[i] < at[j])
    && forall p: nat | p < |contracts| :: p in at <==> BoundTo(contracts[p], sourceId)
  }

  /** Name by name and digest by digest, in order, what the contracts bound to the
      source carry. */
  ghost predicate RecordsContracts(v: ToolSourceValidation, contracts: seq<Tree>, sourceId: string) {
    exists at: seq<nat> ::
      && BoundAt(contracts, sourceId, at)
      && |v.toolContractIds| == |v.snapshotDigests| == |at|
      && (forall i | 0 <= i < |at| :: HasName(contracts[at[i]], v.toolContractIds[i]))
      && (forall i | 0 <= i < |at| :: HasDigest(contracts[at[i]], v.snapshotDigests[i]))
  }

  function BoundFrom(contracts: seq<Tree>, sourceId: string, from: nat): (at: seq<nat>)
    requires from <= |contracts|
    ensures forall p: nat :: p in at <==> from <= p < |contracts| && BoundTo(contracts[p], sourceId)
    ensures forall i, j | 0 <= i < j < |at| :: at[i] < at[j]
    decreases |contracts| - from
  {
    if from == |contracts| then []
    else
      var later := BoundFrom(contracts, sourceId, from + 1);
      assert forall i | 0 <= i < |later| :: later[i] in later;
      if BoundTo(contracts[from], sourceId) then [from] + later else later
  }

  lemma {:induction false} RelevantFrom(contracts: seq<Tree>, sourceId: string, from: nat)
    requires from <= |contracts|
    ensures var at, relevant := BoundFrom(contracts, sourceId, from), RelevantContracts(contracts[from..], sourceId);
            |at| == |relevant| && forall i | 0 <= i < |at| :: at[i] in at && contracts[at[i]] == relevant[i]
    decreases |contracts| - from
  {
    if from < |contracts| {
      RelevantFrom(contracts, sourceId, from + 1);
      assert contracts[from..][1..] == contracts[from + 1..];
    }
  }

  lemma RelevantPositions(contracts: seq<Tree>, sourceId: string) returns (at: seq<nat>)
    ensures BoundAt(contracts, sourceId, at)
    ensures |at| == |RelevantContracts(contracts, sourceId)|
    ensures forall i | 0 <= i < |at| :: contracts[at[i]] == RelevantContracts(contracts, sourceId)[i]
  {
    at := BoundFrom(contracts, sourceId, 0);
    RelevantFrom(contracts, sourceId, 0);
    assert contracts[0..] == contracts;
    assert forall i | 0 <= i < |at| :: at[i] in at;
  }

  /** A remote validation that passed ends by storing one record, if its write lands,
      exactly when the source is there at the revision that was captured. The
      record is about that source and that revision, and holds the names and
      digests of exactly the contracts bound to the source. */
  lemma FinishValidationExactly(env: Env, m: Machine, e: Event)
    requires Sound(m.records) && e.EndValidation? && e.ticket in m.pending
    ensures var captured := m.pending[e.ticket];
            var k: StoreKey := ToolSourceValidationKey(captured.sourceId, e.validationId);
            var source: StoreKey := ToolSourceKey(captured.sourceId);
            var after := Next(env, m, e).records;
            if e.passed && IsPlainName(captured.sourceId) && source in m.records
               && m.records[source].source.configRevision == captured.configRevision && Landed(e.outcomes)
            then
              && k in after && after[k].ValidationFile? && after == m.records[k := after[k]]
              && var v := after[k].validation;
              && v.validationId == e.validationId && v.sourceId == captured.sourceId
              && v.configRevision == captured.configRevision
              && RecordsContracts(v, e.contracts, captured.sourceId)
            else after == m.records
  {
    var captured := m.pending[e.ticket];
    SourceMeans(m.records, captured.sourceId);
    EndStoresOneRecord(env, m, e);
    if EndPlan(m, e).Ok? {
      NewValidationHolds(ReadToolSource(m.records, captured.sourceId).value, e.contracts, e.validationId);
    }
  }

  lemma NewValidationHolds(current: ToolSource, contracts: seq<Tree>, validationId: string)
    ensures RecordsContracts(ValidationOf(current, contracts, validationId), contracts, current.sourceId)
  {
    var at := RelevantPositions(contracts, current.sourceId);
    var v := ValidationOf(current, contracts, validationId);
    forall i | 0 <= i < |at|
      ensures HasName(contracts[at[i]], v.toolContractIds[i]) && HasDigest(contracts[at[i]], v.snapshotDigests[i])
    {
      assert v.toolContractIds[i] == TextField(contracts[at[i]], "name");
      assert v.snapshotDigests[i] == SnapshotDigest(contracts[at[i]]);
    }
  }

  /** A tool validated in this way is covered: for the unchanged source it can be
      published exactly when the rest of the guard lets it. */
  lemma ValidatedToolIsCovered(env: Env, m: Machine, e: Event, tool: Tree)
    requires Sound(m.records) && e.EndValidation? && e.ticket in m.pending && Landed(e.outcomes) && e.passed
    requires var captured := m.pending[e.ticket];
             && HoldsSource(m.records, captured.sourceId, captured)
             && tool in e.contracts && BoundTo(tool, captured.sourceId)
    ensures var source := m.pending[e.ticket];
            ToolPublishable(env, Next(env, m, e).records, tool) <==>
            && env.governed(tool) && source.config.provider == "mcp" && source.lifecycle == Active
            && env.sourceAllowed(source)
            && exists name | name in source.config.toolContractIds :: HasName(tool, name)
  {
    var source := m.pending[e.ticket];
    FreshValidation(env, m, e);
    CoveredToolExactly(env, Next(env, m, e).records, source, e.validationId, e.contracts, tool);
  }

  /** The record that the end of a validation leaves for an unchanged source. */
  ghost predicate FreshlyValidated(r: Records, source: ToolSource, validationId: string, contracts: seq<Tree>) {
    var k: StoreKey := ToolSourceValidationKey(source.sourceId, validationId);
    && Sound(r) && HoldsSource(r, source.sourceId, source)
    && k in r && r[k].ValidationFile?
    && r[k].validation.configRevision == source.configRevision
    && RecordsContracts(r[k].validation, contracts, source.sourceId)
  }

  lemma FreshValidation(env: Env, m: Machine, e: Event)
    requires Sound(m.records) && e.EndValidation? && e.ticket in m.pending && Landed(e.outcomes) && e.passed
    requires HoldsSource(m.records, m.pending[e.ticket].sourceId, m.pending[e.ticket])
    ensures FreshlyValidated(Next(env, m, e).records, m.pending[e.ticket], e.validationId, e.contracts)
  {
    FinishValidationExactly(env, m, e);
    NextKeepsSound(env, m, e);
  }

  lemma CoveredToolExactly(
    env: Env, r: Records, source: ToolSource, validationId: string, contracts: seq<Tree>, tool: Tree)
    requires FreshlyValidated(r, source, validationId, contracts)
    requires tool in contracts && BoundTo(tool, source.sourceId)
    ensures ToolPublishable(env, r, tool) <==>
            && env.governed(tool) && source.config.provider == "mcp" && source.lifecycle == Active
            && env.sourceAllowed(source)
            && exists name | name in source.config.toolContractIds :: HasName(tool, name)
  {
    var k: StoreKey := ToolSourceValidationKey(source.sourceId, validationId);
    DigestRecorded(r[k].validation, contracts, source.sourceId, tool);
    AllValidationsReadable(r);
    StripFixpoint(source.sourceId);
    assert Validates(r, source.sourceId, source.configRevision, tool);
    ToolUsableExactly(env, r, tool);
  }

  lemma DigestRecorded(v: ToolSourceValidation, contracts: seq<Tree>, sourceId: string, tool: Tree)
    requires RecordsContracts(v, contracts, sourceId) && tool in contracts && BoundTo(tool, sourceId)
    ensures exists digest | digest in v.snapshotDigests :: HasDigest(tool, digest)
  {
    var at: seq<nat> :| BoundAt(contracts, sourceId, at)
      && |v.snapshotDigests| == |at|
      && forall i | 0 <= i < |at| :: HasDigest(contracts[at[i]], v.snapshotDigests[i]);
    var p: nat :| p < |contracts| && contracts[p] == tool;
    var i: nat :| i < |at| && at[i] == p;
    assert HasDigest(tool, v.snapshotDigests[i]);
  }

  lemma AllValidationsReadable(r: Records)
    requires Sound(r)
    ensures forall k | k in r && k.ToolSourceValidationKey? :: r[k].ValidationFile?
  {
    forall k | k in r && k.ToolSourceValidationKey? ensures r[k].ValidationFile? {
      assert KeyMatches(k, r[k]);
    }
  }
}
