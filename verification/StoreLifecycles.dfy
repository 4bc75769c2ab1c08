/** What one operation of the configuration store does to the result of others:
    archiving and restoring, edits of a tool source, and the files of a version. */
module StoreLifecycles {
  import opened Text
  import opened StorePaths
  import opened StoreRecords
  import opened StoreOperations
  import opened StoreInvariants
  import opened StoreRuns

  /** The two writes of an accepted step that records one audit entry. */
  lemma TwoWrites(r: Records, first: Write, audit: OperationAudit, os: seq<Outcome>)
    requires first.Put? && !first.key.ConfigurationAuditKey?
    requires Execute(r, [first, AuditWrite(audit)], os).ok
    ensures Execute(r, [first, AuditWrite(audit)], os).records ==
            r[first.key := first.content][ConfigurationAuditKey(audit.operationId) := AuditFile(audit)]
  {
    var ws := [first, AuditWrite(audit)];
    ExecuteOk(r, ws, os);
    assert ws[1..] == [ws[1]];
    var mid := Apply(r, first, Done);
    assert ApplyAll(mid, [ws[1]]) == ApplyAll(Apply(mid, ws[1], Done), []);
  }

  // ----- drafts -----

  /** A field takes the change it is given and stays as it was without one. */
  predicate TakesChange<T(==)>(change: Option<T>, was: T, next: T) {
    next == if change.Some? then change.value else was
  }

  /** An update changes what it is given, appends its audit entry and keeps the
      rest of the draft, its history included. */
  lemma DraftUpdateKeepsRest(
    env: Env, r: Records, a: string, d: string, changes: DraftChanges, audit: OperationAudit, os: seq<Outcome>)
    requires Sound(r) && Step(env, r, UpdateDraft(a, d, changes, audit), os).reply.Accepted?
    ensures var after := Step(env, r, UpdateDraft(a, d, changes, audit), os).records;
            && ReadDraft(r, a, d).Found? && ReadDraft(after, a, d).Found?
            && var was, next := ReadDraft(r, a, d).value, ReadDraft(after, a, d).value;
            && next.agentId == a && next.draftId == d
            && TakesChange(changes.displayName, was.displayName, next.displayName)
            && TakesChange(changes.purpose, was.purpose, next.purpose)
            && TakesChange(changes.bundle, was.bundle, next.bundle)
            && next.operationAudit == was.operationAudit + [audit]
            && next.updatedBy == audit.actor
  {
    var key: StoreKey := DraftKey(a, d);
    assert KeyMatches(key, r[key]);
    var ws := Plan(env, r, UpdateDraft(a, d, changes, audit)).value;
    assert ws[1..] == [ws[1]];
    ExecuteOne(Apply(r, ws[0], HeadOutcome(os)), ws[1], TailOutcomes(os));
  }

  // ----- model connections -----

  /** Creating never overwrites: an accepted creation found nothing under the id
      and leaves an active connection, or an active source at revision one. */
  lemma CreationNeverOverwrites(
    env: Env, r: Records, id: string, settings: ConnectionSettings, config: ToolSourceConfig, now: string, audit: OperationAudit,
    os: seq<Outcome>)
    ensures var step := Step(env, r, CreateConnection(id, settings, now, audit), os);
            step.reply.Accepted? ==>
              && IsPlainName(id) && ReadConnection(r, id).Missing?
              && ReadConnection(step.records, id) == Found(ModelConnection(id, settings, Active, now))
    ensures var step := Step(env, r, CreateToolSource(id, config, true, now, audit), os);
            step.reply.Accepted? ==>
              && IsPlainName(id) && ReadToolSource(r, id).Missing?
              && ReadToolSource(step.records, id) == Found(ToolSource(id, config, Active, 1, now))
  {
    if Step(env, r, CreateConnection(id, settings, now, audit), os).reply.Accepted? {
      TwoWrites(r, ConnectionWrites(ModelConnection(id, settings, Active, now), audit)[0], audit, os);
    }
    if Step(env, r, CreateToolSource(id, config, true, now, audit), os).reply.Accepted? {
      TwoWrites(r, ToolSourceWrites(ToolSource(id, config, Active, 1, now), audit)[0], audit, os);
    }
  }

  /** None is the absence of a change, so it cannot clear a field. */
  predicate TakesOptional<T(==)>(change: Option<T>, was: Option<T>, next: Option<T>) {
    next == (if change.Some? then change else was) && (was.Some? ==> next.Some?)
  }

  /** An accepted update sets the fields it is given and keeps the others, the id
      and the lifecycle; an optional field, once set, cannot be cleared. */
  lemma ConnectionUpdateKeepsRest(
    env: Env, r: Records, id: string, changes: ConnectionChanges, now: string, audit: OperationAudit, os: seq<Outcome>)
    requires Sound(r) && Step(env, r, UpdateConnection(id, changes, now, audit), os).reply.Accepted?
    ensures var after := Step(env, r, UpdateConnection(id, changes, now, audit), os).records;
            && ReadConnection(r, id).Found? && ReadConnection(after, id).Found?
            && var was, next := ReadConnection(r, id).value, ReadConnection(after, id).value;
            && next.connectionId == id && next.lifecycle == was.lifecycle && next.updatedAt == now
            && TakesChange(changes.displayName, was.settings.displayName, next.settings.displayName)
            && TakesChange(changes.description, was.settings.description, next.settings.description)
            && TakesChange(changes.tags, was.settings.tags, next.settings.tags)
            && TakesChange(changes.provider, was.settings.provider, next.settings.provider)
            && TakesChange(changes.modelIdentifier, was.settings.modelIdentifier, next.settings.modelIdentifier)
            && TakesChange(changes.credentialRef, was.settings.credentialRef, next.settings.credentialRef)
            && TakesOptional(changes.baseUrl, was.settings.baseUrl, next.settings.baseUrl)
            && TakesOptional(changes.organizationEnv, was.settings.organizationEnv, next.settings.organizationEnv)
            && TakesOptional(changes.projectEnv, was.settings.projectEnv, next.settings.projectEnv)
            && TakesOptional(changes.timeoutSeconds, was.settings.timeoutSeconds, next.settings.timeoutSeconds)
  {
    var c := ReadConnection(r, id).value;
    var key: StoreKey := ConnectionKey(id, CONNECTION);
    assert KeyMatches(key, r[key]);
    TwoWrites(r, ConnectionWrites(c.(settings := ChangedSettings(c.settings, changes), updatedAt := now), audit)[0], audit, os);
  }

  /** The operations that need a reason refuse exactly the blank ones before
      looking at anything else. */
  lemma ReasonRequiredExactly(env: Env, r: Records, id: string, reason: string, now: string, audit: OperationAudit)
    ensures ArchiveConnectionPlan(r, id, reason, now, audit) == Err(ReasonRequired) <==> IsBlank(reason)
    ensures ArchiveToolSourcePlan(r, id, reason, now, audit) == Err(ReasonRequired) <==> IsBlank(reason)
    ensures DeleteConnectionPlan(env, r, id, reason, audit) == Err(ReasonRequired) <==> IsBlank(reason)
  {
    StripEmpty(reason);
  }

  lemma ArchivedConnection(
    env: Env, r: Records, id: string, reason: string, now: string, audit: OperationAudit, os: seq<Outcome>)
    requires Sound(r) && Step(env, r, ArchiveConnection(id, reason, now, audit), os).reply.Accepted?
    ensures ReadConnection(r, id).Found? && ReadConnection(r, id).value.lifecycle.Active?
    ensures ReadConnection(r, id).value.connectionId == id
    ensures Step(env, r, ArchiveConnection(id, reason, now, audit), os).records ==
            r[ConnectionKey(id, CONNECTION) := ConnectionFile(ReadConnection(r, id).value.(lifecycle := Archived, updatedAt := now))]
             [ConfigurationAuditKey(audit.operationId) := AuditFile(audit)]
  {
    var c := ReadConnection(r, id).value;
    var key: StoreKey := ConnectionKey(id, CONNECTION);
    assert KeyMatches(key, r[key]);
    TwoWrites(r, ConnectionWrites(c.(lifecycle := Archived, updatedAt := now), audit)[0], audit, os);
  }

  lemma RestoredConnection(env: Env, r: Records, id: string, c: ModelConnection, now: string, audit: OperationAudit)
    requires ReadConnection(r, id) == Found(c) && c.connectionId == id && c.lifecycle.Archived?
    ensures Step(env, r, RestoreConnection(id, now, audit), []).reply.Accepted?
    ensures Step(env, r, RestoreConnection(id, now, audit), []).records ==
            r[ConnectionKey(id, CONNECTION) := ConnectionFile(c.(lifecycle := Active, updatedAt := now))]
             [ConfigurationAuditKey(audit.operationId) := AuditFile(audit)]
  {
    var ws := ConnectionWrites(c.(lifecycle := Active, updatedAt := now), audit);
    ExecuteOk(r, ws, []);
    TwoWrites(r, ws[0], audit, []);
  }

  /** Archiving an active connection and restoring it, with nothing in between,
      gives the connection back with a new time stamp; while it is archived no
      draft that refers to it can be published, and no other record but the audit
      entries has changed. */
  lemma ConnectionArchiveRestores(
    env: Env, r: Records, id: string, reason: string, now: string, audit: OperationAudit, os: seq<Outcome>,
    later: string, audit2: OperationAudit)
    requires Sound(r) && Step(env, r, ArchiveConnection(id, reason, now, audit), os).reply.Accepted?
    ensures var archived := Step(env, r, ArchiveConnection(id, reason, now, audit), os).records;
            var restored := Step(env, archived, RestoreConnection(id, later, audit2), []);
            && ReadConnection(r, id).Found?
            && !ConnectionActive(archived, id)
            && restored.reply.Accepted?
            && ReadConnection(restored.records, id) == Found(ReadConnection(r, id).value.(updatedAt := later))
            && forall k: StoreKey | k != ConnectionKey(id, CONNECTION) && !k.ConfigurationAuditKey? :: Same(r, restored.records, k)
  {
    ArchivedConnection(env, r, id, reason, now, audit, os);
    var c := ReadConnection(r, id).value;
    var archived := Step(env, r, ArchiveConnection(id, reason, now, audit), os).records;
    RestoredConnection(env, archived, id, c.(lifecycle := Archived, updatedAt := now), later, audit2);
  }

  // ----- tool sources -----

  lemma ArchivedToolSource(
    env: Env, r: Records, id: string, reason: string, now: string, audit: OperationAudit, os: seq<Outcome>)
    requires Sound(r) && Step(env, r, ArchiveToolSource(id, reason, now, audit), os).reply.Accepted?
    ensures ReadToolSource(r, id).Found? && ReadToolSource(r, id).value.lifecycle.Active?
    ensures ReadToolSource(r, id).value.sourceId == id
    ensures Step(env, r, ArchiveToolSource(id, reason, now, audit), os).records ==
            r[ToolSourceKey(id) := ToolSourceFile(ReadToolSource(r, id).value.(lifecycle := Archived, updatedAt := now))]
             [ConfigurationAuditKey(audit.operationId) := AuditFile(audit)]
  {
    var s := ReadToolSource(r, id).value;
    var key: StoreKey := ToolSourceKey(id);
    assert KeyMatches(key, r[key]);
    TwoWrites(r, ToolSourceWrites(s.(lifecycle := Archived, updatedAt := now), audit)[0], audit, os);
  }

  lemma RestoredToolSource(env: Env, r: Records, id: string, s: ToolSource, now: string, audit: OperationAudit)
    requires ReadToolSource(r, id) == Found(s) && s.sourceId == id && s.lifecycle.Archived?
    ensures Step(env, r, RestoreToolSource(id, now, audit), []).reply.Accepted?
    ensures Step(env, r, RestoreToolSource(id, now, audit), []).records ==
            r[ToolSourceKey(id) := ToolSourceFile(s.(lifecycle := Active, updatedAt := now))]
             [ConfigurationAuditKey(audit.operationId) := AuditFile(audit)]
  {
    var ws := ToolSourceWrites(s.(lifecycle := Active, updatedAt := now), audit);
    ExecuteOk(r, ws, []);
    TwoWrites(r, ws[0], audit, []);
  }

  /** Archiving a tool source and restoring it keeps its configuration and its
      revision, so exactly the validations that covered it cover it again. */
  lemma ToolSourceArchiveRestores(
    env: Env, r: Records, id: string, reason: string, now: string, audit: OperationAudit, os: seq<Outcome>,
    later: string, audit2: OperationAudit)
    requires Sound(r) && Step(env, r, ArchiveToolSource(id, reason, now, audit), os).reply.Accepted?
    ensures var archived := Step(env, r, ArchiveToolSource(id, reason, now, audit), os).records;
            var restored := Step(env, archived, RestoreToolSource(id, later, audit2), []);
            && ReadToolSource(r, id).Found?
            && ReadToolSource(archived, id).Found? && ReadToolSource(archived, id).value.lifecycle.Archived?
            && restored.reply.Accepted?
            && ReadToolSource(restored.records, id) == Found(ReadToolSource(r, id).value.(updatedAt := later))
            && forall digest, k ::
                 CoveredBy(restored.records, ReadToolSource(restored.records, id).value, digest, k)
                 <==> CoveredBy(r, ReadToolSource(r, id).value, digest, k)
  {
    ArchivedToolSource(env, r, id, reason, now, audit, os);
    var s := ReadToolSource(r, id).value;
    var archived := Step(env, r, ArchiveToolSource(id, reason, now, audit), os).records;
    RestoredToolSource(env, archived, id, s.(lifecycle := Archived, updatedAt := now), later, audit2);
    assert ToolSourceKey(id) != ConfigurationAuditKey(audit2.operationId);
  }

  /** An update keeps every field it is not given, takes the next revision, and
      leaves the source without a validation that covers it: no MCP tool bound to
      it can be published until it has been validated again. */
  lemma UpdateNeedsNewValidation(
    env: Env, m: Machine, id: string, changes: ToolSourceChanges, now: string, audit: OperationAudit, os: seq<Outcome>)
    requires Validated(m)
    requires Step(env, m.records, UpdateToolSource(id, changes, true, now, audit), os).reply.Accepted?
    ensures var after := Step(env, m.records, UpdateToolSource(id, changes, true, now, audit), os).records;
            && ReadToolSource(m.records, id).Found? && ReadToolSource(after, id).Found?
            && var was, next := ReadToolSource(m.records, id).value, ReadToolSource(after, id).value;
            && next.configRevision == was.configRevision + 1
            && next.lifecycle == was.lifecycle
            && (changes.params.None? ==> next.config.params == was.config.params)
            && (changes.toolContractIds.None? ==> next.config.toolContractIds == was.config.toolContractIds)
            && (changes.credentialEnvRef.None? ==> next.config.credentialEnvRef == was.config.credentialEnvRef)
            && (forall digest, k :: !CoveredBy(after, next, digest, k))
            && (forall tool | BoundSourceId(tool) == id :: !ToolPublishable(env, after, tool))
  {
    var r := m.records;
    var s := ReadToolSource(r, id).value;
    var key: StoreKey := ToolSourceKey(id);
    assert KeyMatches(key, r[key]);
    TwoWrites(r, ToolSourceWrites(RevisedToolSource(s, changes, now), audit)[0], audit, os);
    var after := Step(env, r, UpdateToolSource(id, changes, true, now, audit), os).records;
    var next := ReadToolSource(after, id).value;
    forall digest, k ensures !CoveredBy(after, next, digest, k) {
      if k in r && k.ToolSourceValidationKey? && k.sourceId == id {
        assert ValidationTrue(m, id, k.validationId);
        assert (id, r[k].validation.configRevision) in m.history;
      }
    }
  }

  // ----- the files of a version -----

  function ContractOf(v: PublishedVersion, member: MemberPath): Option<string> {
    if member == ["agent.yaml"] then Some(v.bundle.agentYaml)
    else if member == ["policy.yaml"] then Some(v.bundle.policyYaml)
    else if member == ["tools.yaml"] then Some(v.bundle.toolsYaml)
    else None
  }

  /** In a written version the last extra file of a name decides what its file
      holds, even over a contract; only publication.json cannot be overridden. */
  lemma ExtraFileWins(v: PublishedVersion, member: MemberPath, i: nat)
    requires member != PUBLICATION
    requires i < |v.bundle.extraFiles| && v.bundle.extraFiles[i].member == member
    requires forall j | i < j < |v.bundle.extraFiles| :: v.bundle.extraFiles[j].member != member
    ensures var k: StoreKey := VersionKey(v.agentId, v.versionId, member);
            k in VersionFiles(v) && VersionFiles(v)[k] == TextFile(v.bundle.extraFiles[i].content)
  {
    OnlyPublicationFollows(v, member);
    LastExtraWins(v, ApplyAll(map[], ContractWrites(v)), v.bundle.extraFiles, member, i);
  }

  /** A name no extra file has holds the contract of that name, if there is one,
      and does not exist otherwise. */
  lemma ContractFileStays(v: PublishedVersion, member: MemberPath)
    requires member != PUBLICATION
    requires forall i | 0 <= i < |v.bundle.extraFiles| :: v.bundle.extraFiles[i].member != member
    ensures var k: StoreKey := VersionKey(v.agentId, v.versionId, member);
            if ContractOf(v, member).None? then k !in VersionFiles(v)
            else k in VersionFiles(v) && VersionFiles(v)[k] == TextFile(ContractOf(v, member).value)
  {
    OnlyPublicationFollows(v, member);
    ContractFiles(v, member);
    ExtrasSpare(v, ApplyAll(map[], ContractWrites(v)), v.bundle.extraFiles, member);
  }

  lemma OnlyPublicationFollows(v: PublishedVersion, member: MemberPath)
    requires member != PUBLICATION
    ensures Same(ApplyAll(ApplyAll(map[], ContractWrites(v)), ExtraWrites(v, v.bundle.extraFiles)), VersionFiles(v),
                 VersionKey(v.agentId, v.versionId, member))
  {
    PublicationIsLast(v, map[]);
    ApplyAllAppend(map[], ContractWrites(v), ExtraWrites(v, v.bundle.extraFiles));
  }

  lemma ContractFiles(v: PublishedVersion, member: MemberPath)
    ensures var k: StoreKey := VersionKey(v.agentId, v.versionId, member);
            var files := ApplyAll(map[], ContractWrites(v));
            if ContractOf(v, member).None? then k !in files
            else k in files && files[k] == TextFile(ContractOf(v, member).value)
  {
    var ws := ContractWrites(v);
    assert ws[1..][1..] == [ws[2]] && [ws[2]][1..] == [];
    assert ws[1..][0] == ws[1];
    var one := Apply(map[], ws[0], Done);
    var two := Apply(one, ws[1], Done);
    assert ApplyAll(map[], ws) == ApplyAll(one, ws[1..]);
    assert ApplyAll(one, ws[1..]) == ApplyAll(two, [ws[2]]);
    assert ApplyAll(two, [ws[2]]) == ApplyAll(Apply(two, ws[2], Done), []);
    var a: Path, p: Path, t: Path := ["agent.yaml"], ["policy.yaml"], ["tools.yaml"];
    assert a[0] != p[0] && p[0] != t[0] && a[0] != t[0];
  }

  lemma ExtrasSpare(v: PublishedVersion, r: Records, extra: seq<ExtraFile>, member: MemberPath)
    requires forall i | 0 <= i < |extra| :: extra[i].member != member
    ensures Same(r, ApplyAll(r, ExtraWrites(v, extra)), VersionKey(v.agentId, v.versionId, member))
  {
    var ws := ExtraWrites(v, extra);
    ExecuteOk(r, ws, []);
    ExecuteSpares(r, ws, [], VersionKey(v.agentId, v.versionId, member));
  }

  lemma LastExtraWins(v: PublishedVersion, r: Records, extra: seq<ExtraFile>, member: MemberPath, i: nat)
    requires i < |extra| && extra[i].member == member && forall j | i < j < |extra| :: extra[j].member != member
    ensures var k: StoreKey := VersionKey(v.agentId, v.versionId, member);
            var after := ApplyAll(r, ExtraWrites(v, extra));
            k in after && after[k] == TextFile(extra[i].content)
  {
    var front, tail := ExtraWrites(v, extra[..i]), ExtraWrites(v, extra[i + 1..]);
    var w := ExtraWrites(v, extra)[i];
    assert ExtraWrites(v, extra) == front + ([w] + tail);
    ApplyAllAppend(r, front, [w] + tail);
    var mid := ApplyAll(r, front);
    ApplyAllAppend(mid, [w], tail);
    assert [w][1..] == [];
    assert ApplyAll(mid, [w]) == ApplyAll(Apply(mid, w, Done), []);
    ExtrasSpare(v, Apply(mid, w, Done), extra[i + 1..], member);
  }
}
