/** What callers of the configuration store may rely on over whole runs:
    connections that resolve, pointers, drafts and the canonical reservation. */
module StoreGuarantees {
  import opened Text
  import opened StorePaths
  import opened StoreRecords
  import opened StoreOperations
  import opened StoreInvariants
  import opened StoreRuns
  import opened ManifestTree

  // ----- shared model connections -----

  /** The manifest declares the connection, at any depth. */
  ghost predicate ManifestDeclares(env: Env, agentYaml: string, id: string) {
    Declares(env.load, Scalar(agentYaml), id)
  }

  /** The version holds what was read of the draft, and the facts of the request. */
  predicate PublishedFrom(v: PublishedVersion, q: PublishRequest, draft: DraftAgent) {
    && v.agentId == q.agentId && v.versionId == q.versionId
    && v.sourceDraftId == q.draftId && v.validationRunId == q.validationRunId
    && v.displayName == draft.displayName && v.purpose == draft.purpose
    && v.bundle == draft.bundle
    && v.publishedAt == q.now && v.publishedBy == q.actor
  }

  /** An accepted publication: the version that can be read afterwards is the draft
      as it was read, its files and a pointer to it without a rollback origin are
      all that changed, and every connection its manifest declares was active. */
  lemma AcceptedPublication(env: Env, r: Records, q: PublishRequest, os: seq<Outcome>)
    requires Step(env, r, PublishVersion(q), os).reply.Accepted?
    ensures ReadDraft(r, q.agentId, q.draftId).Found?
    ensures var draft := ReadDraft(r, q.agentId, q.draftId).value;
            var after := Step(env, r, PublishVersion(q), os).records;
            && ReadVersion(env.parse, after, q.agentId, q.versionId).Found?
            && var v := ReadVersion(env.parse, after, q.agentId, q.versionId).value;
            && PublishedFrom(v, q, draft)
            && ReadActive(after, q.agentId) == Found(ActiveVersion(q.agentId, q.versionId, q.now, q.actor, None))
            && after == ApplyAll(r, VersionWrites(v))[ActivePointerKey(q.agentId) :=
                          PointerFile(ActiveVersion(q.agentId, q.versionId, q.now, q.actor, None))]
            && forall id | ManifestDeclares(env, draft.bundle.agentYaml, id) ::
                 ReadConnection(r, id).Found? && ReadConnection(r, id).value.lifecycle.Active?
  {
    var draft := ReadDraft(r, q.agentId, q.draftId).value;
    PublicationWritten(r, VersionFrom(q, draft), PointerFor(q), os);
    DeclaredConnectionsAreActive(env, r, draft.bundle.agentYaml);
  }

  lemma DeclaredConnectionsAreActive(env: Env, r: Records, agentYaml: string)
    requires ConnectionsActive(env, r, agentYaml)
    ensures forall id | ManifestDeclares(env, agentYaml, id) ::
              ReadConnection(r, id).Found? && ReadConnection(r, id).value.lifecycle.Active?
  {
    forall id | ManifestDeclares(env, agentYaml, id)
      ensures ReadConnection(r, id).Found? && ReadConnection(r, id).value.lifecycle.Active?
    {
      SharedConnectionIdsAreTheDeclaredIds(env.load, Scalar(agentYaml), id);
      assert ConnectionActive(r, id);
    }
  }

  lemma PublicationWritten(r: Records, v: PublishedVersion, active: ActiveVersion, os: seq<Outcome>)
    requires Execute(r, VersionWrites(v) + [PointerWrite(active)], os).ok
    ensures var after := Execute(r, VersionWrites(v) + [PointerWrite(active)], os).records;
            && after == ApplyAll(r, VersionWrites(v))[ActivePointerKey(active.agentId) := PointerFile(active)]
            && forall parse :: ReadVersion(parse, after, v.agentId, v.versionId) == Found(v)
  {
    var ws := VersionWrites(v) + [PointerWrite(active)];
    ExecuteOk(r, ws, os);
    ApplyAllAppend(r, VersionWrites(v), [PointerWrite(active)]);
    PublicationIsLast(v, r);
    var mid := ApplyAll(r, VersionWrites(v));
    assert [PointerWrite(active)][1..] == [];
    assert ApplyAll(mid, [PointerWrite(active)]) == mid[ActivePointerKey(active.agentId) := PointerFile(active)];
  }

  /** An accepted seed publishes in the same way, and the reservation then names
      the agent and the version. */
  lemma AcceptedSeed(env: Env, r: Records, q: SeedRequest, os: seq<Outcome>)
    requires Step(env, r, SeedVersion(q), os).reply.Accepted?
    ensures ReadDraft(r, q.agentId, q.draftId).Found?
    ensures var draft := ReadDraft(r, q.agentId, q.draftId).value;
            var after := Step(env, r, SeedVersion(q), os).records;
            && ReadVersion(env.parse, after, q.agentId, q.versionId).Found?
            && PublishedFrom(ReadVersion(env.parse, after, q.agentId, q.versionId).value, q, draft)
            && ReadActive(after, q.agentId) == Found(ActiveVersion(q.agentId, q.versionId, q.now, q.actor, None))
            && SeedAuthorityKey in after && after[SeedAuthorityKey] == AuthorityFile(q.agentId, Some(q.versionId))
            && forall id | ManifestDeclares(env, draft.bundle.agentYaml, id) ::
                 ReadConnection(r, id).Found? && ReadConnection(r, id).value.lifecycle.Active?
  {
    var now := r[SeedAuthorityKey := AuthorityFile(q.agentId, None)];
    var draft := SeedAfterReservation(env, r, q, os);
    var rest := TailOutcomes(os);
    SeedWritten(now, VersionFrom(q, draft), PointerFor(q), AuthorityWrite(q.agentId, Some(q.versionId)), rest);
    DeclaredConnectionsAreActive(env, now, draft.bundle.agentYaml);
    assert forall id :: ReadConnection(now, id) == ReadConnection(r, id);
  }

  /** The second part of an accepted seed publishes in the reserved store. */
  lemma SeedAfterReservation(env: Env, r: Records, q: SeedRequest, os: seq<Outcome>) returns (draft: DraftAgent)
    requires Step(env, r, SeedVersion(q), os).reply.Accepted?
    ensures ReadDraft(r, q.agentId, q.draftId) == Found(draft)
    ensures var now := r[SeedAuthorityKey := AuthorityFile(q.agentId, None)];
            var done := AuthorityWrite(q.agentId, Some(q.versionId));
            var x := Execute(now, VersionWrites(VersionFrom(q, draft)) + [PointerWrite(PointerFor(q))] + [done], TailOutcomes(os));
            && x.ok && Step(env, r, SeedVersion(q), os).records == x.records
            && ConnectionsActive(env, now, draft.bundle.agentYaml)
  {
    ExecuteOne(r, AuthorityWrite(q.agentId, None), os);
    var now := r[SeedAuthorityKey := AuthorityFile(q.agentId, None)];
    assert ReadDraft(now, q.agentId, q.draftId) == ReadDraft(r, q.agentId, q.draftId);
    draft := ReadDraft(r, q.agentId, q.draftId).value;
  }

  lemma SeedWritten(r: Records, v: PublishedVersion, active: ActiveVersion, done: Write, os: seq<Outcome>)
    requires active.agentId == v.agentId && done.Put? && done.key == SeedAuthorityKey
    requires Execute(r, VersionWrites(v) + [PointerWrite(active)] + [done], os).ok
    ensures var after := Execute(r, VersionWrites(v) + [PointerWrite(active)] + [done], os).records;
            && (forall parse :: ReadVersion(parse, after, v.agentId, v.versionId) == Found(v))
            && ReadActive(after, active.agentId) == Found(active)
            && SeedAuthorityKey in after && after[SeedAuthorityKey] == done.content
  {
    var ws := VersionWrites(v) + [PointerWrite(active)];
    ExecuteAppend(r, ws, [done], os);
    var y := Execute(r, ws, os);
    PublicationWritten(r, v, active, os);
    ExecuteOne(y.records, done, y.rest);
    var after := Execute(r, ws + [done], os).records;
    forall parse ensures ReadVersion(parse, after, v.agentId, v.versionId) == Found(v) {
      assert ReadVersion(parse, y.records, v.agentId, v.versionId) == Found(v);
    }
  }

  /** When publication accepts a draft, its manifest embeds no knowledge, and its
      knowledge bindings are, one by one and in order, the bindings the caller
      resolved: at most five, under different ids. */
  lemma AcceptedKnowledgeIsExact(env: Env, r: Records, q: PublishRequest)
    requires PublishVersionPlan(env, r, q).Ok?
    ensures var agentYaml := ReadDraft(r, q.agentId, q.draftId).value.bundle.agentYaml;
            var items := BindingItems(env.load, agentYaml);
            && !EmbedsKnowledge(env.load, agentYaml)
            && items.Some? && |items.value| == |q.bindings| <= 5
            && (forall i | 0 <= i < |q.bindings| :: env.binding(items.value[i]) == Some(q.bindings[i]))
            && forall i, j | 0 <= i < j < |q.bindings| :: q.bindings[i].bindingId != q.bindings[j].bindingId
  {
    var ids := BindingIds(q.bindings);
    UniqueMeansDistinct(ids);
    assert forall i, j | 0 <= i < j < |ids| :: ids[i] != ids[j];
  }

  /** A reference that resolves once keeps resolving while its version exists,
      whoever published it and whatever runs. */
  lemma ResolvedReferencesStayResolved(env: Env, m: Machine, es: seq<Event>, a: string, v: string, id: string)
    requires Sound(m.records) && RunFresh(env, m, es)
    requires VersionDeclares(env, m.records, a, v, id) && ReadConnection(m.records, id).Found?
    ensures ReadVersion(env.parse, Run(env, m, es).records, a, v) == ReadVersion(env.parse, m.records, a, v)
    ensures ReadConnection(Run(env, m, es).records, id).Found?
  {
    RunKeepsSound(env, m, es);
    ReadableStays(env, m.records, Run(env, m, es).records, a, v);
  }

  /** A version written by publish_version refers only to connections that are
      active when it is published, and in every later state of every run the
      version is still there as it was published, and each reference still
      resolves. */
  lemma PublishedReferencesResolveForever(
    env: Env, m: Machine, q: PublishRequest, os: seq<Outcome>, es: seq<Event>, id: string)
    requires Sound(m.records)
    requires RunFresh(env, m, [Locked(PublishVersion(q), os)] + es)
    requires Step(env, m.records, PublishVersion(q), os).reply.Accepted?
    requires ReadDraft(m.records, q.agentId, q.draftId).Found? &&
             ManifestDeclares(env, ReadDraft(m.records, q.agentId, q.draftId).value.bundle.agentYaml, id)
    ensures ReadConnection(m.records, id).Found? && ReadConnection(m.records, id).value.lifecycle.Active?
    ensures var later := Run(env, Next(env, m, Locked(PublishVersion(q), os)), es).records;
            && ReadVersion(env.parse, later, q.agentId, q.versionId).Found?
            && PublishedFrom(ReadVersion(env.parse, later, q.agentId, q.versionId).value, q,
                             ReadDraft(m.records, q.agentId, q.draftId).value)
            && ReadConnection(later, id).Found?
  {
    var publish := Locked(PublishVersion(q), os);
    var next := Next(env, m, publish);
    RunFreshTail(env, m, publish, es);
    AcceptedPublication(env, m.records, q, os);
    NextKeepsSound(env, m, publish);
    var v := ReadVersion(env.parse, next.records, q.agentId, q.versionId).value;
    VersionKeepsConnection(m.records, v, id);
    SharedConnectionIdsAreTheDeclaredIds(env.load, Scalar(v.bundle.agentYaml), id);
    ResolvedReferencesStayResolved(env, next, es, q.agentId, q.versionId, id);
  }

  lemma VersionKeepsConnection(r: Records, v: PublishedVersion, id: string)
    ensures Same(r, ApplyAll(r, VersionWrites(v)), ConnectionKey(id, CONNECTION))
  {
    VersionWritesStayInside(v);
    ExecuteOk(r, VersionWrites(v), []);
    ExecuteSpares(r, VersionWrites(v), [], ConnectionKey(id, CONNECTION));
  }

  /** The deletion guard is exact: a deletion goes ahead exactly when a reason is
      given, the connection exists and is archived, every draft and version can be
      read, and none of them declares it at any depth of its manifest. */
  lemma DeletionGuardIsExact(env: Env, r: Records, id: string, reason: string, audit: OperationAudit)
    requires Sound(r)
    ensures DeleteConnectionPlan(env, r, id, reason, audit).Ok? <==>
              && !IsBlank(reason)
              && ReadConnection(r, id).Found? && ReadConnection(r, id).value.lifecycle.Archived?
              && (forall a, v :: !ReadVersion(env.parse, r, a, v).Malformed?)
              && (forall a, d | DraftKey(a, d) in r :: !ManifestDeclares(env, r[DraftKey(a, d)].draft.bundle.agentYaml, id))
              && (forall a, v | ReadVersion(env.parse, r, a, v).Found? ::
                    !ManifestDeclares(env, ReadVersion(env.parse, r, a, v).value.bundle.agentYaml, id))
  {
    StripEmpty(reason);
    if ReadConnection(r, id).Found? {
      var c := ReadConnection(r, id).value;
      assert KeyMatches(ConnectionKey(id, CONNECTION), r[ConnectionKey(id, CONNECTION)]);
      assert DeleteConnectionPlan(env, r, id, reason, audit).Ok? <==>
             Strip(reason) != "" && ReferencesReadable(env, r) && DeletionBlockers(env, r, c) == [];
      ReadableExactly(env, r);
      NoBlockersExactly(env, r, c);
    }
  }

  lemma ReadableExactly(env: Env, r: Records)
    requires Sound(r)
    ensures ReferencesReadable(env, r) <==> forall a, v :: !ReadVersion(env.parse, r, a, v).Malformed?
  {
    forall k | k in r && k.DraftKey? ensures r[k].DraftFile? {
      assert KeyMatches(k, r[k]);
    }
    if ReferencesReadable(env, r) {
      forall a, v ensures !ReadVersion(env.parse, r, a, v).Malformed? {
        assert VersionKey(a, v, PUBLICATION) in r ==> IsPublicationKey(VersionKey(a, v, PUBLICATION));
      }
    }
    if forall a, v :: !ReadVersion(env.parse, r, a, v).Malformed? {
      forall k | k in r && IsPublicationKey(k) ensures PublicationIn(env.parse, r[k]).Some? {
        assert k == VersionKey(k.agentId, k.versionId, PUBLICATION);
        assert !ReadVersion(env.parse, r, k.agentId, k.versionId).Malformed?;
      }
    }
  }

  lemma NoBlockersExactly(env: Env, r: Records, c: ModelConnection)
    requires Sound(r)
    ensures DeletionBlockers(env, r, c) == [] <==>
              && c.lifecycle.Archived?
              && (forall a, d | DraftKey(a, d) in r :: !ManifestDeclares(env, r[DraftKey(a, d)].draft.bundle.agentYaml, c.connectionId))
              && (forall a, v | ReadVersion(env.parse, r, a, v).Found? ::
                    !ManifestDeclares(env, ReadVersion(env.parse, r, a, v).value.bundle.agentYaml, c.connectionId))
  {
    DraftBlockersAreDeclarations(env, r, c.connectionId);
    VersionBlockersAreDeclarations(env, r, c.connectionId);
  }

  lemma DraftBlockersAreDeclarations(env: Env, r: Records, id: string)
    requires Sound(r)
    ensures (exists k | k in r :: DraftRefersTo(env, r, k, id)) <==>
            exists a, d | DraftKey(a, d) in r :: ManifestDeclares(env, r[DraftKey(a, d)].draft.bundle.agentYaml, id)
  {
    forall a, d | DraftKey(a, d) in r
      ensures DraftRefersTo(env, r, DraftKey(a, d), id) <==> ManifestDeclares(env, r[DraftKey(a, d)].draft.bundle.agentYaml, id)
    {
      assert KeyMatches(DraftKey(a, d), r[DraftKey(a, d)]);
      SharedConnectionIdsAreTheDeclaredIds(env.load, Scalar(r[DraftKey(a, d)].draft.bundle.agentYaml), id);
    }
    if k :| k in r && DraftRefersTo(env, r, k, id) {
      assert k == DraftKey(k.agentId, k.draftId);
    }
  }

  lemma VersionBlockersAreDeclarations(env: Env, r: Records, id: string)
    ensures (exists k | k in r :: VersionRefersTo(env, r, k, id)) <==>
            exists a, v | ReadVersion(env.parse, r, a, v).Found? ::
              ManifestDeclares(env, ReadVersion(env.parse, r, a, v).value.bundle.agentYaml, id)
  {
    forall a, v | ReadVersion(env.parse, r, a, v).Found?
      ensures VersionRefersTo(env, r, VersionKey(a, v, PUBLICATION), id) <==>
              ManifestDeclares(env, ReadVersion(env.parse, r, a, v).value.bundle.agentYaml, id)
    {
      SharedConnectionIdsAreTheDeclaredIds(env.load, Scalar(ReadVersion(env.parse, r, a, v).value.bundle.agentYaml), id);
    }
    if k :| k in r && VersionRefersTo(env, r, k, id) {
      assert k == VersionKey(k.agentId, k.versionId, PUBLICATION);
      assert ReadVersion(env.parse, r, k.agentId, k.versionId).Found?;
    }
  }

  // ----- active pointers -----

  /** An accepted activation came from exactly the pointer it replaced, which is
      the rollback origin it records. */
  lemma ActivationRecordsItsOrigin(env: Env, r: Records, a: ActivationRecord, os: seq<Outcome>)
    requires Step(env, r, ActivateVersion(a), os).reply.Accepted?
    ensures ActivePointer(r, a.activation.agentId) == Ok(a.activation.rollbackFromVersionId)
    ensures ReadVersion(env.parse, r, a.activation.agentId, a.activation.versionId).Found?
    ensures Step(env, r, ActivateVersion(a), os).records ==
            r[ActivePointerKey(a.activation.agentId) := PointerFile(a.activation)]
  {
    ExecuteOne(r, PointerWrite(a.activation), os);
  }

  /** activate_version_record writes the pointer in place and does not roll back:
      an activation that passes its guards leaves an unreadable pointer exactly
      when that write is cut off half way. */
  lemma ActivationTearsPointer(env: Env, r: Records, a: ActivationRecord, os: seq<Outcome>)
    requires ActivatePlan(env, r, a).Ok?
    ensures ReadActive(Step(env, r, ActivateVersion(a), os).records, a.activation.agentId).Malformed? <==>
            HeadOutcome(os).FailedHalfway?
  {
    ExecuteOne(r, PointerWrite(a.activation), os);
  }

  /** A prepared publication never makes a pointer unreadable. */
  lemma PublishRecordNeverTearsPointer(r: Records, p: PublicationRecord, n: int, os: seq<Outcome>, a: string)
    requires !ReadActive(r, a).Malformed?
    ensures !ReadActive(PublishRecordStep(r, p, n, os).records, a).Malformed?
  {
    PublishRecordIsAtomic(r, p, n, os);
    var after := PublishRecordStep(r, p, n, os);
    if after.reply.Accepted? && a != p.version.agentId {
      var v := p.version;
      VersionWritesStayInside(v);
      ExecuteOk(r, VersionWrites(v), []);
      ExecuteSpares(r, VersionWrites(v), [], ActivePointerKey(a));
    }
  }

  // ----- drafts -----

  predicate WritesDraft(op: Operation, agentId: string, draftId: string) {
    match op
    case CreateDraft(d) => d.agentId == agentId && d.draftId == draftId
    case SaveDraft(d, _) => d.agentId == agentId && d.draftId == draftId
    case UpdateDraft(a, d, _, _) => a == agentId && d == draftId
    case _ => false
  }

  /** Every draft write that returns raises the draft's revision by exactly one,
      counted from its audit entries if it never had a revision file. */
  lemma DraftWriteRaisesByOne(env: Env, r: Records, op: Operation, os: seq<Outcome>, a: string, d: string)
    requires Sound(r) && WritesDraft(op, a, d)
    requires Step(env, r, op, os).reply.Accepted?
    ensures ActualRevision(r, a, d).Ok?
    ensures ActualRevision(Step(env, r, op, os).records, a, d) == Ok(ActualRevision(r, a, d).value + 1)
    ensures op.SaveDraft? ==> ReadDraft(Step(env, r, op, os).records, a, d) == Found(op.draft)
                              && ActualRevision(r, a, d) == Ok(op.expectedRevision)
  {
    assert DraftKey(a, d) in r ==> KeyMatches(DraftKey(a, d), r[DraftKey(a, d)]);
    var ws := Plan(env, r, op).value;
    assert ws[1..] == [ws[1]];
    ExecuteOne(Apply(r, ws[0], HeadOutcome(os)), ws[1], TailOutcomes(os));
  }

  /** At most one save with a given expected revision ever succeeds on a draft,
      whatever else runs and whichever writes raise. */
  lemma SaveSucceedsOnce(
    env: Env, m: Machine, draft: DraftAgent, n: int, os: seq<Outcome>,
    es: seq<Event>, rival: DraftAgent, os2: seq<Outcome>)
    requires Sound(m.records)
    requires RunFresh(env, m, [Locked(SaveDraft(draft, n), os)] + es)
    requires Step(env, m.records, SaveDraft(draft, n), os).reply.Accepted?
    requires rival.agentId == draft.agentId && rival.draftId == draft.draftId
    ensures var later := Run(env, Next(env, m, Locked(SaveDraft(draft, n), os)), es);
            !Step(env, later.records, SaveDraft(rival, n), os2).reply.Accepted?
  {
    var save := Locked(SaveDraft(draft, n), os);
    var next := Next(env, m, save);
    RunFreshTail(env, m, save, es);
    NextKeepsSound(env, m, save);
    RunKeepsSound(env, next, es);
    AcceptedSaveHasRevisionFile(env, m.records, draft, n, os);
    RevisionNeverGoesBack(next.records, Run(env, next, es).records, draft.agentId, draft.draftId);
    LaterRevisionRefuses(env, Run(env, next, es).records, rival, n, os2);
  }

  lemma RevisionNeverGoesBack(r: Records, s: Records, a: string, d: string)
    requires Evolves(r, s) && DraftRevisionKey(a, d) in r && r[DraftRevisionKey(a, d)].RevisionFile?
    ensures var k := DraftRevisionKey(a, d); k in s && s[k].RevisionFile? && s[k].revision >= r[k].revision
  {
  }

  lemma LaterRevisionRefuses(env: Env, r: Records, rival: DraftAgent, n: int, os: seq<Outcome>)
    requires Sound(r)
    requires var k := DraftRevisionKey(rival.agentId, rival.draftId);
             k in r && r[k].RevisionFile? && r[k].revision > n
    ensures !Step(env, r, SaveDraft(rival, n), os).reply.Accepted?
  {
    var k: StoreKey := DraftKey(rival.agentId, rival.draftId);
    assert k in r && KeyMatches(k, r[k]);
  }

  lemma AcceptedSaveHasRevisionFile(env: Env, r: Records, draft: DraftAgent, n: int, os: seq<Outcome>)
    requires Step(env, r, SaveDraft(draft, n), os).reply.Accepted?
    ensures var after := Step(env, r, SaveDraft(draft, n), os).records;
            var k := DraftRevisionKey(draft.agentId, draft.draftId);
            k in after && after[k] == RevisionFile(n + 1)
  {
    var ws := DraftWrites(draft, n + 1);
    assert ws[1..] == [ws[1]];
    ExecuteOne(Apply(r, ws[0], HeadOutcome(os)), ws[1], TailOutcomes(os));
  }

  /** A draft write that replaced the draft but not its revision: both files are
      replaced atomically, one after the other. */
  predicate SplitsDraftWrite(os: seq<Outcome>) {
    Landed(os) && !(HeadOutcome(os).Done? && Landed(TailOutcomes(os)))
  }

  /** The draft a draft operation puts in place. */
  function WrittenDraft(env: Env, r: Records, op: Operation): DraftAgent
    requires IsDraftOperation(op) && Plan(env, r, op).Ok?
  {
    match op
    case CreateDraft(d) => d
    case SaveDraft(d, _) => d
    case UpdateDraft(a, d, changes, audit) => UpdatedDraft(ReadDraft(r, a, d).value, changes, audit)
  }

  function CountedRevision(draft: DraftAgent): int {
    if |draft.operationAudit| < 1 then 1 else |draft.operationAudit|
  }

  lemma DraftPlanWrites(env: Env, r: Records, op: Operation, a: string, d: string)
    requires Sound(r) && WritesDraft(op, a, d) && Plan(env, r, op).Ok?
    ensures ActualRevision(r, a, d).Ok?
    ensures WrittenDraft(env, r, op).agentId == a && WrittenDraft(env, r, op).draftId == d
    ensures Plan(env, r, op).value == DraftWrites(WrittenDraft(env, r, op), ActualRevision(r, a, d).value + 1)
  {
    assert DraftKey(a, d) in r ==> KeyMatches(DraftKey(a, d), r[DraftKey(a, d)]);
  }

  lemma DraftWritesDo(r: Records, draft: DraftAgent, n: int, os: seq<Outcome>)
    ensures var key, revision := DraftKey(draft.agentId, draft.draftId), DraftRevisionKey(draft.agentId, draft.draftId);
            Execute(r, DraftWrites(draft, n), os).records ==
            if !Landed(os) then r
            else if SplitsDraftWrite(os) then r[key := DraftFile(draft)]
            else r[key := DraftFile(draft)][revision := RevisionFile(n)]
  {
    var ws := DraftWrites(draft, n);
    assert ws[1..] == [ws[1]];
    ExecuteOne(Apply(r, ws[0], HeadOutcome(os)), ws[1], TailOutcomes(os));
  }

  /** The effective revision after a draft write that replaced the draft. */
  function RevisionLeft(env: Env, r: Records, op: Operation, os: seq<Outcome>, a: string, d: string): int
    requires IsDraftOperation(op) && Plan(env, r, op).Ok? && ActualRevision(r, a, d).Ok?
  {
    if !SplitsDraftWrite(os) then ActualRevision(r, a, d).value + 1
    else if DraftRevisionKey(a, d) in r then ActualRevision(r, a, d).value
    else CountedRevision(WrittenDraft(env, r, op))
  }

  /** Under any outcomes a draft write that passes its guards either changes
      nothing about the draft or puts the new one in place under that revision. */
  lemma DraftWriteLeaves(env: Env, r: Records, op: Operation, os: seq<Outcome>, a: string, d: string)
    requires Sound(r) && WritesDraft(op, a, d) && Plan(env, r, op).Ok?
    ensures ActualRevision(r, a, d).Ok?
    ensures var after := Step(env, r, op, os).records;
            if Landed(os) then
              && ReadDraft(after, a, d) == Found(WrittenDraft(env, r, op))
              && ActualRevision(after, a, d) == Ok(RevisionLeft(env, r, op, os, a, d))
            else after == r
  {
    var next := WrittenDraft(env, r, op);
    DraftPlanWrites(env, r, op, a, d);
    DraftWritesDo(r, next, ActualRevision(r, a, d).value + 1, os);
    assert DraftKey(a, d) in r ==> KeyMatches(DraftKey(a, d), r[DraftKey(a, d)]);
    assert DraftRevisionKey(a, d) in r ==> KeyMatches(DraftRevisionKey(a, d), r[DraftRevisionKey(a, d)]);
  }

  /** A draft write that passes its guards leaves a changed draft under the
      revision the old one had exactly when it is interrupted between its two
      files, by whichever outcome, and the revision is kept in a file or happens
      to be the number of audit entries of the new draft. */
  lemma SplitKeepsRevisionExactly(env: Env, r: Records, op: Operation, os: seq<Outcome>, a: string, d: string)
    requires Sound(r) && WritesDraft(op, a, d) && Plan(env, r, op).Ok?
    requires ReadDraft(r, a, d) != Found(WrittenDraft(env, r, op))
    ensures ActualRevision(r, a, d).Ok?
    ensures var after := Step(env, r, op, os).records;
            var next := WrittenDraft(env, r, op);
            ReadDraft(after, a, d) == Found(next) && ActualRevision(after, a, d) == ActualRevision(r, a, d) <==>
            && SplitsDraftWrite(os)
            && (DraftRevisionKey(a, d) in r || CountedRevision(next) == ActualRevision(r, a, d).value)
  {
    DraftWriteLeaves(env, r, op, os, a, d);
  }

  /** The draft and its revision as one atomic read sees them, or a later
      revision. */
  ghost predicate UnreadOrAsRead(r: Records, s: Records, a: string, d: string, n: int) {
    || (Same(r, s, DraftKey(a, d)) && Same(r, s, DraftRevisionKey(a, d)))
    || (DraftRevisionKey(a, d) in s && s[DraftRevisionKey(a, d)].RevisionFile?
        && s[DraftRevisionKey(a, d)].revision > n)
  }

  /** While the draft still has the revision that was read, a write that would
      change it is interrupted between its two files. */
  predicate SplitsWhileRead(env: Env, r: Records, e: Event, a: string, d: string, n: int) {
    && e.Locked? && WritesDraft(e.op, a, d) && Plan(env, r, e.op).Ok?
    && ActualRevision(r, a, d) == Ok(n)
    && ReadDraft(r, a, d) != Found(WrittenDraft(env, r, e.op))
    && SplitsDraftWrite(e.outcomes)
  }

  ghost predicate NoSplitWhileRead(env: Env, m: Machine, es: seq<Event>, a: string, d: string, n: int) {
    forall k | 0 <= k < |es| :: !SplitsWhileRead(env, StateAt(env, m, es, k).records, es[k], a, d, n)
  }

  /** No lost update: a save based on an atomic read of a draft and its revision
      overwrites exactly the draft that was read, provided no write that changed
      it meanwhile was interrupted between its two files. */
  lemma SaveOverwritesWhatWasRead(
    env: Env, m: Machine, es: seq<Event>, a: string, d: string, read: DraftAgent, n: int,
    save: DraftAgent, os: seq<Outcome>)
    requires Sound(m.records) && RunFresh(env, m, es) && NoSplitWhileRead(env, m, es, a, d, n)
    requires ReadDraft(m.records, a, d) == Found(read) && ReadDraftRevision(m.records, read) == Found(n)
    requires save.agentId == a && save.draftId == d
    requires Step(env, Run(env, m, es).records, SaveDraft(save, n), os).reply.Accepted?
    ensures ReadDraft(Run(env, m, es).records, a, d) == Found(read)
  {
    RunKeepsSound(env, m, es);
    assert KeyMatches(DraftKey(a, d), m.records[DraftKey(a, d)]);
    UnreadOrAsReadAt(env, m, es, |es|, a, d, n);
    StateAtEnds(env, m, es);
    var later := Run(env, m, es).records;
    assert KeyMatches(DraftKey(a, d), later[DraftKey(a, d)]);
  }

  lemma {:induction false} UnreadOrAsReadAt(env: Env, m: Machine, es: seq<Event>, k: nat, a: string, d: string, n: int)
    requires Sound(m.records) && RunFresh(env, m, es) && k <= |es| && NoSplitWhileRead(env, m, es, a, d, n)
    requires DraftKey(a, d) in m.records && ActualRevision(m.records, a, d) == Ok(n)
    ensures UnreadOrAsRead(m.records, StateAt(env, m, es, k).records, a, d, n)
    decreases k
  {
    if k == 0 {
      StateAtEnds(env, m, es);
    } else {
      UnreadOrAsReadAt(env, m, es, k - 1, a, d, n);
      UnreadOrAsReadOneMore(env, m, es, k - 1, a, d, n);
    }
  }

  lemma UnreadOrAsReadOneMore(env: Env, m: Machine, es: seq<Event>, k: nat, a: string, d: string, n: int)
    requires Sound(m.records) && RunFresh(env, m, es) && k < |es|
    requires !SplitsWhileRead(env, StateAt(env, m, es, k).records, es[k], a, d, n)
    requires DraftKey(a, d) in m.records && ActualRevision(m.records, a, d) == Ok(n)
    requires UnreadOrAsRead(m.records, StateAt(env, m, es, k).records, a, d, n)
    ensures UnreadOrAsRead(m.records, StateAt(env, m, es, k + 1).records, a, d, n)
  {
    StateAtSound(env, m, es, k);
    StateAtNext(env, m, es, k);
    NextIsUnreadOrAsRead(env, m.records, StateAt(env, m, es, k), es[k], a, d, n);
  }

  lemma NextIsUnreadOrAsRead(env: Env, r: Records, m: Machine, e: Event, a: string, d: string, n: int)
    requires Sound(r) && Sound(m.records) && EventFresh(m, e)
    requires !SplitsWhileRead(env, m.records, e, a, d, n)
    requires DraftKey(a, d) in r && ActualRevision(r, a, d) == Ok(n)
    requires UnreadOrAsRead(r, m.records, a, d, n)
    ensures UnreadOrAsRead(r, Next(env, m, e).records, a, d, n)
  {
    NextKeepsSound(env, m, e);
    if Same(r, m.records, DraftKey(a, d)) && Same(r, m.records, DraftRevisionKey(a, d)) {
      assert KeyMatches(DraftKey(a, d), r[DraftKey(a, d)]);
      if e.Locked? && WritesDraft(e.op, a, d) {
        DraftStepIsUnreadOrAsRead(env, m.records, e.op, e.outcomes, a, d, n);
      } else {
        NextSparesDraft(env, m, e, a, d);
      }
    }
  }

  lemma DraftStepIsUnreadOrAsRead(env: Env, r: Records, op: Operation, os: seq<Outcome>, a: string, d: string, n: int)
    requires Sound(r) && WritesDraft(op, a, d) && !SplitsWhileRead(env, r, Locked(op, os), a, d, n)
    requires DraftKey(a, d) in r && ActualRevision(r, a, d) == Ok(n)
    ensures UnreadOrAsRead(r, Step(env, r, op, os).records, a, d, n)
  {
    assert KeyMatches(DraftKey(a, d), r[DraftKey(a, d)]);
    if Plan(env, r, op).Ok? {
      DraftPlanWrites(env, r, op, a, d);
      DraftWritesDo(r, WrittenDraft(env, r, op), n + 1, os);
    }
  }

  // ----- when it is lost, exactly -----

  /** Whoever saves against the revision that was read overwrites what was read. */
  ghost predicate AsRead(r: Records, a: string, d: string, read: DraftAgent, n: int) {
    ActualRevision(r, a, d) == Ok(n) ==> ReadDraft(r, a, d) == Found(read)
  }

  ghost predicate AsReadAt(env: Env, m: Machine, es: seq<Event>, k: nat, a: string, d: string, read: DraftAgent, n: int)
    requires k <= |es|
  {
    AsRead(StateAt(env, m, es, k).records, a, d, read, n)
  }

  /** A draft write puts another draft under the revision that was read: between
      its two files, or from the revision before. */
  predicate OvertakesRead(env: Env, r: Records, e: Event, a: string, d: string, read: DraftAgent, n: int) {
    && e.Locked? && WritesDraft(e.op, a, d) && Plan(env, r, e.op).Ok? && ActualRevision(r, a, d).Ok?
    && Landed(e.outcomes)
    && WrittenDraft(env, r, e.op) != read
    && RevisionLeft(env, r, e.op, e.outcomes, a, d) == n
  }

  lemma NextAsReadExactly(env: Env, m: Machine, e: Event, a: string, d: string, read: DraftAgent, n: int)
    requires Sound(m.records) && AsRead(m.records, a, d, read, n)
    ensures AsRead(Next(env, m, e).records, a, d, read, n) <==> !OvertakesRead(env, m.records, e, a, d, read, n)
  {
    if e.Locked? && WritesDraft(e.op, a, d) {
      if Plan(env, m.records, e.op).Ok? {
        DraftWriteLeaves(env, m.records, e.op, e.outcomes, a, d);
      }
    } else {
      NextSparesDraft(env, m, e, a, d);
      SparedReads(m.records, Next(env, m, e).records, a, d);
    }
  }

  lemma SparedReads(r: Records, s: Records, a: string, d: string)
    requires Sound(r) && Same(r, s, DraftKey(a, d)) && Same(r, s, DraftRevisionKey(a, d))
    ensures ReadDraft(r, a, d) == ReadDraft(s, a, d) && ActualRevision(r, a, d) == ActualRevision(s, a, d)
  {
    assert DraftKey(a, d) in r ==> KeyMatches(DraftKey(a, d), r[DraftKey(a, d)]);
  }

  lemma {:induction false} AsReadUpTo(
    env: Env, m: Machine, es: seq<Event>, k: nat, a: string, d: string, read: DraftAgent, n: int)
    requires Sound(m.records) && RunFresh(env, m, es) && k <= |es| && AsRead(m.records, a, d, read, n)
    requires forall i | 0 <= i < |es| :: !OvertakesRead(env, StateAt(env, m, es, i).records, es[i], a, d, read, n)
    ensures AsReadAt(env, m, es, k, a, d, read, n)
    decreases k
  {
    if k == 0 {
      StateAtEnds(env, m, es);
    } else {
      AsReadUpTo(env, m, es, k - 1, a, d, read, n);
      AsReadOneMore(env, m, es, k - 1, a, d, read, n);
    }
  }

  lemma AsReadOneMore(env: Env, m: Machine, es: seq<Event>, k: nat, a: string, d: string, read: DraftAgent, n: int)
    requires Sound(m.records) && RunFresh(env, m, es) && k < |es| && AsReadAt(env, m, es, k, a, d, read, n)
    ensures AsReadAt(env, m, es, k + 1, a, d, read, n) <==>
            !OvertakesRead(env, StateAt(env, m, es, k).records, es[k], a, d, read, n)
  {
    StateAtSound(env, m, es, k);
    StateAtNext(env, m, es, k);
    NextAsReadExactly(env, StateAt(env, m, es, k), es[k], a, d, read, n);
  }

  /** Lost updates, exactly, over whole runs and for every draft: whatever is saved
      against the revision that was read overwrites what was read if and only if
      no write on the way puts another draft under that revision. */
  lemma UpdatesAreKeptExactly(env: Env, m: Machine, es: seq<Event>, a: string, d: string, read: DraftAgent, n: int)
    requires Sound(m.records) && RunFresh(env, m, es)
    requires ReadDraft(m.records, a, d) == Found(read)
    ensures (forall k | 0 <= k <= |es| :: AsReadAt(env, m, es, k, a, d, read, n)) <==>
            (forall k | 0 <= k < |es| :: !OvertakesRead(env, StateAt(env, m, es, k).records, es[k], a, d, read, n))
  {
    if forall k | 0 <= k < |es| :: !OvertakesRead(env, StateAt(env, m, es, k).records, es[k], a, d, read, n) {
      forall k | 0 <= k <= |es| ensures AsReadAt(env, m, es, k, a, d, read, n) {
        AsReadUpTo(env, m, es, k, a, d, read, n);
      }
    }
    if forall k | 0 <= k <= |es| :: AsReadAt(env, m, es, k, a, d, read, n) {
      forall k | 0 <= k < |es| ensures !OvertakesRead(env, StateAt(env, m, es, k).records, es[k], a, d, read, n) {
        assert AsReadAt(env, m, es, k, a, d, read, n) && AsReadAt(env, m, es, k + 1, a, d, read, n);
        AsReadOneMore(env, m, es, k, a, d, read, n);
      }
    }
  }

  /** For a draft whose revision is kept in a file this comes down to interrupted
      writes: the provision of SaveOverwritesWhatWasRead is exact. */
  lemma FiledUpdatesAreKeptExactly(env: Env, m: Machine, es: seq<Event>, a: string, d: string, read: DraftAgent, n: int)
    requires Sound(m.records) && RunFresh(env, m, es) && DraftRevisionKey(a, d) in m.records
    requires ReadDraft(m.records, a, d) == Found(read) && ReadDraftRevision(m.records, read) == Found(n)
    ensures (forall k | 0 <= k <= |es| :: AsReadAt(env, m, es, k, a, d, read, n)) <==> NoSplitWhileRead(env, m, es, a, d, n)
  {
    assert KeyMatches(DraftKey(a, d), m.records[DraftKey(a, d)]);
    if NoSplitWhileRead(env, m, es, a, d, n) {
      forall k | 0 <= k <= |es| ensures AsReadAt(env, m, es, k, a, d, read, n) {
        UnreadOrAsReadAt(env, m, es, k, a, d, n);
        StateAtSound(env, m, es, k);
        LaterRevisionDiffers(m.records, StateAt(env, m, es, k).records, a, d, read, n);
      }
    }
    if forall k | 0 <= k <= |es| :: AsReadAt(env, m, es, k, a, d, read, n) {
      forall k | 0 <= k < |es| ensures !SplitsWhileRead(env, StateAt(env, m, es, k).records, es[k], a, d, n) {
        assert AsReadAt(env, m, es, k, a, d, read, n) && AsReadAt(env, m, es, k + 1, a, d, read, n);
        StateAtSound(env, m, es, k);
        AsReadOneMore(env, m, es, k, a, d, read, n);
        RevisionFileStays(env, m, es, k, a, d);
      }
    }
  }

  lemma LaterRevisionDiffers(r: Records, s: Records, a: string, d: string, read: DraftAgent, n: int)
    requires Sound(s) && ReadDraft(r, a, d) == Found(read) && UnreadOrAsRead(r, s, a, d, n)
    ensures AsRead(s, a, d, read, n)
  {
    assert DraftKey(a, d) in s ==> KeyMatches(DraftKey(a, d), s[DraftKey(a, d)]);
  }

  lemma RevisionFileStays(env: Env, m: Machine, es: seq<Event>, k: nat, a: string, d: string)
    requires Sound(m.records) && RunFresh(env, m, es) && DraftRevisionKey(a, d) in m.records && k <= |es|
    ensures DraftRevisionKey(a, d) in StateAt(env, m, es, k).records
  {
    StateAtFresh(env, m, es, k);
    RunKeepsSound(env, m, es[..k]);
    assert KeyMatches(DraftRevisionKey(a, d), m.records[DraftRevisionKey(a, d)]);
  }

  /** Only draft operations on that draft touch its two files. */
  lemma NextSparesDraft(env: Env, m: Machine, e: Event, a: string, d: string)
    requires Sound(m.records)
    requires !(e.Locked? && WritesDraft(e.op, a, d))
    ensures Same(m.records, Next(env, m, e).records, DraftKey(a, d))
    ensures Same(m.records, Next(env, m, e).records, DraftRevisionKey(a, d))
  {
    if e.Locked? {
      StepSparesDraft(env, m.records, e.op, e.outcomes, a, d, DraftKey(a, d));
      StepSparesDraft(env, m.records, e.op, e.outcomes, a, d, DraftRevisionKey(a, d));
    } else if e.EndValidation? && e.ticket in m.pending {
      EndStoresOneRecord(env, m, e);
    }
  }

  lemma StepSparesDraft(env: Env, r: Records, op: Operation, os: seq<Outcome>, a: string, d: string, k: StoreKey)
    requires Sound(r) && !WritesDraft(op, a, d)
    requires k == DraftKey(a, d) || k == DraftRevisionKey(a, d)
    ensures Same(r, Step(env, r, op, os).records, k)
  {
    if op.PublishRecord? {
      PublishRecordSpares(r, op.publication, op.expectedDraftRevision, os, k);
    } else if op.SeedVersion? {
      SeedSpares(env, r, op.seed, os, k);
    } else if op.EnsureAuthority? {
      EnsureAuthoritySpares(r, op.seedAgentId, op.expectedVersionId, os, k);
    } else if Plan(env, r, op).Ok? {
      PlanSparesDraft(env, r, op, a, d, k);
      ExecuteSpares(r, Plan(env, r, op).value, os, k);
    }
  }

  lemma PlanSparesDraft(env: Env, r: Records, op: Operation, a: string, d: string, k: StoreKey)
    requires Sound(r) && !WritesDraft(op, a, d)
    requires k == DraftKey(a, d) || k == DraftRevisionKey(a, d)
    requires !op.PublishRecord? && !op.SeedVersion? && !op.EnsureAuthority?
    ensures var plan := Plan(env, r, op);
            plan.Ok? ==> forall w | w in plan.value :: Spares(w, k)
  {
    if op.PublishVersion? {
      PublishPlanSpares(env, r, op.request, k);
    } else if IsDraftOperation(op) {
      OtherDraftSpares(env, r, op, a, d, k);
    } else {
      NoDraftWritten(env, r, op, k);
    }
  }

  lemma OtherDraftSpares(env: Env, r: Records, op: Operation, a: string, d: string, k: StoreKey)
    requires Sound(r) && IsDraftOperation(op) && !WritesDraft(op, a, d)
    requires k == DraftKey(a, d) || k == DraftRevisionKey(a, d)
    ensures var plan := Plan(env, r, op);
            plan.Ok? ==> forall w | w in plan.value :: Spares(w, k)
  {
    if op.UpdateDraft? {
      var dk: StoreKey := DraftKey(op.agentId, op.draftId);
      assert dk in r ==> KeyMatches(dk, r[dk]);
    }
  }

  lemma NoDraftWritten(env: Env, r: Records, op: Operation, k: StoreKey)
    requires !op.PublishRecord? && !op.SeedVersion? && !op.EnsureAuthority? && !op.PublishVersion?
    requires !IsDraftOperation(op) && (k.DraftKey? || k.DraftRevisionKey?)
    ensures var plan := Plan(env, r, op);
            plan.Ok? ==> forall w | w in plan.value :: Spares(w, k)
  {
  }

  /** The provision is needed: interrupt a save between its two files, and a
      save based on the old read overwrites a draft nobody read. */
  lemma SplitWriteLosesUpdate(env: Env, r: Records, old_: DraftAgent, unread: DraftAgent, last: DraftAgent, n: int)
    requires Sound(r)
    requires var k := DraftRevisionKey(old_.agentId, old_.draftId); k in r && r[k] == RevisionFile(n)
    requires ReadDraft(r, old_.agentId, old_.draftId) == Found(old_)
    requires unread.agentId == last.agentId == old_.agentId && unread.draftId == last.draftId == old_.draftId
    ensures var split := Step(env, r, SaveDraft(unread, n), [Done, FailedBefore]);
            && split.reply == Rejected(WriteFailed)
            && ReadDraft(split.records, old_.agentId, old_.draftId) == Found(unread)
            && Step(env, split.records, SaveDraft(last, n), []).reply.Accepted?
  {
    assert KeyMatches(DraftRevisionKey(old_.agentId, old_.draftId), RevisionFile(n));
    var ws := DraftWrites(unread, n + 1);
    assert ws[1..] == [ws[1]];
    ExecuteOne(Apply(r, ws[0], Done), ws[1], [FailedBefore]);
    var split := Step(env, r, SaveDraft(unread, n), [Done, FailedBefore]).records;
    var ws2 := DraftWrites(last, n + 1);
    assert ws2[1..] == [ws2[1]];
    ExecuteOne(Apply(split, ws2[0], Done), ws2[1], []);
  }

  /** get_draft_record reads the draft and the revision without the lock. If a
      save falls between the two reads, the pair it returns belongs to no state,
      and a save based on it overwrites the draft that was not read. */
  lemma UnlockedReadMayMix(env: Env, r: Records, old_: DraftAgent, unread: DraftAgent, last: DraftAgent, n: int)
    requires Sound(r)
    requires ReadDraft(r, old_.agentId, old_.draftId) == Found(old_) && ReadDraftRevision(r, old_) == Found(n)
    requires unread.agentId == last.agentId == old_.agentId && unread.draftId == last.draftId == old_.draftId
    ensures var between := Step(env, r, SaveDraft(unread, n), []).records;
            && ReadDraftRevision(between, old_) == Found(n + 1)
            && ReadDraft(between, old_.agentId, old_.draftId) == Found(unread)
            && Step(env, between, SaveDraft(last, n + 1), []).reply.Accepted?
  {
    assert KeyMatches(DraftKey(old_.agentId, old_.draftId), r[DraftKey(old_.agentId, old_.draftId)]);
    var ws := DraftWrites(unread, n + 1);
    assert ws[1..] == [ws[1]];
    ExecuteOne(Apply(r, ws[0], Done), ws[1], []);
    var between := Step(env, r, SaveDraft(unread, n), []).records;
    var ws2 := DraftWrites(last, n + 2);
    assert ws2[1..] == [ws2[1]];
    ExecuteOne(Apply(between, ws2[0], Done), ws2[1], []);
  }

  /** A draft write that reaches the draft file. */
  predicate LandsOnDraft(env: Env, r: Records, e: Event, a: string, d: string) {
    e.Locked? && WritesDraft(e.op, a, d) && Plan(env, r, e.op).Ok? && Landed(e.outcomes)
  }

  /** If no draft write lands between its two reads, a read without the lock finds
      a pair that belongs to the state of the first read, and of the second. */
  lemma {:induction false} UnlockedReadIsAtomic(env: Env, m: Machine, es: seq<Event>, a: string, d: string, read: DraftAgent)
    requires Sound(m.records) && RunFresh(env, m, es) && ReadDraft(m.records, a, d) == Found(read)
    requires forall k | 0 <= k < |es| :: !LandsOnDraft(env, StateAt(env, m, es, k).records, es[k], a, d)
    ensures var later := Run(env, m, es).records;
            && ReadDraft(later, a, d) == Found(read)
            && ReadDraftRevision(later, read) == ReadDraftRevision(m.records, read)
  {
    DraftUntouchedUpTo(env, m, es, |es|, a, d);
    StateAtEnds(env, m, es);
    assert KeyMatches(DraftKey(a, d), m.records[DraftKey(a, d)]);
  }

  lemma {:induction false} DraftUntouchedUpTo(env: Env, m: Machine, es: seq<Event>, k: nat, a: string, d: string)
    requires Sound(m.records) && RunFresh(env, m, es) && k <= |es|
    requires forall i | 0 <= i < |es| :: !LandsOnDraft(env, StateAt(env, m, es, i).records, es[i], a, d)
    ensures Same(m.records, StateAt(env, m, es, k).records, DraftKey(a, d))
    ensures Same(m.records, StateAt(env, m, es, k).records, DraftRevisionKey(a, d))
    decreases k
  {
    if k == 0 {
      StateAtEnds(env, m, es);
    } else {
      DraftUntouchedUpTo(env, m, es, k - 1, a, d);
      StateAtSound(env, m, es, k - 1);
      StateAtNext(env, m, es, k - 1);
      DraftUntouched(env, StateAt(env, m, es, k - 1), es[k - 1], a, d);
    }
  }

  lemma DraftUntouched(env: Env, m: Machine, e: Event, a: string, d: string)
    requires Sound(m.records) && !LandsOnDraft(env, m.records, e, a, d)
    ensures Same(m.records, Next(env, m, e).records, DraftKey(a, d))
    ensures Same(m.records, Next(env, m, e).records, DraftRevisionKey(a, d))
  {
    if e.Locked? && WritesDraft(e.op, a, d) {
      if Plan(env, m.records, e.op).Ok? {
        DraftWriteLeaves(env, m.records, e.op, e.outcomes, a, d);
      }
    } else {
      NextSparesDraft(env, m, e, a, d);
    }
  }

  /** A draft write that reaches the revision file as well. */
  predicate LandsOnRevision(env: Env, r: Records, e: Event, a: string, d: string) {
    LandsOnDraft(env, r, e, a, d) && !SplitsDraftWrite(e.outcomes)
  }

  ghost predicate NoRevisionLands(env: Env, m: Machine, es: seq<Event>, n: nat, a: string, d: string)
    requires n <= |es|
  {
    forall k | 0 <= k < n :: !LandsOnRevision(env, StateAt(env, m, es, k).records, es[k], a, d)
  }

  /** For a draft with a revision file this is exact: the pair belongs to the state
      of the first read if and only if no draft write between the two reads reached
      the revision. */
  lemma UnlockedReadIsAtomicExactly(env: Env, m: Machine, es: seq<Event>, a: string, d: string, read: DraftAgent)
    requires Sound(m.records) && RunFresh(env, m, es)
    requires DraftRevisionKey(a, d) in m.records && ReadDraft(m.records, a, d) == Found(read)
    ensures ReadDraftRevision(Run(env, m, es).records, read) == ReadDraftRevision(m.records, read) <==>
            NoRevisionLands(env, m, es, |es|, a, d)
  {
    assert KeyMatches(DraftKey(a, d), m.records[DraftKey(a, d)]);
    RevisionUpTo(env, m, es, |es|, a, d);
    StateAtEnds(env, m, es);
  }

  /** The revision has risen exactly if a draft write has reached it. */
  ghost predicate RevisionTracks(env: Env, m: Machine, es: seq<Event>, k: nat, a: string, d: string)
    requires k <= |es|
  {
    var key, s := DraftRevisionKey(a, d), StateAt(env, m, es, k).records;
    && RevisionAt(m.records, a, d) && RevisionAt(s, a, d)
    && m.records[key].revision <= s[key].revision
    && (m.records[key].revision == s[key].revision <==> NoRevisionLands(env, m, es, k, a, d))
  }

  lemma {:induction false} RevisionUpTo(env: Env, m: Machine, es: seq<Event>, k: nat, a: string, d: string)
    requires Sound(m.records) && RunFresh(env, m, es) && DraftRevisionKey(a, d) in m.records && k <= |es|
    ensures RevisionTracks(env, m, es, k, a, d)
    decreases k
  {
    if k == 0 {
      assert KeyMatches(DraftRevisionKey(a, d), m.records[DraftRevisionKey(a, d)]);
      RevisionAtStart(env, m, es, a, d);
    } else {
      RevisionUpTo(env, m, es, k - 1, a, d);
      RevisionOneMore(env, m, es, k - 1, a, d);
    }
  }

  lemma RevisionAtStart(env: Env, m: Machine, es: seq<Event>, a: string, d: string)
    requires RevisionAt(m.records, a, d)
    ensures RevisionTracks(env, m, es, 0, a, d)
  {
    StateAtEnds(env, m, es);
  }

  lemma RevisionOneMore(env: Env, m: Machine, es: seq<Event>, k: nat, a: string, d: string)
    requires Sound(m.records) && RunFresh(env, m, es) && k < |es| && RevisionTracks(env, m, es, k, a, d)
    ensures RevisionTracks(env, m, es, k + 1, a, d)
  {
    StateAtSound(env, m, es, k);
    StateAtNext(env, m, es, k);
    RevisionRises(env, StateAt(env, m, es, k), es[k], a, d);
    NoneMore(env, m, es, k, a, d);
  }

  lemma NoneMore(env: Env, m: Machine, es: seq<Event>, k: nat, a: string, d: string)
    requires k < |es|
    ensures NoRevisionLands(env, m, es, k + 1, a, d) <==>
            NoRevisionLands(env, m, es, k, a, d) && !LandsOnRevision(env, StateAt(env, m, es, k).records, es[k], a, d)
  {
  }

  predicate RevisionAt(r: Records, a: string, d: string) {
    DraftRevisionKey(a, d) in r && r[DraftRevisionKey(a, d)].RevisionFile? && r[DraftRevisionKey(a, d)].revision >= 1
  }

  lemma RevisionRises(env: Env, m: Machine, e: Event, a: string, d: string)
    requires Sound(m.records) && RevisionAt(m.records, a, d)
    ensures var key, s := DraftRevisionKey(a, d), Next(env, m, e).records;
            && RevisionAt(s, a, d)
            && s[key].revision == m.records[key].revision + if LandsOnRevision(env, m.records, e, a, d) then 1 else 0
  {
    var r := m.records;
    assert KeyMatches(DraftKey(a, d), r[DraftKey(a, d)]);
    if LandsOnDraft(env, r, e, a, d) {
      DraftPlanWrites(env, r, e.op, a, d);
      DraftWritesDo(r, WrittenDraft(env, r, e.op), ActualRevision(r, a, d).value + 1, e.outcomes);
    } else {
      DraftUntouched(env, m, e, a, d);
    }
  }
}
