/** What every locked body of the store keeps, whichever of its writes raises,
    and what only ever moves forward from one state to the next. */
module StoreInvariants {
  import opened Text
  import opened StorePaths
  import opened StoreRecords
  import opened StoreOperations
  import opened ManifestTree

  // ----- one state -----

  /** An active pointer that can be read names a version that can be read. */
  ghost predicate PointersResolve(env: Env, r: Records) {
    forall a | ReadActive(r, a).Found? ::
      && ReadActive(r, a).value.agentId == a
      && ReadVersion(env.parse, r, a, ReadActive(r, a).value.versionId).Found?
  }

  /** Files hold the kind of record their path says, under the id it says. */
  ghost predicate KeyMatches(k: StoreKey, c: Content) {
    match k
    case DraftKey(a, d) => c.DraftFile? && c.draft.agentId == a && c.draft.draftId == d
    case DraftRevisionKey(a, d) => c.RevisionFile? && c.revision >= 1
    case ConnectionKey(id, member) =>
      IsPlainName(id) && (member == CONNECTION ==> c.ConnectionFile? && c.connection.connectionId == id)
    case ToolSourceKey(id) => IsPlainName(id) && c.ToolSourceFile? && c.source.sourceId == id
    case ToolSourceValidationKey(s, v) =>
      c.ValidationFile? && c.validation.sourceId == s && c.validation.validationId == v
    case SeedAuthorityKey => c.AuthorityFile?
    case _ => true
  }

  /** A revision file is only ever written after its draft. */
  ghost predicate RevisionsHaveDrafts(r: Records) {
    forall a, d | DraftRevisionKey(a, d) in r :: DraftKey(a, d) in r
  }

  ghost predicate Sound(r: Records) {
    && RevisionsHaveDrafts(r)
    && forall k | k in r :: KeyMatches(k, r[k])
  }

  // ----- two states -----

  /** Nothing that lies in a version directory ever changes. */
  ghost predicate VersionFilesStay(r: Records, s: Records) {
    forall k | k in r && k.VersionKey? :: k in s && s[k] == r[k]
  }

  /** Version files stay, drafts never disappear, revisions and tool source
      revisions never go back, and a tool source revision never names two
      configurations. */
  ghost predicate Evolves(r: Records, s: Records) {
    && VersionFilesStay(r, s)
    && (forall a, d | DraftKey(a, d) in r :: DraftKey(a, d) in s)
    && (forall a, d | DraftRevisionKey(a, d) in r && r[DraftRevisionKey(a, d)].RevisionFile? ::
          && DraftRevisionKey(a, d) in s && s[DraftRevisionKey(a, d)].RevisionFile?
          && s[DraftRevisionKey(a, d)].revision >= r[DraftRevisionKey(a, d)].revision)
    && (forall id | ReadToolSource(r, id).Found? :: ToolSourceEvolves(r, s, id))
  }

  ghost predicate ToolSourceEvolves(r: Records, s: Records, id: string)
    requires ReadToolSource(r, id).Found?
  {
    && ReadToolSource(s, id).Found?
    && var old_, new_ := ReadToolSource(r, id).value, ReadToolSource(s, id).value;
    && old_.configRevision <= new_.configRevision
    && (old_.configRevision == new_.configRevision ==> old_.config == new_.config)
  }

  ghost predicate VersionDeclares(env: Env, r: Records, a: string, v: string, id: string) {
    && ReadVersion(env.parse, r, a, v).Found?
    && id in ManifestConnectionIds(env.load, ReadVersion(env.parse, r, a, v).value.bundle.agentYaml)
  }

  /** Every shared connection a readable version refers to stays. */
  ghost predicate KeepsConnections(env: Env, r: Records, s: Records) {
    forall a, v, id | VersionDeclares(env, r, a, v, id) && ReadConnection(r, id).Found? :: ReadConnection(s, id).Found?
  }

  ghost predicate Forward(env: Env, r: Records, s: Records) {
    Evolves(r, s) && KeepsConnections(env, r, s)
  }

  lemma ForwardTransitive(env: Env, r: Records, s: Records, t: Records)
    requires Forward(env, r, s) && Forward(env, s, t)
    ensures Forward(env, r, t)
  {
    forall id | ReadToolSource(r, id).Found? ensures ToolSourceEvolves(r, t, id) {
      assert ToolSourceEvolves(r, s, id) && ToolSourceEvolves(s, t, id);
    }
    forall a, v, id | VersionDeclares(env, r, a, v, id) && ReadConnection(r, id).Found?
      ensures ReadConnection(t, id).Found?
    {
      ReadableStays(env, r, s, a, v);
      assert VersionDeclares(env, s, a, v, id);
    }
  }

  lemma ReadableStays(env: Env, r: Records, s: Records, a: string, v: string)
    requires VersionFilesStay(r, s) && ReadVersion(env.parse, r, a, v).Found?
    ensures ReadVersion(env.parse, s, a, v) == ReadVersion(env.parse, r, a, v)
  {
    var k: StoreKey := VersionKey(a, v, PUBLICATION);
    assert k in r && k in s && s[k] == r[k];
  }

  // ----- one write outside a version directory -----

  /** When a write may be made in a state. */
  ghost predicate Fits(env: Env, r: Records, w: Write) {
    match w
    case DropConnection(id) => forall a, v :: !VersionDeclares(env, r, a, v, id)
    case Put(k, c, atomic) =>
      && KeyMatches(k, c)
      && (atomic || k.ActivePointerKey?)
      && match k
         case VersionKey(_, _, _) => false
         case DraftRevisionKey(a, d) =>
           && DraftKey(a, d) in r
           && (k in r && r[k].RevisionFile? ==> r[k].revision <= c.revision)
         case ActivePointerKey(a) =>
           c.PointerFile? && c.active.agentId == a && ReadVersion(env.parse, r, a, c.active.versionId).Found?
         case ToolSourceKey(id) =>
           ReadToolSource(r, id).Found? ==> ToolSourceEvolves(r, r[k := c], id)
         case _ => true
  }

  lemma FitsKeepsSound(env: Env, r: Records, w: Write, o: Outcome)
    requires Sound(r) && Fits(env, r, w)
    ensures Sound(Apply(r, w, o))
  {
  }

  lemma FitsKeepsPointers(env: Env, r: Records, w: Write, o: Outcome)
    requires PointersResolve(env, r) && Fits(env, r, w)
    ensures PointersResolve(env, Apply(r, w, o))
  {
    var s := Apply(r, w, o);
    assert VersionFilesStay(r, s);
    forall a | ReadActive(s, a).Found?
      ensures ReadActive(s, a).value.agentId == a
      ensures ReadVersion(env.parse, s, a, ReadActive(s, a).value.versionId).Found?
    {
      if ReadActive(r, a) != ReadActive(s, a) {
        assert w.Put? && w.key == ActivePointerKey(a);
      }
      ReadableStays(env, r, s, a, ReadActive(s, a).value.versionId);
    }
  }

  lemma FitsEvolves(env: Env, r: Records, w: Write, o: Outcome)
    requires Sound(r) && Fits(env, r, w)
    ensures Forward(env, r, Apply(r, w, o))
  {
    FitsKeepsToolSources(env, r, w, o);
    FitsKeepsConnections(env, r, w, o);
  }

  lemma FitsKeepsToolSources(env: Env, r: Records, w: Write, o: Outcome)
    requires Sound(r) && Fits(env, r, w)
    ensures forall id | ReadToolSource(r, id).Found? :: ToolSourceEvolves(r, Apply(r, w, o), id)
  {
    forall id | ReadToolSource(r, id).Found? ensures ToolSourceEvolves(r, Apply(r, w, o), id) {
      if w.Put? && w.key == ToolSourceKey(id) {
        assert ToolSourceEvolves(r, r[w.key := w.content], id);
      }
    }
  }

  lemma FitsKeepsConnections(env: Env, r: Records, w: Write, o: Outcome)
    requires Sound(r) && Fits(env, r, w)
    ensures KeepsConnections(env, r, Apply(r, w, o))
  {
    var s := Apply(r, w, o);
    forall a, v, id | VersionDeclares(env, r, a, v, id) && ReadConnection(r, id).Found?
      ensures ReadConnection(s, id).Found?
    {
      ConnectionStays(r, w, o, id);
    }
  }

  lemma ConnectionStays(r: Records, w: Write, o: Outcome, id: string)
    requires ReadConnection(r, id).Found?
    requires w.Put? ==> KeyMatches(w.key, w.content) && (w.atomic || w.key.ActivePointerKey?)
    requires w.DropConnection? ==> w.connectionId != id
    ensures ReadConnection(Apply(r, w, o), id).Found?
  {
    var k: StoreKey := ConnectionKey(id, CONNECTION);
    assert k in Apply(r, w, o);
  }

  // ----- a sequence of writes -----

  ghost predicate FitsAll(env: Env, r: Records, ws: seq<Write>)
    decreases |ws|
  {
    ws == [] || (Fits(env, r, ws[0]) && FitsAll(env, Apply(r, ws[0], Done), ws[1..]))
  }

  /** What every locked body does to a sound store. */
  ghost predicate Keeps(env: Env, r: Records, s: Records) {
    Sound(s) && Forward(env, r, s) && (PointersResolve(env, r) ==> PointersResolve(env, s))
  }

  lemma KeepsTransitive(env: Env, r: Records, s: Records, t: Records)
    requires Keeps(env, r, s) && Keeps(env, s, t)
    ensures Keeps(env, r, t)
  {
    ForwardTransitive(env, r, s, t);
  }

  lemma {:induction false} ExecuteKeepsSound(env: Env, r: Records, ws: seq<Write>, os: seq<Outcome>)
    requires Sound(r) && FitsAll(env, r, ws)
    ensures Keeps(env, r, Execute(r, ws, os).records)
    decreases |ws|
  {
    if ws == [] {
      ForwardReflexive(env, r);
    } else {
      var o := HeadOutcome(os);
      var now := Apply(r, ws[0], o);
      FitsKeepsSound(env, r, ws[0], o);
      FitsEvolves(env, r, ws[0], o);
      if PointersResolve(env, r) {
        FitsKeepsPointers(env, r, ws[0], o);
      }
      if o.Done? {
        ExecuteKeepsSound(env, now, ws[1..], TailOutcomes(os));
        KeepsTransitive(env, r, now, Execute(r, ws, os).records);
      }
    }
  }

  // ----- publishing -----

  predicate InDir(k: StoreKey, a: string, v: string) {
    k.VersionKey? && k.agentId == a && k.versionId == v
  }

  ghost predicate ReadNew(s: Records, v: PublishedVersion) {
    forall parse :: ReadVersion(parse, s, v.agentId, v.versionId) == Found(v)
  }

  ghost predicate SparesAllBut(r: Records, s: Records, a: string, v: string) {
    forall x | !InDir(x, a, v) && x != ActivePointerKey(a) :: Same(r, s, x)
  }

  /** A new version directory and the pointer after it: whatever raises, the files
      outside are as they were, and a new pointer names the new version. */
  lemma PublicationSpares(r: Records, v: PublishedVersion, active: ActiveVersion, os: seq<Outcome>)
    requires active.agentId == v.agentId
    ensures var s := Execute(r, VersionWrites(v) + [PointerWrite(active)], os).records;
            var k := ActivePointerKey(v.agentId);
            && SparesAllBut(r, s, v.agentId, v.versionId)
            && (Same(r, s, k) || (k in s && s[k] == Torn) || (k in s && s[k] == PointerFile(active) && ReadNew(s, v)))
  {
    var files := Execute(r, VersionWrites(v), os);
    var s := Execute(r, VersionWrites(v) + [PointerWrite(active)], os).records;
    VersionWritesStayInside(v);
    ExecuteAppend(r, VersionWrites(v), [PointerWrite(active)], os);
    forall x: StoreKey | !InDir(x, v.agentId, v.versionId) ensures Same(r, files.records, x) {
      ExecuteSpares(r, VersionWrites(v), os, x);
    }
    if files.ok {
      ExecuteOk(r, VersionWrites(v), os);
      PublicationIsLast(v, r);
      ExecuteOne(files.records, PointerWrite(active), files.rest);
    }
  }

  lemma PublicationKeepsSound(env: Env, r: Records, v: PublishedVersion, active: ActiveVersion, os: seq<Outcome>)
    requires Sound(r) && !VersionDirExists(r, v.agentId, v.versionId)
    requires active.agentId == v.agentId && active.versionId == v.versionId
    ensures Keeps(env, r, Execute(r, VersionWrites(v) + [PointerWrite(active)], os).records)
  {
    var s := Execute(r, VersionWrites(v) + [PointerWrite(active)], os).records;
    PublicationSpares(r, v, active, os);
    SparedKeepsForward(env, r, s, v.agentId, v.versionId);
    SparedKeepsSound(r, s, v.agentId, v.versionId);
    if PointersResolve(env, r) {
      NewPointerResolves(env, r, s, v, active);
    }
  }

  lemma SparedKeepsSound(r: Records, s: Records, a: string, v: string)
    requires Sound(r) && SparesAllBut(r, s, a, v)
    ensures Sound(s)
  {
    forall k | k in s ensures KeyMatches(k, s[k]) {
      if !InDir(k, a, v) && k != ActivePointerKey(a) {
        assert Same(r, s, k);
      }
    }
    forall b, d | DraftRevisionKey(b, d) in s ensures DraftKey(b, d) in s {
      assert Same(r, s, DraftRevisionKey(b, d)) && Same(r, s, DraftKey(b, d));
    }
  }

  lemma SparedVersions(r: Records, s: Records, a: string, v: string)
    requires SparesAllBut(r, s, a, v) && !VersionDirExists(r, a, v)
    ensures VersionFilesStay(r, s)
  {
    forall k | k in r && k.VersionKey? ensures k in s && s[k] == r[k] {
      assert InDir(k, a, v) ==> VersionDirExists(r, a, v);
      assert Same(r, s, k);
    }
  }

  lemma SparedKeepsForward(env: Env, r: Records, s: Records, a: string, v: string)
    requires SparesAllBut(r, s, a, v) && !VersionDirExists(r, a, v)
    ensures Forward(env, r, s)
  {
    SparedVersions(r, s, a, v);
    forall b, d ensures Same(r, s, DraftKey(b, d)) && Same(r, s, DraftRevisionKey(b, d)) {
    }
    forall id ensures ReadToolSource(s, id) == ReadToolSource(r, id) && ReadConnection(s, id) == ReadConnection(r, id) {
      assert Same(r, s, ToolSourceKey(id)) && Same(r, s, ConnectionKey(id, CONNECTION));
    }
  }

  lemma NewPointerResolves(env: Env, r: Records, s: Records, v: PublishedVersion, active: ActiveVersion)
    requires PointersResolve(env, r) && VersionFilesStay(r, s)
    requires SparesAllBut(r, s, v.agentId, v.versionId)
    requires active.agentId == v.agentId && active.versionId == v.versionId
    requires var k := ActivePointerKey(v.agentId);
             Same(r, s, k) || (k in s && s[k] == Torn) || (k in s && s[k] == PointerFile(active) && ReadNew(s, v))
    ensures PointersResolve(env, s)
  {
    forall a | ReadActive(s, a).Found?
      ensures ReadActive(s, a).value.agentId == a
      ensures ReadVersion(env.parse, s, a, ReadActive(s, a).value.versionId).Found?
    {
      if Same(r, s, ActivePointerKey(a)) {
        assert ReadActive(r, a) == ReadActive(s, a);
        ReadableStays(env, r, s, a, ReadActive(s, a).value.versionId);
      } else {
        assert a == v.agentId;
        assert ReadVersion(env.parse, s, v.agentId, v.versionId) == Found(v);
      }
    }
  }

  // ----- the operations -----

  predicate IsDraftOperation(op: Operation) {
    op.CreateDraft? || op.SaveDraft? || op.UpdateDraft?
  }

  predicate IsConnectionOperation(op: Operation) {
    op.CreateConnection? || op.UpdateConnection? || op.ArchiveConnection? || op.RestoreConnection?
  }

  predicate IsToolSourceOperation(op: Operation) {
    op.CreateToolSource? || op.UpdateToolSource? || op.ArchiveToolSource? || op.RestoreToolSource?
  }

  lemma PlanFits(env: Env, r: Records, op: Operation)
    requires Sound(r) && !op.PublishRecord? && !op.SeedVersion? && !op.EnsureAuthority? && !op.PublishVersion?
    ensures Plan(env, r, op).Ok? ==> FitsAll(env, r, Plan(env, r, op).value)
  {
    if Plan(env, r, op).Ok? {
      if IsDraftOperation(op) {
        DraftOperationFits(env, r, op);
      } else if IsConnectionOperation(op) {
        ConnectionOperationFits(env, r, op);
      } else if IsToolSourceOperation(op) {
        ToolSourceOperationFits(env, r, op);
      } else {
        OtherOperationFits(env, r, op);
      }
    }
  }

  lemma DraftOperationFits(env: Env, r: Records, op: Operation)
    requires Sound(r) && IsDraftOperation(op) && Plan(env, r, op).Ok?
    ensures FitsAll(env, r, Plan(env, r, op).value)
  {
    match op
    case CreateDraft(d) => DraftPlanFits(env, r, d);
    case SaveDraft(d, n) => DraftPlanFits(env, r, d);
    case UpdateDraft(a, d, changes, audit) =>
      DraftPlanFits(env, r, UpdatedDraft(ReadDraft(r, a, d).value, changes, audit));
  }

  lemma ConnectionOperationFits(env: Env, r: Records, op: Operation)
    requires Sound(r) && IsConnectionOperation(op) && Plan(env, r, op).Ok?
    ensures FitsAll(env, r, Plan(env, r, op).value)
  {
    var w := Plan(env, r, op).value[0];
    assert Plan(env, r, op).value == [w, AuditWrite(op.audit)];
    WriteThenAuditFits(env, r, w, op.audit);
  }

  lemma ToolSourceOperationFits(env: Env, r: Records, op: Operation)
    requires Sound(r) && IsToolSourceOperation(op) && Plan(env, r, op).Ok?
    ensures FitsAll(env, r, Plan(env, r, op).value)
  {
    var w := Plan(env, r, op).value[0];
    assert Plan(env, r, op).value == [w, AuditWrite(op.audit)];
    WriteThenAuditFits(env, r, w, op.audit);
  }

  lemma OtherOperationFits(env: Env, r: Records, op: Operation)
    requires Sound(r) && (op.ActivateVersion? || op.DeleteConnection? || op.RecordAudit?)
    requires Plan(env, r, op).Ok?
    ensures FitsAll(env, r, Plan(env, r, op).value)
  {
    match op
    case ActivateVersion(a) => OneWriteFits(env, r, PointerWrite(a.activation));
    case DeleteConnection(id, reason, audit) => DeletePlanFits(env, r, id, reason, audit);
    case RecordAudit(audit) => OneWriteFits(env, r, AuditWrite(audit));
  }

  lemma OneWriteFits(env: Env, r: Records, w: Write)
    requires Fits(env, r, w)
    ensures FitsAll(env, r, [w])
  {
    assert FitsAll(env, Apply(r, w, Done), [w][1..]);
  }

  lemma WriteThenAuditFits(env: Env, r: Records, w: Write, audit: OperationAudit)
    requires Fits(env, r, w)
    ensures FitsAll(env, r, [w, AuditWrite(audit)])
  {
    OneWriteFits(env, Apply(r, w, Done), AuditWrite(audit));
    assert [w, AuditWrite(audit)][1..] == [AuditWrite(audit)];
  }

  lemma DraftPlanFits(env: Env, r: Records, draft: DraftAgent)
    requires Sound(r)
    ensures WriteDraftPlan(r, draft).Ok? ==> FitsAll(env, r, WriteDraftPlan(r, draft).value)
  {
    if WriteDraftPlan(r, draft).Ok? {
      var ws := WriteDraftPlan(r, draft).value;
      var k := DraftRevisionKey(draft.agentId, draft.draftId);
      assert Fits(env, r, ws[0]);
      assert Fits(env, Apply(r, ws[0], Done), ws[1]);
      OneWriteFits(env, Apply(r, ws[0], Done), ws[1]);
      assert ws[1..] == [ws[1]];
    }
  }

  lemma DeletePlanFits(env: Env, r: Records, id: string, reason: string, audit: OperationAudit)
    requires Sound(r)
    ensures var plan := DeleteConnectionPlan(env, r, id, reason, audit);
            plan.Ok? ==> FitsAll(env, r, plan.value)
  {
    if DeleteConnectionPlan(env, r, id, reason, audit).Ok? {
      var c := ReadConnection(r, id).value;
      var key: StoreKey := ConnectionKey(id, CONNECTION);
      assert KeyMatches(key, r[key]);
      NoVersionRefers(env, r, c);
      AuditThenDropFits(env, r, audit, id);
    }
  }

  lemma AuditThenDropFits(env: Env, r: Records, audit: OperationAudit, id: string)
    requires Fits(env, r, DropConnection(id))
    ensures FitsAll(env, r, [AuditWrite(audit), DropConnection(id)])
  {
    var now := Apply(r, AuditWrite(audit), Done);
    forall a, v ensures !VersionDeclares(env, now, a, v, id) {
      assert !VersionDeclares(env, r, a, v, id);
    }
    OneWriteFits(env, now, DropConnection(id));
    assert [AuditWrite(audit), DropConnection(id)][1..] == [DropConnection(id)];
  }

  lemma NoVersionRefers(env: Env, r: Records, c: ModelConnection)
    requires DeletionBlockers(env, r, c) == []
    ensures forall a, v :: !VersionDeclares(env, r, a, v, c.connectionId)
  {
    forall a, v ensures !VersionDeclares(env, r, a, v, c.connectionId) {
      assert !VersionRefersTo(env, r, VersionKey(a, v, PUBLICATION), c.connectionId);
    }
  }

  // ----- every step -----

  /** Whatever happens to its writes, a locked body leaves a sound store, moves it
      forward, and leaves no readable pointer without a readable version. */
  lemma StepKeepsSound(env: Env, r: Records, op: Operation, os: seq<Outcome>)
    requires Sound(r) && FreshId(r, op)
    ensures Sound(Step(env, r, op, os).records)
    ensures Forward(env, r, Step(env, r, op, os).records)
    ensures PointersResolve(env, r) ==> PointersResolve(env, Step(env, r, op, os).records)
  {
    match op
    case PublishRecord(p, n) => PublishRecordKeepsSound(env, r, p, n, os);
    case SeedVersion(q) => SeedKeepsSound(env, r, q, os);
    case EnsureAuthority(a, v) => EnsureAuthorityKeepsSound(env, r, a, v, os);
    case PublishVersion(q) => PublishKeepsSound(env, r, q, os);
    case _ =>
      PlanFits(env, r, op);
      CommitKeepsSound(env, r, Plan(env, r, op), os);
  }

  lemma ForwardReflexive(env: Env, r: Records)
    ensures Forward(env, r, r)
  {
  }

  lemma CommitKeepsSound(env: Env, r: Records, plan: Result<seq<Write>, Error>, os: seq<Outcome>)
    requires Sound(r) && (plan.Ok? ==> FitsAll(env, r, plan.value))
    ensures Keeps(env, r, Commit(r, plan, os).records)
  {
    if plan.Ok? {
      ExecuteKeepsSound(env, r, plan.value, os);
    } else {
      ForwardReflexive(env, r);
    }
  }

  lemma PublishKeepsSound(env: Env, r: Records, q: PublishRequest, os: seq<Outcome>)
    requires Sound(r) && !VersionDirExists(r, q.agentId, q.versionId)
    ensures Keeps(env, r, Commit(r, PublishVersionPlan(env, r, q), os).records)
  {
    if PublishVersionPlan(env, r, q).Ok? {
      PublicationKeepsSound(env, r, VersionFrom(q, ReadDraft(r, q.agentId, q.draftId).value), PointerFor(q), os);
    } else {
      ForwardReflexive(env, r);
    }
  }

  lemma EnsureAuthorityKeepsSound(env: Env, r: Records, a: string, v: string, os: seq<Outcome>)
    requires Sound(r)
    ensures Keeps(env, r, EnsureAuthorityStep(r, a, v, os).records)
  {
    ForwardReflexive(env, r);
    if ReadActive(r, a).Found? {
      var w := AuthorityWrite(a, Some(ReadActive(r, a).value.versionId));
      OneWriteFits(env, r, w);
      CommitKeepsSound(env, r, Ok([w]), os);
    }
  }

  /** The second locked body of a tool source validation. */
  lemma FinishValidationKeepsSound(
    env: Env, r: Records, captured: ToolSource, contracts: seq<Tree>, passed: bool, id: string, os: seq<Outcome>)
    requires Sound(r)
    ensures Keeps(env, r, Commit(r, FinishValidationPlan(r, captured, contracts, passed, id), os).records)
  {
    var plan := FinishValidationPlan(r, captured, contracts, passed, id);
    if plan.Ok? {
      OneWriteFits(env, r, plan.value[0]);
    }
    CommitKeepsSound(env, r, plan, os);
  }

  lemma SeedKeepsSound(env: Env, r: Records, q: PublishRequest, os: seq<Outcome>)
    requires Sound(r) && !VersionDirExists(r, q.agentId, q.versionId)
    ensures Keeps(env, r, SeedStep(env, r, q, os).records)
  {
    ForwardReflexive(env, r);
    if ActiveAgents(r) == {} && SeedAuthorityKey !in r {
      var reserve := AuthorityWrite(q.agentId, None);
      OneWriteFits(env, r, reserve);
      ExecuteKeepsSound(env, r, [reserve], os);
      var x := Execute(r, [reserve], os);
      if x.ok {
        ExecuteOne(r, reserve, os);
        assert !VersionDirExists(x.records, q.agentId, q.versionId);
        SeedPublicationKeepsSound(env, x.records, q, x.rest);
        KeepsTransitive(env, r, x.records, SeedStep(env, r, q, os).records);
      }
    }
  }

  function SeedWrites(env: Env, r: Records, q: PublishRequest): Result<seq<Write>, Error> {
    match PublishPlan(env, r, q)
    case Err(e) => Err(e)
    case Ok(ws) => Ok(ws + [AuthorityWrite(q.agentId, Some(q.versionId))])
  }

  lemma SeedPublicationKeepsSound(env: Env, r: Records, q: PublishRequest, os: seq<Outcome>)
    requires Sound(r) && !VersionDirExists(r, q.agentId, q.versionId)
    ensures Keeps(env, r, Commit(r, SeedWrites(env, r, q), os).records)
  {
    ForwardReflexive(env, r);
    var plan := PublishPlan(env, r, q);
    if plan.Ok? {
      var done := AuthorityWrite(q.agentId, Some(q.versionId));
      PublicationKeepsSound(env, r, VersionFrom(q, ReadDraft(r, q.agentId, q.draftId).value), PointerFor(q), os);
      ExecuteAppend(r, plan.value, [done], os);
      var x := Execute(r, plan.value, os);
      OneWriteFits(env, x.records, done);
      ExecuteKeepsSound(env, x.records, [done], x.rest);
      if x.ok {
        KeepsTransitive(env, r, x.records, Execute(x.records, [done], x.rest).records);
      }
    }
  }

  /** A prepared publication is all or nothing: either the version and the
      pointer are both in place, or every file is as it was. */
  lemma PublishRecordIsAtomic(r: Records, p: PublicationRecord, expectedDraftRevision: int, os: seq<Outcome>)
    ensures var after := PublishRecordStep(r, p, expectedDraftRevision, os);
            var v := p.version;
            if after.reply.Accepted? then
              && after.records == ApplyAll(r, VersionWrites(v))[ActivePointerKey(v.agentId) := PointerFile(p.activation)]
              && ReadNew(after.records, v)
              && ReadActive(after.records, v.agentId) == Found(p.activation)
              && !VersionDirExists(r, v.agentId, v.versionId)
            else after.records == r
  {
    var v := p.version;
    var plan := PublishRecordPlan(r, p, expectedDraftRevision);
    if plan.Ok? {
      var ws := plan.value;
      var x := Execute(r, ws, os);
      if x.ok {
        ExecuteOk(r, ws, os);
        ApplyAllAppend(r, VersionWrites(v), [PointerWrite(p.activation)]);
        PublicationIsLast(v, r);
        var mid := ApplyAll(r, VersionWrites(v));
        assert ApplyAll(mid, [PointerWrite(p.activation)]) == ApplyAll(Apply(mid, PointerWrite(p.activation), Done), []);
      } else {
        RollbackRestores(r, v, p.activation, os);
      }
    }
  }

  lemma RollbackRestores(r: Records, v: PublishedVersion, active: ActiveVersion, os: seq<Outcome>)
    requires !VersionDirExists(r, v.agentId, v.versionId)
    requires active.agentId == v.agentId
    ensures var x := Execute(r, VersionWrites(v) + [PointerWrite(active)], os);
            RolledBack(x.records, r, v.agentId, v.versionId) == r
  {
    var ws := VersionWrites(v) + [PointerWrite(active)];
    var x := Execute(r, ws, os);
    var back := RolledBack(x.records, r, v.agentId, v.versionId);
    VersionWritesStayInside(v);
    assert forall w | w in ws :: InVersionDir(w, v.agentId, v.versionId) || w == PointerWrite(active);
    forall k: StoreKey
      ensures (k in back <==> k in r) && (k in r ==> back[k] == r[k])
    {
      if k.VersionKey? && k.agentId == v.agentId && k.versionId == v.versionId {
        assert k in r ==> VersionDirExists(r, v.agentId, v.versionId);
      } else if k != ActivePointerKey(v.agentId) {
        ExecuteSpares(r, ws, os, k);
      }
    }
  }

  lemma PublishRecordKeepsSound(env: Env, r: Records, p: PublicationRecord, n: int, os: seq<Outcome>)
    requires Sound(r)
    ensures Keeps(env, r, PublishRecordStep(r, p, n, os).records)
  {
    PublishRecordIsAtomic(r, p, n, os);
    ForwardReflexive(env, r);
    if PublishRecordStep(r, p, n, os).reply.Accepted? {
      PublicationKeepsSound(env, r, p.version, p.activation, os);
    }
  }
}
