/** Whole runs of the configuration store: locked bodies in any order, with
    remote tool source validations under way between them. */
module StoreRuns {
  import opened Text
  import opened StorePaths
  import opened StoreRecords
  import opened StoreOperations
  import opened StoreInvariants
  import opened ManifestTree

  /** What a remote discovery was run against, and the digests it passed. */
  datatype Discovery = Discovery(config: ToolSourceConfig, digests: seq<string>)

  /** The store, the validations under way (each with the source it read), the
      configuration every tool source revision carried when it first appeared,
      and what each stored validation was discovered against. */
  datatype Machine = Machine(
    records: Records,
    pending: map<string, ToolSource>,
    history: map<(string, int), ToolSourceConfig>,
    discovered: map<(string, string), Discovery>)

  /** Locked is one locked body. A validation is two: Begin reads the source, End
      rechecks and stores; anything may happen in between. */
  datatype Event =
    | Locked(op: Operation, outcomes: seq<Outcome>)
    | BeginValidation(ticket: string, sourceId: string)
    | EndValidation(ticket: string, contracts: seq<Tree>, passed: bool, validationId: string, outcomes: seq<Outcome>)

  function PresentConfigs(r: Records): (configs: map<(string, int), ToolSourceConfig>)
    ensures forall k | k in r && k.ToolSourceKey? && r[k].ToolSourceFile? ::
              (k.sourceId, r[k].source.configRevision) in configs
              && configs[(k.sourceId, r[k].source.configRevision)] == r[k].source.config
    ensures forall id, n | (id, n) in configs ::
              ToolSourceKey(id) in r && r[ToolSourceKey(id)].ToolSourceFile?
              && r[ToolSourceKey(id)].source.configRevision == n
  {
    map k | k in r && k.ToolSourceKey? && r[k].ToolSourceFile? ::
      (k.sourceId, r[k].source.configRevision) := r[k].source.config
  }

  /** A revision keeps the configuration it was first seen with. */
  function Noted(history: map<(string, int), ToolSourceConfig>, r: Records): map<(string, int), ToolSourceConfig> {
    PresentConfigs(r) + history
  }

  predicate Landed(os: seq<Outcome>) {
    HeadOutcome(os).Done? || HeadOutcome(os).FailedAfter?
  }

  function EndPlan(m: Machine, e: Event): Result<seq<Write>, Error>
    requires e.EndValidation? && e.ticket in m.pending
  {
    FinishValidationPlan(m.records, m.pending[e.ticket], e.contracts, e.passed, e.validationId)
  }

  function Next(env: Env, m: Machine, e: Event): Machine {
    match e
    case Locked(op, os) =>
      var after := Step(env, m.records, op, os).records;
      m.(records := after, history := Noted(m.history, after))
    case BeginValidation(ticket, id) =>
      var s := ReadToolSource(m.records, id);
      if s.Found? then m.(pending := m.pending[ticket := s.value]) else m
    case EndValidation(ticket, contracts, passed, validationId, os) =>
      if ticket !in m.pending then m
      else
        var captured := m.pending[ticket];
        var after := Commit(m.records, EndPlan(m, e), os).records;
        var digests := ValidationOf(captured, contracts, validationId).snapshotDigests;
        Machine(
          after,
          m.pending - {ticket},
          Noted(m.history, after),
          if EndPlan(m, e).Ok? && Landed(os)
          then m.discovered[(captured.sourceId, validationId) := Discovery(captured.config, digests)]
          else m.discovered)
  }

  function Run(env: Env, m: Machine, es: seq<Event>): Machine
    decreases |es|
  {
    if es == [] then m else Run(env, Next(env, m, es[0]), es[1..])
  }

  lemma RunFreshTail(env: Env, m: Machine, e: Event, es: seq<Event>)
    requires RunFresh(env, m, [e] + es)
    ensures EventFresh(m, e) && RunFresh(env, Next(env, m, e), es)
  {
    assert ([e] + es)[1..] == es;
  }

  predicate EventFresh(m: Machine, e: Event) {
    e.Locked? ==> FreshId(m.records, e.op)
  }

  /** Every generated version id of the run is new when it is used. */
  predicate RunFresh(env: Env, m: Machine, es: seq<Event>)
    decreases |es|
  {
    es == [] || (EventFresh(m, es[0]) && RunFresh(env, Next(env, m, es[0]), es[1..]))
  }

  /** The state before event k of a run, and the last one for k == |es|. */
  function StateAt(env: Env, m: Machine, es: seq<Event>, k: nat): Machine
    requires k <= |es|
  {
    Run(env, m, es[..k])
  }

  lemma StateAtEnds(env: Env, m: Machine, es: seq<Event>)
    ensures StateAt(env, m, es, 0) == m && StateAt(env, m, es, |es|) == Run(env, m, es)
  {
    assert es[..|es|] == es;
  }

  lemma {:induction false} RunOneMore(env: Env, m: Machine, es: seq<Event>, e: Event)
    ensures Run(env, m, es + [e]) == Next(env, Run(env, m, es), e)
    decreases |es|
  {
    if es == [] {
      assert es + [e] == [e] && [e][1..] == [];
    } else {
      assert (es + [e])[1..] == es[1..] + [e];
      RunOneMore(env, Next(env, m, es[0]), es[1..], e);
    }
  }

  lemma StateAtNext(env: Env, m: Machine, es: seq<Event>, k: nat)
    requires k < |es|
    ensures StateAt(env, m, es, k + 1) == Next(env, StateAt(env, m, es, k), es[k])
  {
    assert es[..k + 1] == es[..k] + [es[k]];
    RunOneMore(env, m, es[..k], es[k]);
  }

  lemma {:induction false} StateAtFresh(env: Env, m: Machine, es: seq<Event>, k: nat)
    requires RunFresh(env, m, es) && k <= |es|
    ensures RunFresh(env, m, es[..k])
    ensures k < |es| ==> EventFresh(StateAt(env, m, es, k), es[k])
    decreases |es|
  {
    if k > 0 {
      StateAtFresh(env, Next(env, m, es[0]), es[1..], k - 1);
      assert es[..k][1..] == es[1..][..k - 1];
    }
  }

  // ----- soundness and progress over runs -----

  lemma NextKeepsSound(env: Env, m: Machine, e: Event)
    requires Sound(m.records) && EventFresh(m, e)
    ensures Keeps(env, m.records, Next(env, m, e).records)
  {
    ForwardReflexive(env, m.records);
    match e
    case Locked(op, os) => StepKeepsSound(env, m.records, op, os);
    case EndValidation(ticket, contracts, passed, validationId, os) =>
      if ticket in m.pending {
        FinishValidationKeepsSound(env, m.records, m.pending[ticket], contracts, passed, validationId, os);
      }
    case _ =>
  }

  /** In every reachable state, whichever writes raised on the way: files hold what
      their paths say, readable pointers name readable versions, no file of a
      version has changed, and the rest of the store has only moved forward. */
  lemma {:induction false} RunKeepsSound(env: Env, m: Machine, es: seq<Event>)
    requires Sound(m.records) && RunFresh(env, m, es)
    ensures Sound(Run(env, m, es).records)
    ensures Forward(env, m.records, Run(env, m, es).records)
    ensures PointersResolve(env, m.records) ==> PointersResolve(env, Run(env, m, es).records)
    decreases |es|
  {
    if es == [] {
      ForwardReflexive(env, m.records);
    } else {
      var next := Next(env, m, es[0]);
      NextKeepsSound(env, m, es[0]);
      RunKeepsSound(env, next, es[1..]);
      ForwardTransitive(env, m.records, next.records, Run(env, m, es).records);
    }
  }

  lemma StateAtSound(env: Env, m: Machine, es: seq<Event>, k: nat)
    requires Sound(m.records) && RunFresh(env, m, es) && k <= |es|
    ensures Sound(StateAt(env, m, es, k).records)
    ensures k < |es| ==> EventFresh(StateAt(env, m, es, k), es[k])
  {
    StateAtFresh(env, m, es, k);
    RunKeepsSound(env, m, es[..k]);
  }

  // ----- tool source validations -----

  ghost predicate HistoryCurrent(m: Machine) {
    && (forall id | ReadToolSource(m.records, id).Found? ::
          var s := ReadToolSource(m.records, id).value;
          (id, s.configRevision) in m.history && m.history[(id, s.configRevision)] == s.config)
    && (forall id, n | (id, n) in m.history ::
          ToolSourceKey(id) in m.records && m.records[ToolSourceKey(id)].ToolSourceFile?
          && n <= m.records[ToolSourceKey(id)].source.configRevision)
  }

  ghost predicate Carried(m: Machine, s: ToolSource) {
    && (s.sourceId, s.configRevision) in m.history
    && m.history[(s.sourceId, s.configRevision)] == s.config
  }

  ghost predicate ValidationTrue(m: Machine, sourceId: string, validationId: string)
    requires ToolSourceValidationKey(sourceId, validationId) in m.records
  {
    var c := m.records[ToolSourceValidationKey(sourceId, validationId)];
    && c.ValidationFile?
    && (sourceId, validationId) in m.discovered
    && (sourceId, c.validation.configRevision) in m.history
    && m.discovered[(sourceId, validationId)] ==
       Discovery(m.history[(sourceId, c.validation.configRevision)], c.validation.snapshotDigests)
  }

  ghost predicate ValidationsTrue(m: Machine) {
    forall s, v | ToolSourceValidationKey(s, v) in m.records :: ValidationTrue(m, s, v)
  }

  /** Every stored validation was discovered against exactly the configuration
      that carried its revision, and the source still has the configuration of
      its own revision. */
  ghost predicate Validated(m: Machine) {
    && Sound(m.records)
    && HistoryCurrent(m)
    && (forall t | t in m.pending :: Carried(m, m.pending[t]))
    && ValidationsTrue(m)
  }

  /** A store nobody has validated in yet. */
  function Start(r: Records): Machine {
    Machine(r, map[], PresentConfigs(r), map[])
  }

  lemma StartIsValidated(r: Records)
    requires Sound(r)
    requires forall k | k in r :: !k.ToolSourceValidationKey?
    ensures Validated(Start(r))
  {
  }

  lemma StepSparesValidations(env: Env, r: Records, op: Operation, os: seq<Outcome>, s: string, v: string)
    requires Sound(r)
    ensures Same(r, Step(env, r, op, os).records, ToolSourceValidationKey(s, v))
  {
    var k: StoreKey := ToolSourceValidationKey(s, v);
    if op.PublishRecord? {
      PublishRecordSpares(r, op.publication, op.expectedDraftRevision, os, k);
    } else if op.SeedVersion? {
      SeedSpares(env, r, op.seed, os, k);
    } else if op.EnsureAuthority? {
      EnsureAuthoritySpares(r, op.seedAgentId, op.expectedVersionId, os, k);
    } else {
      var plan := Plan(env, r, op);
      if plan.Ok? {
        PlanSparesValidations(env, r, op, k);
        ExecuteSpares(r, plan.value, os, k);
      }
    }
  }

  lemma PublishRecordSpares(r: Records, p: PublicationRecord, n: int, os: seq<Outcome>, k: StoreKey)
    requires !k.VersionKey? && !k.ActivePointerKey?
    ensures Same(r, PublishRecordStep(r, p, n, os).records, k)
  {
    var plan := PublishRecordPlan(r, p, n);
    if plan.Ok? {
      VersionWritesStayInside(p.version);
      ExecuteSpares(r, plan.value, os, k);
    }
  }

  lemma EnsureAuthoritySpares(r: Records, a: string, v: string, os: seq<Outcome>, k: StoreKey)
    requires !k.SeedAuthorityKey?
    ensures Same(r, EnsureAuthorityStep(r, a, v, os).records, k)
  {
    if ReadActive(r, a).Found? {
      ExecuteSpares(r, [AuthorityWrite(a, Some(ReadActive(r, a).value.versionId))], os, k);
    }
  }

  lemma SeedSpares(env: Env, r: Records, q: PublishRequest, os: seq<Outcome>, k: StoreKey)
    requires !k.VersionKey? && !k.ActivePointerKey? && !k.SeedAuthorityKey?
    ensures Same(r, SeedStep(env, r, q, os).records, k)
  {
    var reserve := [AuthorityWrite(q.agentId, None)];
    var x := Execute(r, reserve, os);
    ExecuteSpares(r, reserve, os, k);
    PublishPlanSpares(env, x.records, q, k);
    var plan := PublishPlan(env, x.records, q);
    if plan.Ok? {
      ExecuteSpares(x.records, plan.value + [AuthorityWrite(q.agentId, Some(q.versionId))], x.rest, k);
    }
  }

  lemma PublishPlanSpares(env: Env, r: Records, q: PublishRequest, k: StoreKey)
    requires !k.VersionKey? && !k.ActivePointerKey?
    ensures var plan := PublishPlan(env, r, q);
            plan.Ok? ==> forall w | w in plan.value :: Spares(w, k)
  {
    if PublishPlan(env, r, q).Ok? {
      VersionWritesStayInside(VersionFrom(q, ReadDraft(r, q.agentId, q.draftId).value));
    }
  }

  lemma PlanSparesValidations(env: Env, r: Records, op: Operation, k: StoreKey)
    requires k.ToolSourceValidationKey?
    requires !op.PublishRecord? && !op.SeedVersion? && !op.EnsureAuthority?
    ensures var plan := Plan(env, r, op);
            plan.Ok? ==> forall w | w in plan.value :: Spares(w, k)
  {
    if op.PublishVersion? {
      PublishPlanSpares(env, r, op.request, k);
    }
  }

  // History.

  lemma HistoryStays(env: Env, m: Machine, s: Records)
    requires Sound(m.records) && Sound(s) && Forward(env, m.records, s) && HistoryCurrent(m)
    ensures HistoryCurrent(m.(records := s, history := Noted(m.history, s)))
  {
    var r := m.records;
    forall id | ReadToolSource(s, id).Found?
      ensures var c := ReadToolSource(s, id).value;
              var h := Noted(m.history, s);
              (id, c.configRevision) in h && h[(id, c.configRevision)] == c.config
    {
      var k: StoreKey := ToolSourceKey(id);
      var c := ReadToolSource(s, id).value;
      if (id, c.configRevision) in m.history {
        assert k in r && KeyMatches(k, r[k]);
        assert ToolSourceEvolves(r, s, id);
      }
    }
    forall id, n | (id, n) in Noted(m.history, s)
      ensures ToolSourceKey(id) in s && s[ToolSourceKey(id)].ToolSourceFile?
      ensures n <= s[ToolSourceKey(id)].source.configRevision
    {
      var k: StoreKey := ToolSourceKey(id);
      if (id, n) in m.history {
        assert k in r && KeyMatches(k, r[k]);
        assert ToolSourceEvolves(r, s, id);
      }
    }
  }

  lemma NextKeepsValidated(env: Env, m: Machine, e: Event)
    requires Validated(m) && EventFresh(m, e)
    ensures Validated(Next(env, m, e))
  {
    if e.BeginValidation? {
      BeginKeepsValidated(env, m, e);
    } else if e.Locked? {
      LockedKeepsValidated(env, m, e);
    } else if e.ticket in m.pending {
      EndKeepsValidated(env, m, e);
    }
  }

  lemma BeginKeepsValidated(env: Env, m: Machine, e: Event)
    requires Validated(m) && e.BeginValidation?
    ensures Validated(Next(env, m, e))
  {
    var next := Next(env, m, e);
    BeginCarries(env, m, e);
    forall s, v | ToolSourceValidationKey(s, v) in m.records ensures ValidationTrue(next, s, v) {
      assert ValidationTrue(m, s, v);
    }
  }

  lemma BeginCarries(env: Env, m: Machine, e: Event)
    requires Validated(m) && e.BeginValidation?
    ensures var next := Next(env, m, e); forall t | t in next.pending :: Carried(next, next.pending[t])
  {
    var next := Next(env, m, e);
    var k: StoreKey := ToolSourceKey(e.sourceId);
    assert k in m.records ==> KeyMatches(k, m.records[k]);
    forall t | t in next.pending ensures Carried(next, next.pending[t]) {
      assert t in m.pending ==> Carried(m, m.pending[t]);
    }
  }

  lemma LockedKeepsValidated(env: Env, m: Machine, e: Event)
    requires Validated(m) && e.Locked? && EventFresh(m, e)
    ensures Validated(Next(env, m, e))
  {
    var next := Next(env, m, e);
    NextKeepsSound(env, m, e);
    HistoryStays(env, m, next.records);
    forall t | t in next.pending ensures Carried(next, next.pending[t]) {
      assert Carried(m, m.pending[t]);
    }
    forall s, v | ToolSourceValidationKey(s, v) in next.records ensures ValidationTrue(next, s, v) {
      StepSparesValidations(env, m.records, e.op, e.outcomes, s, v);
      assert ValidationTrue(m, s, v);
      ValidationStays(m, next, s, v);
    }
  }

  lemma EndKeepsValidated(env: Env, m: Machine, e: Event)
    requires Validated(m) && e.EndValidation? && e.ticket in m.pending
    ensures Validated(Next(env, m, e))
  {
    var next := Next(env, m, e);
    NextKeepsSound(env, m, e);
    HistoryStays(env, m, next.records);
    forall t | t in next.pending ensures Carried(next, next.pending[t]) {
      assert Carried(m, m.pending[t]);
    }
    forall s, v | ToolSourceValidationKey(s, v) in next.records ensures ValidationTrue(next, s, v) {
      EndIsTrue(env, m, e, s, v);
    }
  }

  /** Ending a validation either stores one record or changes no file. */
  lemma EndStoresOneRecord(env: Env, m: Machine, e: Event)
    requires Sound(m.records) && e.EndValidation? && e.ticket in m.pending
    ensures var captured := m.pending[e.ticket];
            Next(env, m, e).records ==
              if EndPlan(m, e).Ok? && Landed(e.outcomes) then
                m.records[ToolSourceValidationKey(captured.sourceId, e.validationId) :=
                  ValidationFile(ValidationOf(ReadToolSource(m.records, captured.sourceId).value, e.contracts, e.validationId))]
              else m.records
  {
    var plan := EndPlan(m, e);
    var k: StoreKey := ToolSourceKey(m.pending[e.ticket].sourceId);
    assert k in m.records ==> KeyMatches(k, m.records[k]);
    if plan.Ok? {
      ExecuteOne(m.records, plan.value[0], e.outcomes);
    }
  }

  lemma ValidationStays(m: Machine, next: Machine, s: string, v: string)
    requires ToolSourceValidationKey(s, v) in m.records && ValidationTrue(m, s, v)
    requires Same(m.records, next.records, ToolSourceValidationKey(s, v))
    requires (s, v) in next.discovered && next.discovered[(s, v)] == m.discovered[(s, v)]
    requires next.history == Noted(m.history, next.records)
    ensures ValidationTrue(next, s, v)
  {
  }

  /** The recheck at the end of a validation makes the stored record true: an
      unchanged revision means an unchanged configuration. */
  lemma EndIsTrue(env: Env, m: Machine, e: Event, s: string, v: string)
    requires Validated(m) && e.EndValidation? && e.ticket in m.pending
    requires ToolSourceValidationKey(s, v) in Next(env, m, e).records
    ensures ValidationTrue(Next(env, m, e), s, v)
  {
    var captured := m.pending[e.ticket];
    EndStoresOneRecord(env, m, e);
    if EndPlan(m, e).Ok? && Landed(e.outcomes) && s == captured.sourceId && v == e.validationId {
      NewValidationIsTrue(env, m, e);
    } else {
      OldValidationIsTrue(env, m, e, s, v);
    }
  }

  lemma OldValidationIsTrue(env: Env, m: Machine, e: Event, s: string, v: string)
    requires Validated(m) && e.EndValidation? && e.ticket in m.pending
    requires ToolSourceValidationKey(s, v) in m.records
    requires Same(m.records, Next(env, m, e).records, ToolSourceValidationKey(s, v))
    requires !(EndPlan(m, e).Ok? && Landed(e.outcomes) && s == m.pending[e.ticket].sourceId && v == e.validationId)
    ensures ValidationTrue(Next(env, m, e), s, v)
  {
    assert ValidationTrue(m, s, v);
    ValidationStays(m, Next(env, m, e), s, v);
  }

  lemma NewValidationIsTrue(env: Env, m: Machine, e: Event)
    requires Validated(m) && e.EndValidation? && e.ticket in m.pending
    requires EndPlan(m, e).Ok? && Landed(e.outcomes)
    requires ToolSourceValidationKey(m.pending[e.ticket].sourceId, e.validationId) in Next(env, m, e).records
    ensures ValidationTrue(Next(env, m, e), m.pending[e.ticket].sourceId, e.validationId)
  {
    var captured := m.pending[e.ticket];
    var next := Next(env, m, e);
    UnchangedRevision(m, e);
    var current := ReadToolSource(m.records, captured.sourceId).value;
    EndStoresOneRecord(env, m, e);
    RelevantDependsOnId(current, captured, e.contracts, e.validationId);
    assert Carried(m, captured);
    assert next.history == Noted(m.history, next.records);
    var k: StoreKey := ToolSourceValidationKey(captured.sourceId, e.validationId);
    assert next.records[k] == ValidationFile(ValidationOf(current, e.contracts, e.validationId));
  }

  /** The recheck passes only if the source still has the captured configuration. */
  lemma UnchangedRevision(m: Machine, e: Event)
    requires Validated(m) && e.EndValidation? && e.ticket in m.pending && EndPlan(m, e).Ok?
    ensures ReadToolSource(m.records, m.pending[e.ticket].sourceId).Found?
    ensures var current := ReadToolSource(m.records, m.pending[e.ticket].sourceId).value;
            && current.sourceId == m.pending[e.ticket].sourceId
            && current.configRevision == m.pending[e.ticket].configRevision
            && current.config == m.pending[e.ticket].config
  {
    var captured := m.pending[e.ticket];
    var k: StoreKey := ToolSourceKey(captured.sourceId);
    assert KeyMatches(k, m.records[k]);
    assert Carried(m, captured);
  }

  lemma RelevantDependsOnId(a: ToolSource, b: ToolSource, contracts: seq<Tree>, id: string)
    requires a.sourceId == b.sourceId
    ensures ValidationOf(a, contracts, id).snapshotDigests == ValidationOf(b, contracts, id).snapshotDigests
  {
  }

  /** Under any interleaving of validations, edits, archives, restores and
      publications, every stored validation is true. */
  lemma {:induction false} RunKeepsValidated(env: Env, m: Machine, es: seq<Event>)
    requires Validated(m) && RunFresh(env, m, es)
    ensures Validated(Run(env, m, es))
    decreases |es|
  {
    if es != [] {
      NextKeepsValidated(env, m, es[0]);
      RunKeepsValidated(env, Next(env, m, es[0]), es[1..]);
    }
  }

  /** Everything a store ever holds is sound, and its validations are true: it
      starts empty. */
  lemma EveryStoreIsSoundAndValidated(env: Env, es: seq<Event>)
    requires RunFresh(env, Start(map[]), es)
    ensures Sound(Run(env, Start(map[]), es).records) && PointersResolve(env, Run(env, Start(map[]), es).records)
    ensures Validated(Run(env, Start(map[]), es))
  {
    StartIsValidated(map[]);
    RunKeepsSound(env, Start(map[]), es);
    RunKeepsValidated(env, Start(map[]), es);
  }

  ghost predicate DiscoveredNow(m: Machine, source: ToolSource, digest: string, validationId: string) {
    && (source.sourceId, validationId) in m.discovered
    && m.discovered[(source.sourceId, validationId)].config == source.config
    && digest in m.discovered[(source.sourceId, validationId)].digests
  }

  /** When publication accepts a draft, each of its MCP tools is bound to an
      active source, and the tool's digest (empty as EmptyDigestExactly says)
      passed a discovery made against the configuration that source has now. */
  lemma AcceptedToolsWereDiscovered(env: Env, m: Machine, q: PublishRequest, tool: Tree)
    requires Validated(m)
    requires PublishVersionPlan(env, m.records, q).Ok?
    requires var tools := McpToolContracts(env.load, ReadDraft(m.records, q.agentId, q.draftId).value.bundle.toolsYaml);
             tools.Some? && tool in tools.value
    ensures ReadToolSource(m.records, BoundSourceId(tool)).Found?
    ensures var source := ReadToolSource(m.records, BoundSourceId(tool)).value;
            && source.lifecycle.Active?
            && exists v :: DiscoveredNow(m, source, SnapshotDigest(tool), v)
  {
    assert ToolPublishable(env, m.records, tool);
    var source := ReadToolSource(m.records, BoundSourceId(tool)).value;
    var k :| k in m.records && CoveredBy(m.records, source, SnapshotDigest(tool), k);
    assert KeyMatches(ToolSourceKey(source.sourceId), m.records[ToolSourceKey(source.sourceId)]);
    assert ValidationTrue(m, source.sourceId, k.validationId);
    assert DiscoveredNow(m, source, SnapshotDigest(tool), k.validationId);
  }
}
