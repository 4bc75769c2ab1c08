/** Where the validations that a publication relies on came from, over whole runs of
    the configuration store. */
module StoreDiscoveries {
  import opened Text
  import opened StorePaths
  import opened StoreRecords
  import opened StoreOperations
  import opened StoreInvariants
  import opened StoreRuns
  import opened StoreAcceptance
  import opened ManifestTree

  /** Event k ended a passed remote validation of the source under this id, with
      these contracts, and its record is the one given. */
  ghost predicate EndedWith(
    env: Env, m: Machine, es: seq<Event>, k: nat, sourceId: string, validationId: string, c: Content)
    requires k < |es|
  {
    var e := es[k];
    var at := StateAt(env, m, es, k);
    && e.EndValidation? && e.passed && e.validationId == validationId && e.ticket in at.pending
    && at.pending[e.ticket].sourceId == sourceId
    && c.ValidationFile? && c.validation.configRevision == at.pending[e.ticket].configRevision
    && RecordsContracts(c.validation, e.contracts, sourceId)
  }

  ghost predicate CameFrom(env: Env, m: Machine, es: seq<Event>, n: nat, s: string, v: string, c: Content)
    requires n <= |es|
  {
    exists k: nat :: k < n && EndedWith(env, m, es, k, s, v, c)
  }

  ghost predicate ComesFromEvent(env: Env, m: Machine, es: seq<Event>, n: nat, s: string, v: string)
    requires n <= |es|
  {
    var key, r := ToolSourceValidationKey(s, v), StateAt(env, m, es, n).records;
    key in r ==> CameFrom(env, m, es, n, s, v, r[key])
  }

  /** Every stored validation is the record of an event of the run. */
  lemma {:induction false} ValidationsComeFromEvents(env: Env, m: Machine, es: seq<Event>, n: nat, s: string, v: string)
    requires Sound(m.records) && RunFresh(env, m, es) && n <= |es|
    requires ToolSourceValidationKey(s, v) !in m.records
    ensures ComesFromEvent(env, m, es, n, s, v)
    decreases n
  {
    if n == 0 {
      StateAtEnds(env, m, es);
    } else {
      StateAtSound(env, m, es, n - 1);
      ValidationsComeFromEvents(env, m, es, n - 1, s, v);
      OneEventMore(env, m, es, n - 1, s, v);
    }
  }

  lemma OneEventMore(env: Env, m: Machine, es: seq<Event>, n: nat, s: string, v: string)
    requires n < |es| && Sound(StateAt(env, m, es, n).records) && ComesFromEvent(env, m, es, n, s, v)
    ensures ComesFromEvent(env, m, es, n + 1, s, v)
  {
    var key: StoreKey := ToolSourceValidationKey(s, v);
    StateAtNext(env, m, es, n);
    var r := StateAt(env, m, es, n + 1).records;
    if key in r {
      ValidationIsOldOrNew(env, m, es, n, s, v);
      if !EndedWith(env, m, es, n, s, v, r[key]) {
        CameFromEarlier(env, m, es, n, s, v, r[key]);
      }
    }
  }

  lemma CameFromEarlier(env: Env, m: Machine, es: seq<Event>, n: nat, s: string, v: string, c: Content)
    requires n < |es| && CameFrom(env, m, es, n, s, v, c)
    ensures CameFrom(env, m, es, n + 1, s, v, c)
  {
  }

  /** One event keeps a stored validation, or is the one that stored it. */
  lemma ValidationIsOldOrNew(env: Env, m: Machine, es: seq<Event>, k: nat, s: string, v: string)
    requires k < |es| && Sound(StateAt(env, m, es, k).records)
    requires ToolSourceValidationKey(s, v) in Next(env, StateAt(env, m, es, k), es[k]).records
    ensures var before := StateAt(env, m, es, k);
            var key: StoreKey := ToolSourceValidationKey(s, v);
            var after := Next(env, before, es[k]).records;
            Same(before.records, after, key) || EndedWith(env, m, es, k, s, v, after[key])
  {
    var before, e := StateAt(env, m, es, k), es[k];
    if e.Locked? {
      StepSparesValidations(env, before.records, e.op, e.outcomes, s, v);
    } else if e.EndValidation? && e.ticket in before.pending {
      FinishValidationExactly(env, before, e);
    }
  }

  lemma {:induction false} HistoryOnlyGrows(env: Env, m: Machine, es: seq<Event>, k: nat, n: nat, id: string, revision: int)
    requires k <= n <= |es| && (id, revision) in StateAt(env, m, es, k).history
    ensures (id, revision) in StateAt(env, m, es, n).history
    ensures StateAt(env, m, es, n).history[(id, revision)] == StateAt(env, m, es, k).history[(id, revision)]
    decreases n - k
  {
    if k < n {
      StateAtNext(env, m, es, k);
      HistoryOnlyGrows(env, m, es, k + 1, n, id, revision);
    }
  }

  lemma StateAtValidated(env: Env, m: Machine, es: seq<Event>, k: nat)
    requires Validated(m) && RunFresh(env, m, es) && k <= |es|
    ensures Validated(StateAt(env, m, es, k))
  {
    StateAtFresh(env, m, es, k);
    RunKeepsValidated(env, m, es[..k]);
  }

  /** Event k passed a contract of the source with the same digest as the tool, when
      the source had the configuration given. */
  ghost predicate Passed(
    env: Env, m: Machine, es: seq<Event>, k: nat, contract: Tree, tool: Tree, sourceId: string, config: ToolSourceConfig)
    requires k < |es|
  {
    var e := es[k];
    var at := StateAt(env, m, es, k);
    && e.EndValidation? && e.passed && e.ticket in at.pending
    && at.pending[e.ticket].sourceId == sourceId && at.pending[e.ticket].config == config
    && contract in e.contracts && BoundTo(contract, sourceId)
    && exists digest :: HasDigest(contract, digest) && HasDigest(tool, digest)
  }

  /** In every run that starts without validations: when publication accepts a draft,
      each of its MCP tools is bound to an active source, and a contract of that
      source with the tool's digest was passed by a discovery of the run, made
      against exactly the configuration the source has now. */
  lemma AcceptedToolsWereValidated(
    env: Env, m: Machine, es: seq<Event>, q: PublishRequest, os: seq<Outcome>, items: seq<Tree>, i: nat)
    requires Validated(m) && RunFresh(env, m, es)
    requires forall k | k in m.records :: !k.ToolSourceValidationKey?
    requires var r := Run(env, m, es).records;
             && Step(env, r, PublishVersion(q), os).reply.Accepted?
             && var draft := DraftKey(q.agentId, q.draftId);
             && draft in r && r[draft].DraftFile?
             && var toolsYaml := r[draft].draft.bundle.toolsYaml;
             && env.load(toolsYaml).Some? && Get(env.load(toolsYaml).value, "tools") == Some(Sequence(items))
    requires i < |items| && Get(items[i], "source") == Some(Scalar("mcp"))
    ensures var r := Run(env, m, es).records;
            && Get(items[i], "tool_source_id").Some? && Get(items[i], "tool_source_id").value.Scalar?
            && var id := Strip(Get(items[i], "tool_source_id").value.text);
            && ToolSourceKey(id) in r && r[ToolSourceKey(id)].ToolSourceFile?
            && r[ToolSourceKey(id)].source.lifecycle.Active?
            && exists k: nat, contract ::
                 k < |es| && Passed(env, m, es, k, contract, items[i], id, r[ToolSourceKey(id)].source.config)
  {
    StateAtEnds(env, m, es);
    StateAtValidated(env, m, es, |es|);
    AcceptedToolIsUsable(env, Run(env, m, es).records, q, os, items, i);
    UsableToolWasPassed(env, m, es, items[i]);
  }

  lemma AcceptedToolIsUsable(env: Env, r: Records, q: PublishRequest, os: seq<Outcome>, items: seq<Tree>, i: nat)
    requires Sound(r) && Step(env, r, PublishVersion(q), os).reply.Accepted?
    requires var draft := DraftKey(q.agentId, q.draftId);
             && draft in r && r[draft].DraftFile?
             && var toolsYaml := r[draft].draft.bundle.toolsYaml;
             && env.load(toolsYaml).Some? && Get(env.load(toolsYaml).value, "tools") == Some(Sequence(items))
    requires i < |items| && Get(items[i], "source") == Some(Scalar("mcp"))
    ensures ToolUsable(env, r, items[i])
  {
    PlanExactly(env, r, q);
  }

  lemma UsableToolWasPassed(env: Env, m: Machine, es: seq<Event>, tool: Tree)
    requires Validated(m) && RunFresh(env, m, es)
    requires forall k | k in m.records :: !k.ToolSourceValidationKey?
    requires ToolUsable(env, Run(env, m, es).records, tool)
    ensures var id := Strip(Get(tool, "tool_source_id").value.text);
            var source := Run(env, m, es).records[ToolSourceKey(id)].source;
            exists k: nat, contract :: k < |es| && Passed(env, m, es, k, contract, tool, id, source.config)
  {
    var r := Run(env, m, es).records;
    var id := Strip(Get(tool, "tool_source_id").value.text);
    var source := r[ToolSourceKey(id)].source;
    var key :| key in r && key.ToolSourceValidationKey? && key.sourceId == id && r[key].ValidationFile?
      && r[key].validation.configRevision == source.configRevision
      && exists digest | digest in r[key].validation.snapshotDigests :: HasDigest(tool, digest);
    StateAtEnds(env, m, es);
    assert key == ToolSourceValidationKey(id, key.validationId);
    ValidationsComeFromEvents(env, m, es, |es|, id, key.validationId);
    var k: nat :| k < |es| && EndedWith(env, m, es, k, id, key.validationId, r[key]);
    SameConfigurationNow(env, m, es, k, id);
    var contract := ContractWithDigest(r[key].validation, es[k].contracts, id, tool);
    assert Passed(env, m, es, k, contract, tool, id, source.config);
  }

  /** The captured configuration of a revision is the one the source has while it has
      that revision. */
  lemma SameConfigurationNow(env: Env, m: Machine, es: seq<Event>, k: nat, id: string)
    requires Validated(m) && RunFresh(env, m, es) && k < |es|
    requires es[k].EndValidation? && es[k].ticket in StateAt(env, m, es, k).pending
    requires var captured := StateAt(env, m, es, k).pending[es[k].ticket];
             var r := Run(env, m, es).records;
             && captured.sourceId == id && IsPlainName(id) && ToolSourceKey(id) in r && r[ToolSourceKey(id)].ToolSourceFile?
             && r[ToolSourceKey(id)].source.configRevision == captured.configRevision
    ensures StateAt(env, m, es, k).pending[es[k].ticket].config == Run(env, m, es).records[ToolSourceKey(id)].source.config
  {
    var captured := StateAt(env, m, es, k).pending[es[k].ticket];
    var now := Run(env, m, es);
    StateAtValidated(env, m, es, k);
    StateAtValidated(env, m, es, |es|);
    StateAtEnds(env, m, es);
    assert Carried(StateAt(env, m, es, k), captured);
    HistoryOnlyGrows(env, m, es, k, |es|, id, captured.configRevision);
    assert ReadToolSource(now.records, id).Found?;
  }

  lemma ContractWithDigest(v: ToolSourceValidation, contracts: seq<Tree>, sourceId: string, tool: Tree)
    returns (contract: Tree)
    requires RecordsContracts(v, contracts, sourceId)
    requires exists digest | digest in v.snapshotDigests :: HasDigest(tool, digest)
    ensures contract in contracts && BoundTo(contract, sourceId)
    ensures exists digest :: HasDigest(contract, digest) && HasDigest(tool, digest)
  {
    var digest :| digest in v.snapshotDigests && HasDigest(tool, digest);
    var at: seq<nat> :| BoundAt(contracts, sourceId, at)
      && |v.snapshotDigests| == |at|
      && forall i | 0 <= i < |at| :: HasDigest(contracts[at[i]], v.snapshotDigests[i]);
    var i: nat :| i < |at| && v.snapshotDigests[i] == digest;
    contract := contracts[at[i]];
    assert at[i] in at;
  }
}
