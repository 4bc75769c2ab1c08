/** When the active pointer of an agent can be relied on: which faults tear it,
    which activations make it name an incomplete version, and that without one of
    these it names a complete version in every reachable state. */
module StorePointers {
  import opened Text
  import opened StorePaths
  import opened StoreRecords
  import opened StoreOperations
  import opened StoreInvariants
  import opened StoreRuns
  import opened StoreGuarantees
  import opened StoreVersions

  ghost predicate PointersReadable(r: Records) {
    forall a | ActivePointerKey(a) in r :: r[ActivePointerKey(a)].PointerFile?
  }

  // ----- the three writes of a pointer that are not rolled back -----

  /** All files of the version are written and the pointer after them is cut off
      half way. */
  predicate CutAtPointer(env: Env, r: Records, q: PublishRequest, os: seq<Outcome>) {
    && PublishPlan(env, r, q).Ok?
    && var files := Execute(r, VersionWrites(VersionFrom(q, ReadDraft(r, q.agentId, q.draftId).value)), os);
    files.ok && HeadOutcome(files.rest).FailedHalfway?
  }

  /** The faults that leave an unreadable pointer, operation by operation. */
  predicate TearsPointer(env: Env, r: Records, op: Operation, os: seq<Outcome>) {
    match op
    case PublishVersion(q) => AuthorityRefuses(r, q.agentId).None? && CutAtPointer(env, r, q, os)
    case SeedVersion(q) =>
      && ActiveAgents(r) == {} && SeedAuthorityKey !in r && HeadOutcome(os).Done?
      && CutAtPointer(env, Apply(r, AuthorityWrite(q.agentId, None), Done), q, TailOutcomes(os))
    case ActivateVersion(a) => ActivatePlan(env, r, a).Ok? && HeadOutcome(os).FailedHalfway?
    case _ => false
  }

  predicate NoPointer(w: Write) {
    w.Put? ==> !w.key.ActivePointerKey?
  }

  lemma OtherWritesSparePointers(r: Records, ws: seq<Write>, os: seq<Outcome>)
    requires forall w | w in ws :: NoPointer(w)
    ensures forall a :: Same(r, Execute(r, ws, os).records, ActivePointerKey(a))
  {
    forall a ensures Same(r, Execute(r, ws, os).records, ActivePointerKey(a)) {
      ExecuteSpares(r, ws, os, ActivePointerKey(a));
    }
  }

  lemma SamePointersReadable(r: Records, s: Records)
    requires forall a :: Same(r, s, ActivePointerKey(a))
    ensures PointersReadable(r) <==> PointersReadable(s)
  {
    forall a ensures ActivePointerKey(a) in r <==> ActivePointerKey(a) in s {
      assert Same(r, s, ActivePointerKey(a));
    }
  }

  lemma PointerWriteTears(r: Records, active: ActiveVersion, o: Outcome)
    requires PointersReadable(r)
    ensures var after := Apply(r, PointerWrite(active), o);
            && (PointersReadable(after) <==> !o.FailedHalfway?)
            && (ReadActive(after, active.agentId).Malformed? <==> o.FailedHalfway?)
  {
    var after := Apply(r, PointerWrite(active), o);
    assert o.FailedHalfway? ==> ActivePointerKey(active.agentId) in after;
  }

  /** A version, its pointer and whatever follows: the pointer is torn exactly
      when it is the write that is cut off half way. */
  lemma PublicationWritesTear(r: Records, v: PublishedVersion, active: ActiveVersion, more: seq<Write>, os: seq<Outcome>)
    requires PointersReadable(r) && forall w | w in more :: NoPointer(w)
    ensures var files := Execute(r, VersionWrites(v), os);
            var after := Execute(r, VersionWrites(v) + [PointerWrite(active)] + more, os).records;
            var torn := files.ok && HeadOutcome(files.rest).FailedHalfway?;
            && (PointersReadable(after) <==> !torn)
            && (ReadActive(after, active.agentId).Malformed? <==> torn)
  {
    var files := Execute(r, VersionWrites(v), os);
    var last := [PointerWrite(active)];
    VersionWritesStayInside(v);
    OtherWritesSparePointers(r, VersionWrites(v), os);
    SamePointersReadable(r, files.records);
    ExecuteAppend(r, VersionWrites(v), last, os);
    ExecuteAppend(r, VersionWrites(v) + last, more, os);
    if files.ok {
      ExecuteOne(files.records, PointerWrite(active), files.rest);
      PointerWriteTears(files.records, active, HeadOutcome(files.rest));
      var mid := Execute(files.records, last, files.rest);
      OtherWritesSparePointers(mid.records, more, mid.rest);
      SamePointersReadable(mid.records, Execute(mid.records, more, mid.rest).records);
      assert Same(mid.records, Execute(mid.records, more, mid.rest).records, ActivePointerKey(active.agentId));
    } else {
      assert Same(r, files.records, ActivePointerKey(active.agentId));
    }
  }

  /** publish_version does not roll back: it leaves an unreadable pointer exactly
      when all files of the version were written and the pointer was cut off half
      way. */
  lemma PublicationTearsPointer(env: Env, r: Records, q: PublishRequest, os: seq<Outcome>)
    requires PointersReadable(r)
    ensures ReadActive(Step(env, r, PublishVersion(q), os).records, q.agentId).Malformed? <==>
            TearsPointer(env, r, PublishVersion(q), os)
    ensures PointersReadable(Step(env, r, PublishVersion(q), os).records) <==>
            !TearsPointer(env, r, PublishVersion(q), os)
  {
    if PublishVersionPlan(env, r, q).Ok? {
      var v := VersionFrom(q, ReadDraft(r, q.agentId, q.draftId).value);
      PublicationWritesTear(r, v, PointerFor(q), [], os);
      assert VersionWrites(v) + [PointerWrite(PointerFor(q))] + [] == VersionWrites(v) + [PointerWrite(PointerFor(q))];
    }
  }

  /** Neither does the canonical seed: once its reservation is written, it tears
      the pointer under the same fault. */
  lemma SeedTearsPointer(env: Env, r: Records, q: SeedRequest, os: seq<Outcome>)
    requires PointersReadable(r)
    ensures ReadActive(Step(env, r, SeedVersion(q), os).records, q.agentId).Malformed? <==>
            TearsPointer(env, r, SeedVersion(q), os)
    ensures PointersReadable(Step(env, r, SeedVersion(q), os).records) <==>
            !TearsPointer(env, r, SeedVersion(q), os)
  {
    if ActiveAgents(r) == {} && SeedAuthorityKey !in r {
      var reserve := AuthorityWrite(q.agentId, None);
      ExecuteOne(r, reserve, os);
      OtherWritesSparePointers(r, [reserve], os);
      var x := Execute(r, [reserve], os);
      SamePointersReadable(r, x.records);
      assert Same(r, x.records, ActivePointerKey(q.agentId));
      if x.ok && PublishPlan(env, x.records, q).Ok? {
        var v := VersionFrom(q, ReadDraft(x.records, q.agentId, q.draftId).value);
        PublicationWritesTear(x.records, v, PointerFor(q), [AuthorityWrite(q.agentId, Some(q.versionId))], x.rest);
      }
    }
  }

  lemma PublishRecordKeepsPointers(r: Records, p: PublicationRecord, n: int, os: seq<Outcome>)
    requires PointersReadable(r)
    ensures PointersReadable(PublishRecordStep(r, p, n, os).records)
  {
    var after := PublishRecordStep(r, p, n, os).records;
    forall a | ActivePointerKey(a) in after ensures after[ActivePointerKey(a)].PointerFile? {
      PublishRecordNeverTearsPointer(r, p, n, os, a);
    }
  }

  lemma EnsureAuthorityKeepsPointers(r: Records, a: string, v: string, os: seq<Outcome>)
    ensures PointersReadable(EnsureAuthorityStep(r, a, v, os).records) <==> PointersReadable(r)
  {
    forall b ensures Same(r, EnsureAuthorityStep(r, a, v, os).records, ActivePointerKey(b)) {
      EnsureAuthoritySpares(r, a, v, os, ActivePointerKey(b));
    }
    SamePointersReadable(r, EnsureAuthorityStep(r, a, v, os).records);
  }

  lemma OtherPlansSparePointers(env: Env, r: Records, op: Operation)
    requires !op.PublishRecord? && !op.SeedVersion? && !op.EnsureAuthority?
    requires !op.PublishVersion? && !op.ActivateVersion? && Plan(env, r, op).Ok?
    ensures forall w | w in Plan(env, r, op).value :: NoPointer(w)
  {
  }

  /** Exactly these faults: from a state in which every pointer can be read, a
      locked body leads to such a state if and only if it tears no pointer. */
  lemma StepKeepsPointersExactly(env: Env, r: Records, op: Operation, os: seq<Outcome>)
    requires PointersReadable(r)
    ensures PointersReadable(Step(env, r, op, os).records) <==> !TearsPointer(env, r, op, os)
  {
    if op.PublishRecord? {
      PublishRecordKeepsPointers(r, op.publication, op.expectedDraftRevision, os);
    } else if op.SeedVersion? {
      SeedTearsPointer(env, r, op.seed, os);
    } else if op.EnsureAuthority? {
      EnsureAuthorityKeepsPointers(r, op.seedAgentId, op.expectedVersionId, os);
    } else if op.PublishVersion? {
      PublicationTearsPointer(env, r, op.request, os);
    } else if Plan(env, r, op).Ok? {
      if op.ActivateVersion? {
        ExecuteOne(r, PointerWrite(op.activation.activation), os);
        PointerWriteTears(r, op.activation.activation, HeadOutcome(os));
      } else {
        OtherPlansSparePointers(env, r, op);
        OtherWritesSparePointers(r, Plan(env, r, op).value, os);
        SamePointersReadable(r, Step(env, r, op, os).records);
      }
    }
  }

  // ----- what the pointers name -----

  /** Every active pointer names a version that is there with all its files. */
  ghost predicate PointersName(env: Env, r: Records) {
    forall a | ActivePointerKey(a) in r ::
      ReadActive(r, a).Found? && VersionComplete(env, r, a, ReadActive(r, a).value.versionId)
  }

  /** activate_version_record only asks that the version can be read. */
  ghost predicate ActivatesIncomplete(env: Env, r: Records, op: Operation, os: seq<Outcome>) {
    && op.ActivateVersion? && ActivatePlan(env, r, op.activation).Ok? && Landed(os)
    && var active := op.activation.activation;
    !VersionComplete(env, r, active.agentId, active.versionId)
  }

  /** A step other than an activation leaves a pointer as it was, or unreadable, or
      names the version it published, with all its files. */
  ghost predicate OldOrComplete(env: Env, r: Records, s: Records, a: string) {
    || Same(r, s, ActivePointerKey(a))
    || (ReadActive(s, a).Found? ==> VersionComplete(env, s, a, ReadActive(s, a).value.versionId))
  }

  lemma NewPointerIsComplete(env: Env, r: Records, op: Operation, os: seq<Outcome>, a: string)
    requires !op.ActivateVersion?
    ensures OldOrComplete(env, r, Step(env, r, op, os).records, a)
  {
    if op.PublishVersion? {
      PublishedPointerIsComplete(env, r, op.request, os, a);
    } else if op.SeedVersion? {
      SeedPointerIsComplete(env, r, op.seed, os, a);
    } else if op.PublishRecord? {
      PublishRecordPointerIsComplete(env, r, op.publication, op.expectedDraftRevision, os, a);
    } else if op.EnsureAuthority? {
      EnsureAuthoritySpares(r, op.seedAgentId, op.expectedVersionId, os, ActivePointerKey(a));
    } else if Plan(env, r, op).Ok? {
      OtherPlansSparePointers(env, r, op);
      OtherWritesSparePointers(r, Plan(env, r, op).value, os);
    }
  }

  lemma PublishedPointerIsComplete(env: Env, r: Records, q: PublishRequest, os: seq<Outcome>, a: string)
    ensures OldOrComplete(env, r, Step(env, r, PublishVersion(q), os).records, a)
  {
    if PublishVersionPlan(env, r, q).Ok? {
      WrittenPointerIsComplete(env, r, VersionOf(r, q), PointerFor(q), [], os, a);
      assert PublishPlan(env, r, q).value + [] == PublishPlan(env, r, q).value;
    }
  }

  function VersionOf(r: Records, q: PublishRequest): PublishedVersion
    requires ReadDraft(r, q.agentId, q.draftId).Found?
  {
    VersionFrom(q, ReadDraft(r, q.agentId, q.draftId).value)
  }

  lemma WrittenPointerIsComplete(
    env: Env, r: Records, v: PublishedVersion, active: ActiveVersion, more: seq<Write>, os: seq<Outcome>, a: string)
    requires active.agentId == v.agentId && active.versionId == v.versionId
    requires forall w | w in more :: NoPointer(w) && NoVersionFile(w)
    ensures OldOrComplete(env, r, Execute(r, VersionWrites(v) + [PointerWrite(active)] + more, os).records, a)
  {
    var files := Execute(r, VersionWrites(v), os);
    var last := [PointerWrite(active)] + more;
    assert VersionWrites(v) + [PointerWrite(active)] + more == VersionWrites(v) + last;
    ExecuteAppend(r, VersionWrites(v), last, os);
    VersionWritesStayInside(v);
    ExecuteSpares(r, VersionWrites(v), os, ActivePointerKey(a));
    if files.ok {
      ExecuteOk(r, VersionWrites(v), os);
      OtherWritesSpareVersions(files.records, last, files.rest);
      WrittenIsComplete(env, r, Execute(files.records, last, files.rest).records, v);
      PointerThenOthers(files.records, active, more, files.rest, a);
    }
  }

  lemma PointerThenOthers(r: Records, active: ActiveVersion, more: seq<Write>, os: seq<Outcome>, a: string)
    requires forall w | w in more :: NoPointer(w)
    ensures var s := Execute(r, [PointerWrite(active)] + more, os).records;
            Same(r, s, ActivePointerKey(a)) || (ReadActive(s, a).Found? ==> a == active.agentId && ReadActive(s, a).value == active)
  {
    var x := Execute(r, [PointerWrite(active)], os);
    ExecuteAppend(r, [PointerWrite(active)], more, os);
    ExecuteOne(r, PointerWrite(active), os);
    if x.ok {
      ExecuteSpares(x.records, more, x.rest, ActivePointerKey(a));
    }
  }

  lemma WrittenIsComplete(env: Env, r: Records, s: Records, v: PublishedVersion)
    requires SameVersionFiles(ApplyAll(r, VersionWrites(v)), s)
    ensures VersionComplete(env, s, v.agentId, v.versionId)
  {
    PublicationIsLast(v, r);
    assert Same(ApplyAll(r, VersionWrites(v)), s, VersionKey(v.agentId, v.versionId, PUBLICATION));
    VersionWritesStayInside(v);
    assert r + map[] == r;
    ApplyAllOverlays(r, map[], VersionWrites(v));
    VersionFilesKeys(v);
    forall k | k in VersionFiles(v) ensures k in s && s[k] == VersionFiles(v)[k] {
      assert Same(ApplyAll(r, VersionWrites(v)), s, k);
    }
  }

  lemma SeedPointerIsComplete(env: Env, r: Records, q: PublishRequest, os: seq<Outcome>, a: string)
    ensures OldOrComplete(env, r, SeedStep(env, r, q, os).records, a)
  {
    var reserve := AuthorityWrite(q.agentId, None);
    ExecuteOne(r, reserve, os);
    OtherWritesSparePointers(r, [reserve], os);
    var x := Execute(r, [reserve], os);
    assert Same(r, x.records, ActivePointerKey(a));
    if PublishPlan(env, x.records, q).Ok? {
      var done := AuthorityWrite(q.agentId, Some(q.versionId));
      WrittenPointerIsComplete(env, x.records, VersionOf(x.records, q), PointerFor(q), [done], x.rest, a);
    }
  }

  lemma PublishRecordPointerIsComplete(env: Env, r: Records, p: PublicationRecord, n: int, os: seq<Outcome>, a: string)
    ensures OldOrComplete(env, r, PublishRecordStep(r, p, n, os).records, a)
  {
    PublishRecordIsAtomic(r, p, n, os);
    if PublishRecordStep(r, p, n, os).reply.Accepted? {
      WrittenPointerIsComplete(env, r, p.version, p.activation, [], os, a);
      assert VersionWrites(p.version) + [PointerWrite(p.activation)] + [] == VersionWrites(p.version) + [PointerWrite(p.activation)];
    }
  }

  /** Exactly these: pointers that name complete versions go on doing so if and only
      if the step tears no pointer and activates no incomplete version. */
  lemma StepKeepsNamesExactly(env: Env, r: Records, op: Operation, os: seq<Outcome>)
    requires Sound(r) && FreshId(r, op) && PointersName(env, r)
    ensures PointersName(env, Step(env, r, op, os).records) <==>
            !TearsPointer(env, r, op, os) && !ActivatesIncomplete(env, r, op, os)
  {
    var s := Step(env, r, op, os).records;
    NamesAreReadable(env, r);
    StepKeepsPointersExactly(env, r, op, os);
    StepKeepsSound(env, r, op, os);
    if op.ActivateVersion? {
      ActivationNames(env, r, op.activation, os);
    } else if PointersReadable(s) {
      forall a | ActivePointerKey(a) in s
        ensures ReadActive(s, a).Found? && VersionComplete(env, s, a, ReadActive(s, a).value.versionId)
      {
        NewPointerIsComplete(env, r, op, os, a);
        if Same(r, s, ActivePointerKey(a)) {
          CompleteStays(env, r, s, a, ReadActive(r, a).value.versionId);
        }
      }
    } else {
      NamesAreReadable(env, s);
    }
  }

  lemma NamesAreReadable(env: Env, r: Records)
    ensures PointersName(env, r) ==> PointersReadable(r)
  {
    if PointersName(env, r) {
      forall a | ActivePointerKey(a) in r ensures r[ActivePointerKey(a)].PointerFile? {
        assert ReadActive(r, a).Found?;
      }
    }
  }

  lemma ActivationNames(env: Env, r: Records, a: ActivationRecord, os: seq<Outcome>)
    requires PointersName(env, r)
    ensures PointersName(env, Step(env, r, ActivateVersion(a), os).records) <==>
            !TearsPointer(env, r, ActivateVersion(a), os) && !ActivatesIncomplete(env, r, ActivateVersion(a), os)
  {
    if ActivatePlan(env, r, a).Ok? {
      var active := a.activation;
      var s := Apply(r, PointerWrite(active), HeadOutcome(os));
      ExecuteOne(r, PointerWrite(active), os);
      assert VersionFilesStay(r, s) && VersionFilesStay(s, r);
      OtherNamesStay(env, r, s, active.agentId);
      CompleteBothWays(env, r, s, active.agentId, active.versionId);
      if !HeadOutcome(os).FailedBefore? {
        OneNameDecides(env, s, active.agentId);
      }
    }
  }

  lemma OneNameDecides(env: Env, s: Records, a: string)
    requires ActivePointerKey(a) in s
    requires forall b | ActivePointerKey(b) in s && b != a ::
               ReadActive(s, b).Found? && VersionComplete(env, s, b, ReadActive(s, b).value.versionId)
    ensures PointersName(env, s) <==>
            ReadActive(s, a).Found? && VersionComplete(env, s, a, ReadActive(s, a).value.versionId)
  {
  }

  lemma OtherNamesStay(env: Env, r: Records, s: Records, a: string)
    requires PointersName(env, r) && VersionFilesStay(r, s)
    requires forall b | b != a :: Same(r, s, ActivePointerKey(b))
    ensures forall b | ActivePointerKey(b) in s && b != a ::
              ReadActive(s, b).Found? && VersionComplete(env, s, b, ReadActive(s, b).value.versionId)
  {
    forall b | ActivePointerKey(b) in s && b != a
      ensures ReadActive(s, b).Found? && VersionComplete(env, s, b, ReadActive(s, b).value.versionId)
    {
      assert Same(r, s, ActivePointerKey(b));
      assert ActivePointerKey(b) in r && ReadActive(r, b) == ReadActive(s, b);
      CompleteStays(env, r, s, b, ReadActive(r, b).value.versionId);
    }
  }

  lemma CompleteBothWays(env: Env, r: Records, s: Records, a: string, v: string)
    requires VersionFilesStay(r, s) && VersionFilesStay(s, r)
    ensures VersionComplete(env, r, a, v) <==> VersionComplete(env, s, a, v)
  {
    if VersionComplete(env, r, a, v) {
      CompleteStays(env, r, s, a, v);
    }
    if VersionComplete(env, s, a, v) {
      CompleteStays(env, s, r, a, v);
    }
  }

  // ----- runs -----

  ghost predicate EventBreaksPointer(env: Env, m: Machine, e: Event) {
    && e.Locked?
    && (TearsPointer(env, m.records, e.op, e.outcomes) || ActivatesIncomplete(env, m.records, e.op, e.outcomes))
  }

  lemma NextKeepsNamesExactly(env: Env, m: Machine, e: Event)
    requires Sound(m.records) && EventFresh(m, e) && PointersName(env, m.records)
    ensures PointersName(env, Next(env, m, e).records) <==> !EventBreaksPointer(env, m, e)
  {
    if e.Locked? {
      StepKeepsNamesExactly(env, m.records, e.op, e.outcomes);
    } else {
      NextKeepsSound(env, m, e);
      ValidationSparesPointers(env, m, e);
      forall a | ActivePointerKey(a) in Next(env, m, e).records
        ensures ReadActive(Next(env, m, e).records, a).Found?
        ensures VersionComplete(env, Next(env, m, e).records, a, ReadActive(Next(env, m, e).records, a).value.versionId)
      {
        assert Same(m.records, Next(env, m, e).records, ActivePointerKey(a));
        CompleteStays(env, m.records, Next(env, m, e).records, a, ReadActive(m.records, a).value.versionId);
      }
    }
  }

  lemma ValidationSparesPointers(env: Env, m: Machine, e: Event)
    requires !e.Locked?
    ensures forall a :: Same(m.records, Next(env, m, e).records, ActivePointerKey(a))
  {
    if e.EndValidation? && e.ticket in m.pending && EndPlan(m, e).Ok? {
      OtherWritesSparePointers(m.records, EndPlan(m, e).value, e.outcomes);
    }
  }

  ghost predicate PointersNameAt(env: Env, m: Machine, es: seq<Event>, k: nat)
    requires k <= |es|
  {
    PointersName(env, StateAt(env, m, es, k).records)
  }

  ghost predicate NoBrokenPointer(env: Env, m: Machine, es: seq<Event>) {
    forall k | 0 <= k < |es| :: !EventBreaksPointer(env, StateAt(env, m, es, k), es[k])
  }

  lemma {:induction false} NameUpTo(env: Env, m: Machine, es: seq<Event>, k: nat)
    requires Sound(m.records) && RunFresh(env, m, es) && PointersName(env, m.records) && k <= |es|
    requires NoBrokenPointer(env, m, es)
    ensures PointersNameAt(env, m, es, k)
    decreases k
  {
    if k == 0 {
      StateAtEnds(env, m, es);
    } else {
      NameUpTo(env, m, es, k - 1);
      StateAtSound(env, m, es, k - 1);
      StateAtNext(env, m, es, k - 1);
      NextKeepsNamesExactly(env, StateAt(env, m, es, k - 1), es[k - 1]);
    }
  }

  /** In every state of a run every active pointer names a version that is there
      with all its files, if and only if no event of the run tears a pointer or
      activates an incomplete version. */
  lemma RunKeepsPointers(env: Env, m: Machine, es: seq<Event>)
    requires Sound(m.records) && RunFresh(env, m, es) && PointersName(env, m.records)
    ensures (forall k | 0 <= k <= |es| :: PointersNameAt(env, m, es, k)) <==> NoBrokenPointer(env, m, es)
  {
    if NoBrokenPointer(env, m, es) {
      forall k | 0 <= k <= |es| ensures PointersNameAt(env, m, es, k) {
        NameUpTo(env, m, es, k);
      }
    }
    if forall k | 0 <= k <= |es| :: PointersNameAt(env, m, es, k) {
      forall k | 0 <= k < |es| ensures !EventBreaksPointer(env, StateAt(env, m, es, k), es[k]) {
        assert PointersNameAt(env, m, es, k) && PointersNameAt(env, m, es, k + 1);
        StateAtSound(env, m, es, k);
        StateAtNext(env, m, es, k);
        NextKeepsNamesExactly(env, StateAt(env, m, es, k), es[k]);
      }
    }
  }

  predicate EventTearsPointer(env: Env, m: Machine, e: Event) {
    e.Locked? && TearsPointer(env, m.records, e.op, e.outcomes)
  }

  /** Where no event exposes a text, torn pointers are the only danger. */
  lemma RunWithoutTextsKeepsPointers(env: Env, m: Machine, es: seq<Event>)
    requires Sound(m.records) && RunFresh(env, m, es) && PointersName(env, m.records)
    requires VersionsComplete(env, m.records) && NoTextExposed(env, m, es)
    ensures (forall k | 0 <= k <= |es| :: PointersNameAt(env, m, es, k)) <==>
            (forall k | 0 <= k < |es| :: !EventTearsPointer(env, StateAt(env, m, es, k), es[k]))
  {
    RunKeepsPointers(env, m, es);
    forall k | 0 <= k < |es|
      ensures EventBreaksPointer(env, StateAt(env, m, es, k), es[k]) <==> EventTearsPointer(env, StateAt(env, m, es, k), es[k])
    {
      CompleteUpTo(env, m, es, k);
      ActivatesOnlyComplete(env, StateAt(env, m, es, k).records, es[k]);
    }
  }

  lemma ActivatesOnlyComplete(env: Env, r: Records, e: Event)
    requires VersionsComplete(env, r)
    ensures e.Locked? ==> !ActivatesIncomplete(env, r, e.op, e.outcomes)
  {
  }
}
