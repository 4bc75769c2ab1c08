/** The canonical seed reservation: once a local store is reserved for one agent
    identity, no other agent becomes active in it. */
module StoreReservation {
  import opened Text
  import opened StorePaths
  import opened StoreRecords
  import opened StoreOperations
  import opened StoreInvariants
  import opened StoreRuns

  /** While the reservation exists, every active pointer file, readable or not,
      belongs to the reserved agent. */
  ghost predicate Reserves(r: Records) {
    && (SeedAuthorityKey in r ==> r[SeedAuthorityKey].AuthorityFile?)
    && (ReadAuthority(r).Found? ==> ActiveAgents(r) <= {ReadAuthority(r).value})
  }

  ghost predicate KeepsAuthority(r: Records, s: Records) {
    ReadAuthority(r).Found? ==> ReadAuthority(s) == ReadAuthority(r)
  }

  /** A write the reservation allows. */
  ghost predicate Allowed(r: Records, w: Write) {
    w.Put? ==>
      match w.key
      case ActivePointerKey(a) => ReadAuthority(r).Found? ==> ReadAuthority(r).value == a
      case SeedAuthorityKey =>
        && w.atomic && w.content.AuthorityFile?
        && (if ReadAuthority(r).Found? then ReadAuthority(r).value == w.content.canonicalAgentId
            else ActiveAgents(r) <= {w.content.canonicalAgentId})
      case _ => true
  }

  ghost predicate AllowedAll(r: Records, ws: seq<Write>)
    decreases |ws|
  {
    ws == [] || (Allowed(r, ws[0]) && AllowedAll(Apply(r, ws[0], Done), ws[1..]))
  }

  lemma AllowedKeepsReserves(r: Records, w: Write, o: Outcome)
    requires Reserves(r) && Allowed(r, w)
    ensures Reserves(Apply(r, w, o)) && KeepsAuthority(r, Apply(r, w, o))
  {
    var s := Apply(r, w, o);
    if ReadAuthority(s).Found? {
      forall a | a in ActiveAgents(s) ensures a == ReadAuthority(s).value {
        assert ActivePointerKey(a) in s;
        assert ActivePointerKey(a) in r ==> a in ActiveAgents(r);
      }
    }
  }

  lemma {:induction false} ExecuteKeepsReserves(r: Records, ws: seq<Write>, os: seq<Outcome>)
    requires Reserves(r) && AllowedAll(r, ws)
    ensures Reserves(Execute(r, ws, os).records) && KeepsAuthority(r, Execute(r, ws, os).records)
    decreases |ws|
  {
    if ws != [] {
      AllowedKeepsReserves(r, ws[0], HeadOutcome(os));
      if HeadOutcome(os).Done? {
        ExecuteKeepsReserves(Apply(r, ws[0], Done), ws[1..], TailOutcomes(os));
      }
    }
  }

  /** Writes that stay away from pointers and the reservation. */
  predicate Neutral(w: Write) {
    w.Put? ==> !w.key.ActivePointerKey? && !w.key.SeedAuthorityKey?
  }

  lemma {:induction false} NeutralThenAllowed(r: Records, ws: seq<Write>, more: seq<Write>)
    requires forall w | w in ws :: Neutral(w)
    requires forall s | ReadAuthority(s) == ReadAuthority(r) && ActiveAgents(s) == ActiveAgents(r) :: AllowedAll(s, more)
    ensures AllowedAll(r, ws + more)
    decreases |ws|
  {
    if ws == [] {
      assert ws + more == more;
    } else {
      assert (ws + more)[1..] == ws[1..] + more;
      assert ws[0] in ws && forall w | w in ws[1..] :: w in ws;
      NeutralKeeps(r, ws[0]);
      NeutralThenAllowed(Apply(r, ws[0], Done), ws[1..], more);
    }
  }

  lemma NeutralKeeps(r: Records, w: Write)
    requires Neutral(w)
    ensures ReadAuthority(Apply(r, w, Done)) == ReadAuthority(r)
    ensures ActiveAgents(Apply(r, w, Done)) == ActiveAgents(r)
  {
    var s := Apply(r, w, Done);
    forall a ensures a in ActiveAgents(s) <==> a in ActiveAgents(r) {
      assert ActivePointerKey(a) in r <==> ActivePointerKey(a) in s;
    }
  }

  lemma NeutralAllowed(r: Records, ws: seq<Write>)
    requires forall w | w in ws :: Neutral(w)
    ensures AllowedAll(r, ws)
  {
    NeutralThenAllowed(r, ws, []);
    assert ws + [] == ws;
  }

  lemma PublishAllowed(r: Records, v: PublishedVersion, active: ActiveVersion)
    requires active.agentId == v.agentId
    requires ReadAuthority(r).Found? ==> ReadAuthority(r).value == v.agentId
    ensures AllowedAll(r, VersionWrites(v) + [PointerWrite(active)])
  {
    VersionWritesStayInside(v);
    assert forall s :: AllowedAll(s, [PointerWrite(active)]) <== Allowed(s, PointerWrite(active)) by {
      assert [PointerWrite(active)][1..] == [];
    }
    NeutralThenAllowed(r, VersionWrites(v), [PointerWrite(active)]);
  }

  lemma SeedKeepsReserves(env: Env, r: Records, q: PublishRequest, os: seq<Outcome>)
    requires Reserves(r)
    ensures Reserves(SeedStep(env, r, q, os).records) && KeepsAuthority(r, SeedStep(env, r, q, os).records)
  {
    if ActiveAgents(r) == {} && SeedAuthorityKey !in r {
      var reserve := AuthorityWrite(q.agentId, None);
      ExecuteOne(r, reserve, os);
      AllowedKeepsReserves(r, reserve, HeadOutcome(os));
      var x := Execute(r, [reserve], os);
      var plan := PublishPlan(env, x.records, q);
      if x.ok && plan.Ok? {
        var v := VersionFrom(q, ReadDraft(x.records, q.agentId, q.draftId).value);
        var done := AuthorityWrite(q.agentId, Some(q.versionId));
        SeedWritesAllowed(x.records, v, PointerFor(q), done);
        ExecuteKeepsReserves(x.records, plan.value + [done], x.rest);
      }
    }
  }

  lemma SeedWritesAllowed(r: Records, v: PublishedVersion, active: ActiveVersion, done: Write)
    requires active.agentId == v.agentId
    requires ReadAuthority(r) == Found(v.agentId)
    requires done.Put? && done.key == SeedAuthorityKey && done.atomic
    requires done.content.AuthorityFile? && done.content.canonicalAgentId == v.agentId
    ensures AllowedAll(r, VersionWrites(v) + [PointerWrite(active)] + [done])
  {
    VersionWritesStayInside(v);
    var last := [PointerWrite(active), done];
    forall s | ReadAuthority(s) == ReadAuthority(r) && ActiveAgents(s) == ActiveAgents(r)
      ensures AllowedAll(s, last)
    {
      assert last[1..] == [done] && [done][1..] == [];
      var t := Apply(s, last[0], Done);
      assert AllowedAll(Apply(t, done, Done), []);
      assert AllowedAll(t, [done]);
    }
    NeutralThenAllowed(r, VersionWrites(v), last);
    assert VersionWrites(v) + [PointerWrite(active)] + [done] == VersionWrites(v) + last;
  }

  lemma PlanAllowed(env: Env, r: Records, op: Operation)
    requires !op.PublishRecord? && !op.SeedVersion? && !op.EnsureAuthority?
    ensures Plan(env, r, op).Ok? ==> AllowedAll(r, Plan(env, r, op).value)
  {
    if Plan(env, r, op).Ok? {
      if op.PublishVersion? {
        var q := op.request;
        PublishAllowed(r, VersionFrom(q, ReadDraft(r, q.agentId, q.draftId).value), PointerFor(q));
      } else if op.ActivateVersion? {
        assert [PointerWrite(op.activation.activation)][1..] == [];
      } else {
        NeutralAllowed(r, Plan(env, r, op).value);
      }
    }
  }

  /** Every locked body but a prepared publication keeps the reservation, even
      when one of its writes raises. */
  lemma StepKeepsReserves(env: Env, r: Records, op: Operation, os: seq<Outcome>)
    requires Reserves(r) && !op.PublishRecord?
    ensures Reserves(Step(env, r, op, os).records) && KeepsAuthority(r, Step(env, r, op, os).records)
  {
    if op.SeedVersion? {
      SeedKeepsReserves(env, r, op.seed, os);
    } else if op.EnsureAuthority? {
      if ReadActive(r, op.seedAgentId).Found? {
        var w := AuthorityWrite(op.seedAgentId, Some(ReadActive(r, op.seedAgentId).value.versionId));
        ExecuteOne(r, w, os);
        if ActiveAgents(r) == {op.seedAgentId} && ReadAuthority(r).Missing? {
          AllowedKeepsReserves(r, w, HeadOutcome(os));
        }
      }
    } else if Plan(env, r, op).Ok? {
      PlanAllowed(env, r, op);
      ExecuteKeepsReserves(r, Plan(env, r, op).value, os);
    }
  }

  /** A prepared publication is not checked against the reservation: a successful
      one keeps it exactly when it publishes the reserved agent or the store is
      not reserved. */
  lemma PublishRecordKeepsReservesExactly(r: Records, p: PublicationRecord, n: int, os: seq<Outcome>)
    requires Reserves(r) && PublishRecordStep(r, p, n, os).reply.Accepted?
    ensures Reserves(PublishRecordStep(r, p, n, os).records) <==>
              (ReadAuthority(r).Found? ==> ReadAuthority(r).value == p.version.agentId)
  {
    var v := p.version;
    var after := PublishRecordStep(r, p, n, os).records;
    PublishRecordIsAtomic(r, p, n, os);
    PublishRecordSpares(r, p, n, os, SeedAuthorityKey);
    VersionWritesStayInside(v);
    ExecuteOk(r, VersionWrites(v), []);
    assert ActivePointerKey(v.agentId) in after;
    assert v.agentId in ActiveAgents(after);
    forall a | a != v.agentId ensures a in ActiveAgents(after) <==> a in ActiveAgents(r) {
      ExecuteSpares(r, VersionWrites(v), [], ActivePointerKey(a));
      assert ActivePointerKey(a) in after <==> ActivePointerKey(a) in r;
    }
  }

  /** A prepared publication that goes through for another agent than the
      reserved one. */
  predicate BreaksReservation(env: Env, m: Machine, e: Event) {
    && e.Locked? && e.op.PublishRecord?
    && ReadAuthority(m.records).Found? && ReadAuthority(m.records).value != e.op.publication.version.agentId
    && Step(env, m.records, e.op, e.outcomes).reply.Accepted?
  }

  /** Nothing else breaks it: from a state that respects its reservation an event
      leads to such a state exactly when it is no such publication. */
  lemma NextKeepsReservesExactly(env: Env, m: Machine, e: Event)
    requires Reserves(m.records)
    ensures Reserves(Next(env, m, e).records) <==> !BreaksReservation(env, m, e)
    ensures KeepsAuthority(m.records, Next(env, m, e).records)
  {
    if e.Locked? && e.op.PublishRecord? {
      var p, n := e.op.publication, e.op.expectedDraftRevision;
      PublishRecordIsAtomic(m.records, p, n, e.outcomes);
      PublishRecordSpares(m.records, p, n, e.outcomes, SeedAuthorityKey);
      if Step(env, m.records, e.op, e.outcomes).reply.Accepted? {
        PublishRecordKeepsReservesExactly(m.records, p, n, e.outcomes);
      }
    } else if e.Locked? {
      StepKeepsReserves(env, m.records, e.op, e.outcomes);
    } else if e.EndValidation? && e.ticket in m.pending && EndPlan(m, e).Ok? {
      ExecuteOne(m.records, EndPlan(m, e).value[0], e.outcomes);
      AllowedKeepsReserves(m.records, EndPlan(m, e).value[0], HeadOutcome(e.outcomes));
    }
  }

  ghost predicate RespectsReservation(env: Env, m: Machine, es: seq<Event>) {
    forall k | 0 <= k < |es| :: !BreaksReservation(env, StateAt(env, m, es, k), es[k])
  }

  ghost predicate ReservesAt(env: Env, m: Machine, es: seq<Event>, k: nat)
    requires k <= |es|
  {
    Reserves(StateAt(env, m, es, k).records)
  }

  lemma {:induction false} ReservesUpTo(env: Env, m: Machine, es: seq<Event>, k: nat)
    requires Reserves(m.records) && RespectsReservation(env, m, es) && k <= |es|
    ensures ReservesAt(env, m, es, k) && KeepsAuthority(m.records, StateAt(env, m, es, k).records)
    decreases k
  {
    if k == 0 {
      StateAtEnds(env, m, es);
    } else {
      ReservesUpTo(env, m, es, k - 1);
      StateAtNext(env, m, es, k - 1);
      NextKeepsReservesExactly(env, StateAt(env, m, es, k - 1), es[k - 1]);
    }
  }

  /** In every state of a run all active pointers belong to the agent the store
      is reserved for, if it is reserved, exactly when no prepared publication of
      another agent goes through. */
  lemma RunKeepsReservationExactly(env: Env, m: Machine, es: seq<Event>)
    requires Reserves(m.records)
    ensures (forall k | 0 <= k <= |es| :: ReservesAt(env, m, es, k)) <==> RespectsReservation(env, m, es)
  {
    if RespectsReservation(env, m, es) {
      forall k | 0 <= k <= |es| ensures ReservesAt(env, m, es, k) {
        ReservesUpTo(env, m, es, k);
      }
    }
    if forall k | 0 <= k <= |es| :: ReservesAt(env, m, es, k) {
      forall k | 0 <= k < |es| ensures !BreaksReservation(env, StateAt(env, m, es, k), es[k]) {
        assert ReservesAt(env, m, es, k) && ReservesAt(env, m, es, k + 1);
        StateAtNext(env, m, es, k);
        NextKeepsReservesExactly(env, StateAt(env, m, es, k), es[k]);
      }
    }
  }

  /** Once a store is reserved, then as long as no prepared publication of another
      agent goes through, the reservation names the same agent and every agent
      with an active pointer is that one. */
  lemma ReservationIsPermanent(env: Env, m: Machine, es: seq<Event>)
    requires Reserves(m.records) && RespectsReservation(env, m, es)
    requires ReadAuthority(m.records).Found?
    ensures var later := Run(env, m, es).records;
            ReadAuthority(later) == ReadAuthority(m.records)
            && ActiveAgents(later) <= {ReadAuthority(m.records).value}
  {
    ReservesUpTo(env, m, es, |es|);
    StateAtEnds(env, m, es);
  }

  /** Even a seeding that fails reserves the store or leaves it as it was, and
      never activates anyone else. */
  lemma FailedSeedStaysReserved(env: Env, r: Records, q: PublishRequest, os: seq<Outcome>)
    requires Reserves(r) && ActiveAgents(r) == {} && SeedAuthorityKey !in r
    ensures var after := SeedStep(env, r, q, os).records;
            && (after == r || ReadAuthority(after) == Found(q.agentId))
            && ActiveAgents(after) <= {q.agentId}
  {
    var reserve := AuthorityWrite(q.agentId, None);
    ExecuteOne(r, reserve, os);
    SeedKeepsReserves(env, r, q, os);
    var x := Execute(r, [reserve], os);
    var plan := PublishPlan(env, x.records, q);
    if x.ok && plan.Ok? {
      var v := VersionFrom(q, ReadDraft(x.records, q.agentId, q.draftId).value);
      SeedWritesAllowed(x.records, v, PointerFor(q), AuthorityWrite(q.agentId, Some(q.versionId)));
      AllowedKeepsReserves(r, reserve, HeadOutcome(os));
      ExecuteKeepsReserves(x.records, plan.value + [AuthorityWrite(q.agentId, Some(q.versionId))], x.rest);
    }
  }
}
