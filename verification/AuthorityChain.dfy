/** Publication authority records (proof_agent/contracts/knowledge_index.py) and
    what a chain of them, each naming the attestation before it, guarantees. */
module AuthorityChain {
  import opened Text

  datatype Attestation = Attestation(
    sha256: string,
    sourceId: string,
    generationId: string,
    attemptId: string,
    mappingSha256: string,
    manifestRootSha256: string,
    covered: seq<int>,
    parentSha256: Option<string>,
    documentCount: int,
    ruleUnitCount: int)
  {
    /** validate_chain_and_coverage, after sorting, and the field bounds. */
    predicate Valid() {
      && covered != []
      && (forall i | 0 <= i < |covered| :: covered[i] > 0)
      && (forall i, j | 0 <= i < j < |covered| :: covered[i] < covered[j])
      && parentSha256 != Some(sha256)
      && documentCount > 0 && ruleUnitCount > 0
    }
  }

  datatype AttemptState = Building | Validated | Published | Failed

  datatype Attempt = Attempt(
    attemptId: string,
    state: AttemptState,
    sourceId: string,
    sourceDraftVersionId: string,
    validationId: string,
    candidateDigest: string,
    reservedSequence: int,
    generationId: string)

  datatype Generation = Generation(generationId: string, sourceId: string, mappingSha256: string)

  datatype ManifestRoot = ManifestRoot(
    sourceId: string,
    sequence: int,
    snapshotId: string,
    generationId: string,
    rootSha256: string,
    documentCount: int,
    ruleUnitCount: int)

  datatype Publication = Publication(
    sourceId: string,
    sourceDraftVersionId: string,
    snapshotId: string,
    sequence: int,
    candidateDigest: string,
    generationId: string,
    manifestSha256: string,
    attestation: Attestation,
    validationId: string)
  {
    /** HybridKnowledgePublicationRecord.validate_authority_bindings */
    predicate Valid() {
      && attestation.Valid()
      && sequence > 0
      && attestation.sourceId == sourceId
      && attestation.generationId == generationId
      && attestation.manifestRootSha256 == manifestSha256
      && sequence in attestation.covered
    }
  }

  datatype Record = Record(
    attempt: Attempt,
    generation: Generation,
    root: ManifestRoot,
    parent: Option<Attestation>,
    attestation: Attestation,
    publication: Publication)
  {
    /** HybridPublicationAuthorityChain.validate_authority_chain */
    predicate Valid() {
      && attestation.Valid() && publication.Valid() && (parent.Some? ==> parent.value.Valid())
      && attempt.state.Published?
      && attempt.sourceId == generation.sourceId == root.sourceId == attestation.sourceId == publication.sourceId
      && attestation.attemptId == attempt.attemptId
      && publication.sourceDraftVersionId == attempt.sourceDraftVersionId
      && publication.validationId == attempt.validationId
      && publication.candidateDigest == attempt.candidateDigest
      && attempt.reservedSequence == root.sequence == publication.sequence
      && root.snapshotId == publication.snapshotId
      && attempt.generationId == generation.generationId == root.generationId == attestation.generationId == publication.generationId
      && generation.mappingSha256 == attestation.mappingSha256
      && root.rootSha256 == attestation.manifestRootSha256 == publication.manifestSha256
      && attestation.documentCount == root.documentCount
      && attestation.ruleUnitCount == root.ruleUnitCount
      && publication.attestation == attestation
      && publication.sequence in attestation.covered
      && (if parent.None? then attestation.parentSha256.None? else ParentFits(parent.value))
    }

    predicate ParentFits(p: Attestation) {
      && attestation.parentSha256 == Some(p.sha256)
      && p.sourceId == attestation.sourceId
      && p.generationId == attestation.generationId
      && p.mappingSha256 == generation.mappingSha256
      && forall n | n in p.covered :: n in attestation.covered
    }
  }

  /** Increasing positive sequences, positive counts, and another parent than itself. */
  predicate WellFormed(a: Attestation) {
    && a.covered != [] && a.covered[0] > 0 && (forall i | 0 <= i < |a.covered| - 1 :: a.covered[i] < a.covered[i + 1])
    && a.documentCount > 0 && a.ruleUnitCount > 0 && a.parentSha256 != Some(a.sha256)
  }

  lemma {:induction false} StepwiseIncreasing(xs: seq<int>, i: nat, j: nat)
    requires forall k | 0 <= k < |xs| - 1 :: xs[k] < xs[k + 1]
    requires i < j < |xs|
    ensures xs[i] < xs[j]
    decreases j
  {
    if i < j - 1 {
      StepwiseIncreasing(xs, i, j - 1);
    }
  }

  lemma WellFormedExactly(a: Attestation)
    ensures a.Valid() <==> WellFormed(a)
  {
    if WellFormed(a) {
      forall i, j | 0 <= i < j < |a.covered| ensures a.covered[i] < a.covered[j] {
        StepwiseIncreasing(a.covered, i, j);
      }
    }
  }

  /** A record is valid exactly when all its parts speak of one published attempt:
      one source, one generation, one mapping, one manifest root, one snapshot, one
      sequence, which is covered, and the attempt's draft version, validation and
      candidate; and when the parent, if any, is of the same source, generation
      and mapping and everything it covers is covered again. */
  lemma RecordExactly(r: Record)
    ensures var t, g, m, a, p := r.attempt, r.generation, r.root, r.attestation, r.publication;
            r.Valid() <==>
            && t.state == Published && WellFormed(a) && p.attestation == a
            && {g.sourceId, m.sourceId, a.sourceId, p.sourceId} == {t.sourceId}
            && {g.generationId, m.generationId, a.generationId, p.generationId} == {t.generationId}
            && {m.sequence, p.sequence, t.reservedSequence} == {p.sequence} && p.sequence in a.covered
            && {m.rootSha256, p.manifestSha256} == {a.manifestRootSha256}
            && a.attemptId == t.attemptId && a.mappingSha256 == g.mappingSha256 && m.snapshotId == p.snapshotId
            && p.sourceDraftVersionId == t.sourceDraftVersionId && p.validationId == t.validationId
            && p.candidateDigest == t.candidateDigest
            && a.documentCount == m.documentCount && a.ruleUnitCount == m.ruleUnitCount
            && (r.parent.None? ==> a.parentSha256 == None)
            && (r.parent.Some? ==>
                  var q := r.parent.value;
                  && WellFormed(q) && a.parentSha256 == Some(q.sha256)
                  && q.sourceId == a.sourceId && q.generationId == a.generationId && q.mappingSha256 == a.mappingSha256
                  && forall i | 0 <= i < |q.covered| :: q.covered[i] in a.covered)
  {
    var t, g, m, a, p := r.attempt, r.generation, r.root, r.attestation, r.publication;
    WellFormedExactly(a);
    WellFormedExactly(p.attestation);
    if r.parent.Some? {
      WellFormedExactly(r.parent.value);
    }
    AllSame4([g.sourceId, m.sourceId, a.sourceId, p.sourceId], t.sourceId);
    AllSame4([g.generationId, m.generationId, a.generationId, p.generationId], t.generationId);
    AllSame3([m.sequence, p.sequence, t.reservedSequence], p.sequence);
    AllSame3([m.rootSha256, p.manifestSha256, p.manifestSha256], a.manifestRootSha256);
    if WellFormed(a) && p.sequence in a.covered {
      var i :| 0 <= i < |a.covered| && a.covered[i] == p.sequence;
      assert p.sequence > 0;
    }
  }

  ghost predicate AllValid(chain: seq<Record>) {
    forall i | 0 <= i < |chain| :: chain[i].Valid()
  }

  /** Each record's parent is the attestation of the record before it. */
  ghost predicate Linked(chain: seq<Record>) {
    forall i | 0 < i < |chain| :: chain[i].parent == Some(chain[i - 1].attestation)
  }

  /** Each record only names the digest of the attestation before it. */
  ghost predicate LinkedByDigest(chain: seq<Record>) {
    forall i | 0 < i < |chain| :: chain[i].attestation.parentSha256 == Some(chain[i - 1].attestation.sha256)
  }

  /** Along a linked chain of any length every attestation covers all earlier
      publications and everything earlier attestations covered, and source,
      generation and mapping never change. */
  lemma {:induction false} ChainCoversEarlier(chain: seq<Record>, i: nat, j: nat)
    requires AllValid(chain) && Linked(chain) && i <= j < |chain|
    ensures chain[i].publication.sequence in chain[j].attestation.covered
    ensures forall n | n in chain[i].attestation.covered :: n in chain[j].attestation.covered
    ensures chain[i].attestation.sourceId == chain[j].attestation.sourceId
    ensures chain[i].attestation.generationId == chain[j].attestation.generationId
    ensures chain[i].attestation.mappingSha256 == chain[j].attestation.mappingSha256
    decreases j - i
  {
    assert chain[i].Valid() && chain[j].Valid();
    if i < j {
      ChainCoversEarlier(chain, i, j - 1);
      assert chain[j].ParentFits(chain[j - 1].attestation);
    }
  }

  /** As many different sequences as were published are covered at the end. */
  lemma ChainCoverageCounts(chain: seq<Record>)
    requires AllValid(chain) && Linked(chain) && chain != []
    requires forall i, j | 0 <= i < j < |chain| :: chain[i].publication.sequence != chain[j].publication.sequence
    ensures |chain[|chain| - 1].attestation.covered| >= |chain|
  {
    var covered := chain[|chain| - 1].attestation.covered;
    var sequences := seq(|chain|, i requires 0 <= i < |chain| => chain[i].publication.sequence);
    forall i | 0 <= i < |chain| ensures sequences[i] in covered {
      ChainCoversEarlier(chain, i, |chain| - 1);
    }
    DistinctFit(sequences, covered);
  }

  lemma {:induction false} DistinctFit(xs: seq<int>, ys: seq<int>)
    requires forall i, j | 0 <= i < j < |xs| :: xs[i] != xs[j]
    requires forall i | 0 <= i < |xs| :: xs[i] in ys
    ensures |xs| <= |ys|
    decreases |xs|
  {
    if xs != [] {
      var k :| 0 <= k < |ys| && ys[k] == xs[0];
      var rest := ys[..k] + ys[k + 1..];
      forall i | 0 <= i < |xs[1..]| ensures xs[1..][i] in rest {
        var m :| 0 <= m < |ys| && ys[m] == xs[i + 1];
        assert m != k;
        assert rest[if m < k then m else m - 1] == ys[m];
      }
      DistinctFit(xs[1..], rest);
    }
  }

  /** Two different attestations with one digest do not occur. */
  ghost predicate DigestsIdentify(chain: seq<Record>) {
    forall i, j | 0 <= i < |chain| && 0 <= j < |chain| && chain[i].parent.Some? ::
      chain[i].parent.value.sha256 == chain[j].attestation.sha256 ==> chain[i].parent.value == chain[j].attestation
  }

  /** Digests suffice to link a chain as long as they identify attestations. */
  lemma DigestLinksSuffice(chain: seq<Record>)
    requires AllValid(chain) && LinkedByDigest(chain) && DigestsIdentify(chain)
    ensures Linked(chain)
  {
    forall i | 0 < i < |chain| ensures chain[i].parent == Some(chain[i - 1].attestation) {
      assert chain[i].Valid();
    }
  }

  function SimpleRecord(sequence: int, sha: string, covered: seq<int>, parent: Option<Attestation>): Record {
    var parentSha := if parent.None? then None else Some(parent.value.sha256);
    var a := Attestation(sha, "s", "g", "t", "m", "r", covered, parentSha, 1, 1);
    Record(
      Attempt("t", Published, "s", "d", "v", "c", sequence, "g"),
      Generation("g", "s", "m"),
      ManifestRoot("s", sequence, "n", "g", "r", 1, 1),
      parent, a,
      Publication("s", "d", "n", sequence, "c", "g", "r", a, "v"))
  }

  /** They have to: the validator compares the digest of the parent record
      it is given, so another record under the same digest loses coverage. */
  lemma DigestLinksAloneLoseCoverage()
    ensures exists chain: seq<Record> ::
              && AllValid(chain) && LinkedByDigest(chain) && |chain| == 2
              && chain[0].publication.sequence !in chain[1].attestation.covered
  {
    var first := SimpleRecord(1, "x", [1], None);
    var other := Attestation("x", "s", "g", "t", "m", "r", [2], None, 1, 1);
    var second := SimpleRecord(2, "y", [2], Some(other));
    var chain := [first, second];
    assert first.Valid() && second.Valid();
    assert chain[0].publication.sequence !in chain[1].attestation.covered;
    assert AllValid(chain) && LinkedByDigest(chain);
  }
}
