/** The validators a formal publication passes through
    (proof_agent/contracts/agent_configuration.py, persistence.py), and the
    version, publication record and command receipt built from their facts. */
module FormalPublication {
  import opened Text

  // ----- facts -----

  predicate IsIdentifierStart(c: char) {
    IsDigit(c) || 'A' <= c <= 'Z' || 'a' <= c <= 'z'
  }

  /** KnowledgeServiceIdentifier */
  predicate IsIdentifier(s: string) {
    && 1 <= |s| <= 128 && IsIdentifierStart(s[0])
    && forall c | c in s :: IsIdentifierStart(c) || c == '.' || c == '_' || c == '-'
  }

  lemma IdentifierIsNotBlank(s: string)
    requires IsIdentifier(s)
    ensures s != "" && Strip(s) != ""
  {
    assert !IsSpace(s[0]);
    StripEmpty(s);
  }

  datatype Release = Release(spaceId: string, baseId: string, releaseId: string)

  datatype Binding = KssBinding(releaseId: string) | OtherBinding

  datatype Candidate = Candidate(
    agentId: string,
    draftId: string,
    draftRevision: int,
    displayName: string,
    purpose: string,
    bundle: string,
    release: Release,
    bindings: seq<Binding>,
    releaseSha256: string,
    candidateSha256: string)
  {
    /** require_exact_draft_release_binding */
    predicate Valid() {
      draftRevision >= 1 && bindings == [KssBinding(release.releaseId)]
    }
  }

  datatype PhaseFRecord = PhaseFRecord(
    provisionalVersionId: string,
    validationRunId: string,
    candidateSha256: string,
    releaseSha256: string,
    createdBy: string)

  datatype Provisional = Provisional(
    agentId: string,
    versionId: string,
    sourceDraftId: string,
    sourceDraftRevision: int,
    validationRunId: string,
    displayName: string,
    purpose: string,
    bundle: string,
    candidateSha256: string,
    releaseSha256: string,
    bindings: seq<Binding>,
    record: PhaseFRecord)
  {
    /** require_phase_f_record_identity */
    predicate Valid() {
      && record.provisionalVersionId == versionId
      && record.validationRunId == validationRunId
      && record.candidateSha256 == candidateSha256
      && record.releaseSha256 == releaseSha256
    }
  }

  datatype Preparation = Preparation(candidate: Candidate, provisional: Provisional) {
    /** require_provisional_version_matches_candidate */
    predicate Valid() {
      && candidate.Valid() && provisional.Valid()
      && provisional.agentId == candidate.agentId
      && provisional.sourceDraftId == candidate.draftId
      && provisional.sourceDraftRevision == candidate.draftRevision
      && provisional.displayName == candidate.displayName
      && provisional.purpose == candidate.purpose
      && provisional.bundle == candidate.bundle
      && provisional.bindings == candidate.bindings
      && provisional.candidateSha256 == candidate.candidateSha256
      && provisional.releaseSha256 == candidate.releaseSha256
    }
  }

  datatype Reference = Reference(referenceId: string, release: Release, externalResourceId: string)

  datatype ReferenceStaging = ReferenceStaging(preparation: Preparation, reference: Reference) {
    /** require_reference_matches_preparation */
    predicate Valid() {
      && preparation.Valid()
      && IsIdentifier(reference.referenceId)
      && reference.release == preparation.candidate.release
      && reference.externalResourceId == preparation.provisional.versionId
    }
  }

  datatype QueryGrant = QueryGrant(releaseId: string, spaceId: string)

  datatype GrantStaging = GrantStaging(staging: ReferenceStaging, grant: QueryGrant) {
    /** require_grant_matches_candidate */
    predicate Valid() {
      && staging.Valid()
      && grant.releaseId == staging.preparation.candidate.release.releaseId
      && grant.spaceId == staging.preparation.candidate.release.spaceId
    }
  }

  datatype SmokeRequest = SmokeRequest(
    agentId: string,
    versionId: string,
    validationRunId: string,
    candidateSha256: string,
    releaseSha256: string,
    release: Release,
    referenceId: string)
  {
    predicate Valid() {
      IsIdentifier(versionId) && IsIdentifier(validationRunId) && IsIdentifier(referenceId)
    }
  }

  datatype SmokeResult = SmokeResult(
    agentId: string,
    versionId: string,
    validationRunId: string,
    referenceId: string,
    answeredWithCitations: bool,
    acceptedCitations: int,
    traceRef: string,
    receiptRef: string)
  {
    /** require_distinct_evidence */
    predicate Valid() {
      acceptedCitations >= 0 && traceRef != receiptRef
    }

    predicate Passed() {
      answeredWithCitations && acceptedCitations >= 1
    }
  }

  datatype Qualification = Qualification(grant: GrantStaging, request: SmokeRequest, result: SmokeResult) {
    /** require_exact_successful_smoke */
    predicate Valid() {
      var staging := grant.staging;
      var candidate := staging.preparation.candidate;
      var provisional := staging.preparation.provisional;
      && grant.Valid() && request.Valid() && result.Valid()
      && request.agentId == candidate.agentId
      && request.versionId == provisional.versionId
      && request.validationRunId == provisional.validationRunId
      && request.candidateSha256 == candidate.candidateSha256
      && request.releaseSha256 == candidate.releaseSha256
      && request.release == candidate.release
      && request.referenceId == staging.reference.referenceId
      && result.agentId == request.agentId
      && result.versionId == request.versionId
      && result.validationRunId == request.validationRunId
      && result.referenceId == request.referenceId
      && result.Passed()
    }
  }

  // ----- what is published -----

  datatype Evidence = Evidence(
    sourceDraftRevision: int, record: PhaseFRecord, reference: Reference, smoke: SmokeResult)
  {
    /** FormalProductionAgentPublicationEvidence.require_exact_qualified_identity */
    predicate Valid() {
      && sourceDraftRevision >= 1 && smoke.Valid()
      && record.provisionalVersionId == reference.externalResourceId
      && smoke.versionId == record.provisionalVersionId
      && smoke.validationRunId == record.validationRunId
      && smoke.referenceId == reference.referenceId
      && smoke.Passed()
    }
  }

  datatype Audit = Audit(isPublication: bool, actor: string)

  datatype Version = Version(
    agentId: string,
    versionId: string,
    sourceDraftId: string,
    validationRunId: string,
    displayName: string,
    purpose: string,
    bundle: string,
    publishedAt: string,
    publishedBy: string,
    audit: seq<Audit>,
    bindings: Option<seq<Binding>>,
    legacyRecord: bool,
    evidence: Option<Evidence>)
  {
    /** PublishedAgentVersion's validators */
    predicate Valid() {
      && Strip(validationRunId) != ""
      && (evidence.Some? ==> evidence.value.Valid() && EvidenceFits(evidence.value))
    }

    /** require_formal_production_evidence_identity */
    predicate EvidenceFits(e: Evidence) {
      && !legacyRecord
      && e.record.provisionalVersionId == versionId
      && e.record.validationRunId == validationRunId
      && e.record.createdBy == publishedBy
      && e.reference.externalResourceId == versionId
      && e.smoke.agentId == agentId
      && e.smoke.versionId == versionId
      && e.smoke.validationRunId == validationRunId
      && (exists a | a in audit :: a.isPublication && a.actor == publishedBy)
      && bindings == Some([KssBinding(e.reference.release.releaseId)])
    }
  }

  datatype Activation = Activation(
    agentId: string, versionId: string, activatedAt: string, activatedBy: string, rollbackFrom: Option<string>)

  datatype PublicationRecord = PublicationRecord(
    version: Version, activation: Activation, draftRevision: int, expectation: Option<Option<string>>)
  {
    /** AgentPublicationRecord.require_matching_identities */
    predicate Valid() {
      && version.Valid() && draftRevision >= 1
      && activation.agentId == version.agentId
      && activation.versionId == version.versionId
      && (version.evidence.Some? ==>
            && version.evidence.value.sourceDraftRevision == draftRevision
            && expectation.Some?
            && activation.activatedAt == version.publishedAt
            && activation.activatedBy == version.publishedBy
            && activation.rollbackFrom.None?)
    }
  }

  // ----- what the validators ask for together -----

  /** The identities a valid qualification carries agree throughout its stages: one
      agent, version, run, candidate, release and reference, and the draft the
      candidate was made from; the only knowledge binding is the release, and the
      smoke test answered with citations. */
  lemma QualificationExactly(q: Qualification)
    ensures var staging := q.grant.staging;
            var c, p, x, s := staging.preparation.candidate, staging.preparation.provisional, q.request, q.result;
            q.Valid() <==>
            && {p.agentId, x.agentId, s.agentId} == {c.agentId}
            && {p.record.provisionalVersionId, staging.reference.externalResourceId, x.versionId, s.versionId} == {p.versionId}
            && {p.record.validationRunId, x.validationRunId, s.validationRunId} == {p.validationRunId}
            && {p.candidateSha256, p.record.candidateSha256, x.candidateSha256} == {c.candidateSha256}
            && {p.releaseSha256, p.record.releaseSha256, x.releaseSha256} == {c.releaseSha256}
            && {staging.reference.release, x.release} == {c.release}
            && q.grant.grant == QueryGrant(c.release.releaseId, c.release.spaceId)
            && {x.referenceId, s.referenceId} == {staging.reference.referenceId}
            && p.sourceDraftId == c.draftId && p.sourceDraftRevision == c.draftRevision >= 1
            && p.displayName == c.displayName && p.purpose == c.purpose && p.bundle == c.bundle
            && p.bindings == c.bindings == [KssBinding(c.release.releaseId)]
            && IsIdentifier(x.versionId) && IsIdentifier(x.validationRunId) && IsIdentifier(x.referenceId)
            && s.answeredWithCitations && s.acceptedCitations >= 1 && s.traceRef != s.receiptRef
  {
    var staging := q.grant.staging;
    var c, p, x, s := staging.preparation.candidate, staging.preparation.provisional, q.request, q.result;
    AllSame3([p.agentId, x.agentId, s.agentId], c.agentId);
    AllSame4([p.record.provisionalVersionId, staging.reference.externalResourceId, x.versionId, s.versionId], p.versionId);
    AllSame3([p.record.validationRunId, x.validationRunId, s.validationRunId], p.validationRunId);
    AllSame3([p.candidateSha256, p.record.candidateSha256, x.candidateSha256], c.candidateSha256);
    AllSame3([p.releaseSha256, p.record.releaseSha256, x.releaseSha256], c.releaseSha256);
    AllSame3([staging.reference.release, x.release, x.release], c.release);
    AllSame3([x.referenceId, s.referenceId, s.referenceId], staging.reference.referenceId);
  }

  /** A publication record with evidence is valid exactly when version, pointer and
      evidence speak of one agent, version, run, reference, draft revision,
      publisher and time, the run passed, the version retains that release as its
      only binding and an entry of its publication, and the pointer that is to be
      replaced is given. */
  lemma FormalRecordExactly(p: PublicationRecord)
    requires p.version.evidence.Some?
    ensures var v, a, e := p.version, p.activation, p.version.evidence.value;
            p.Valid() <==>
            && {a.versionId, e.record.provisionalVersionId, e.reference.externalResourceId, e.smoke.versionId} == {v.versionId}
            && {a.agentId, e.smoke.agentId} == {v.agentId}
            && {e.record.validationRunId, e.smoke.validationRunId} == {v.validationRunId} && !IsBlank(v.validationRunId)
            && e.smoke.referenceId == e.reference.referenceId
            && e.sourceDraftRevision == p.draftRevision >= 1
            && {e.record.createdBy, a.activatedBy} == {v.publishedBy} && Audit(true, v.publishedBy) in v.audit
            && a.activatedAt == v.publishedAt && a.rollbackFrom == None && p.expectation != None
            && v.bindings == Some([KssBinding(e.reference.release.releaseId)]) && !v.legacyRecord
            && e.smoke.answeredWithCitations && e.smoke.acceptedCitations >= 1 && e.smoke.traceRef != e.smoke.receiptRef
  {
    var v, a, e := p.version, p.activation, p.version.evidence.value;
    StripEmpty(v.validationRunId);
    AllSame4([a.versionId, e.record.provisionalVersionId, e.reference.externalResourceId, e.smoke.versionId], v.versionId);
    AllSame3([a.agentId, e.smoke.agentId, e.smoke.agentId], v.agentId);
    AllSame3([e.record.validationRunId, e.smoke.validationRunId, e.smoke.validationRunId], v.validationRunId);
    AllSame3([e.record.createdBy, a.activatedBy, a.activatedBy], v.publishedBy);
    forall x: Audit ensures x.isPublication && x.actor == v.publishedBy <==> x == Audit(true, v.publishedBy) {
    }
  }

  // ----- building it -----

  function EvidenceOf(q: Qualification): Evidence {
    var staging := q.grant.staging;
    Evidence(staging.preparation.candidate.draftRevision, staging.preparation.provisional.record, staging.reference, q.result)
  }

  /** The version a formal publication builds from a qualification. */
  function VersionOf(q: Qualification, publishedAt: string, actor: string): Version {
    var p := q.grant.staging.preparation.provisional;
    Version(
      p.agentId, p.versionId, p.sourceDraftId, p.validationRunId, p.displayName, p.purpose, p.bundle,
      publishedAt, actor, [Audit(true, actor)], Some(p.bindings), false, Some(EvidenceOf(q)))
  }

  function RecordOf(q: Qualification, publishedAt: string, actor: string, pointer: Option<string>): PublicationRecord {
    var v := VersionOf(q, publishedAt, actor);
    PublicationRecord(
      v, Activation(v.agentId, v.versionId, publishedAt, actor, None),
      q.grant.staging.preparation.candidate.draftRevision, Some(pointer))
  }

  /** A valid qualification always yields valid evidence. */
  lemma QualificationGivesEvidence(q: Qualification)
    requires q.Valid()
    ensures EvidenceOf(q).Valid()
  {
  }

  /** The version and the whole publication record built from a valid
      qualification are valid exactly when the publisher is the one who prepared
      the Phase F record; nothing else can fail. */
  lemma QualificationGivesPublication(q: Qualification, publishedAt: string, actor: string, pointer: Option<string>)
    requires q.Valid()
    ensures VersionOf(q, publishedAt, actor).Valid() <==>
            q.grant.staging.preparation.provisional.record.createdBy == actor
    ensures RecordOf(q, publishedAt, actor, pointer).Valid() <==>
            q.grant.staging.preparation.provisional.record.createdBy == actor
  {
    QualificationGivesEvidence(q);
    IdentifierIsNotBlank(q.request.validationRunId);
    var v := VersionOf(q, publishedAt, actor);
    assert Audit(true, actor) in v.audit;
  }

  /** What is built keeps what was qualified: the version has the identities of the
      request and the facts of the candidate, its evidence is the record, reference
      and smoke result of the qualification, and the pointer is to replace exactly
      the one given, at the candidate's draft revision. */
  lemma PublicationKeepsQualifiedFacts(q: Qualification, publishedAt: string, actor: string, pointer: Option<string>)
    requires q.Valid()
    ensures var c, x := q.grant.staging.preparation.candidate, q.request;
            var p := RecordOf(q, publishedAt, actor, pointer);
            var v := p.version;
            && v.agentId == x.agentId && v.versionId == x.versionId && v.validationRunId == x.validationRunId
            && v.sourceDraftId == c.draftId && v.displayName == c.displayName && v.purpose == c.purpose
            && v.bundle == c.bundle && v.bindings == Some(c.bindings)
            && v.publishedAt == publishedAt && v.publishedBy == actor && v.audit == [Audit(true, actor)]
            && v.evidence.Some?
            && v.evidence.value.record == q.grant.staging.preparation.provisional.record
            && v.evidence.value.reference == q.grant.staging.reference && v.evidence.value.smoke == q.result
            && v.evidence.value.sourceDraftRevision == p.draftRevision == c.draftRevision
            && p.activation == Activation(x.agentId, x.versionId, publishedAt, actor, None)
            && p.expectation == Some(pointer)
  {
    QualificationExactly(q);
  }

  // ----- command receipts -----

  datatype CommandState = InProgress | Succeeded | Failed

  datatype Receipt = Receipt(
    state: CommandState,
    agentId: string,
    draftId: string,
    draftRevision: int,
    startedAt: string,
    completedAt: Option<string>,
    publishedVersionId: Option<string>,
    validationRunId: Option<string>,
    releaseReferenceId: Option<string>,
    publishedAt: Option<string>,
    failureCode: Option<string>)
  {
    function SuccessFields(): seq<Option<string>> {
      [publishedVersionId, validationRunId, releaseReferenceId, publishedAt]
    }

    /** require_state_payload */
    predicate Valid() {
      match state
      case InProgress =>
        completedAt.None? && !(exists x | x in SuccessFields() :: IsSet(x)) && failureCode.None?
      case Succeeded =>
        completedAt.Some? && (forall x | x in SuccessFields() :: IsSet(x)) && failureCode.None?
      case Failed =>
        && completedAt.Some? && !(exists x | x in SuccessFields() :: IsSet(x))
        && failureCode.Some? && Strip(failureCode.value) != ""
    }
  }

  /** Python truth of an optional text. */
  predicate IsSet(x: Option<string>) {
    x.Some? && x.value != ""
  }

  /** complete_formal_publication_command_success: the receipt is copied without
      being validated again; None raises. */
  function Completed(receipt: Receipt, p: PublicationRecord): Option<Receipt> {
    var v := p.version;
    if v.evidence.None? then None
    else if !receipt.state.InProgress? || receipt.agentId != v.agentId
            || receipt.draftId != v.sourceDraftId || receipt.draftRevision != p.draftRevision then None
    else
      Some(receipt.(
        state := Succeeded,
        completedAt := Some(v.publishedAt),
        publishedVersionId := Some(v.versionId),
        validationRunId := Some(v.validationRunId),
        releaseReferenceId := Some(v.evidence.value.reference.referenceId),
        publishedAt := Some(v.publishedAt)))
  }

  /** A receipt is valid exactly when it has a completion time unless it is in
      progress, all four facts of the publication if it succeeded and none of them
      otherwise, and a failure code, not blank, if and only if it failed. */
  lemma ReceiptExactly(receipt: Receipt)
    ensures var facts := [receipt.publishedVersionId, receipt.validationRunId, receipt.releaseReferenceId, receipt.publishedAt];
            receipt.Valid() <==>
            && (receipt.completedAt.None? <==> receipt.state.InProgress?)
            && (forall i | 0 <= i < 4 :: (facts[i] != None && facts[i] != Some("")) <==> receipt.state.Succeeded?)
            && (receipt.failureCode.Some? <==> receipt.state.Failed?)
            && (receipt.failureCode.Some? ==> !IsBlank(receipt.failureCode.value))
  {
    var facts := [receipt.publishedVersionId, receipt.validationRunId, receipt.releaseReferenceId, receipt.publishedAt];
    assert facts == receipt.SuccessFields();
    assert forall i | 0 <= i < 4 :: facts[i] in receipt.SuccessFields();
    if receipt.failureCode.Some? {
      StripEmpty(receipt.failureCode.value);
    }
  }

  /** Completing a command is refused exactly without evidence, when the command is
      not in progress, or when it is about another agent, draft or revision; else
      the receipt names the publication's version, run, reference and time, the
      last also as the time of completion, and keeps everything it said before. */
  lemma CompletedExactly(receipt: Receipt, p: PublicationRecord)
    ensures Completed(receipt, p).None? <==>
              || p.version.evidence == None || receipt.state != InProgress
              || receipt.agentId != p.version.agentId || receipt.draftId != p.version.sourceDraftId
              || receipt.draftRevision != p.draftRevision
    ensures Completed(receipt, p).Some? ==>
              var done, v := Completed(receipt, p).value, p.version;
              && done.state == Succeeded
              && done.agentId == receipt.agentId == v.agentId && done.draftId == receipt.draftId == v.sourceDraftId
              && done.draftRevision == receipt.draftRevision == p.draftRevision
              && done.startedAt == receipt.startedAt && done.failureCode == receipt.failureCode
              && done.publishedVersionId == Some(v.versionId) && done.validationRunId == Some(v.validationRunId)
              && done.releaseReferenceId == Some(v.evidence.value.reference.referenceId)
              && done.publishedAt == Some(v.publishedAt) && done.completedAt == Some(v.publishedAt)
  {
  }

  /** Completing a command for a valid publication keeps the receipt rules exactly
      when the publication time and the two identifiers of the evidence are not
      empty. */
  lemma CompletedIsValidIff(receipt: Receipt, p: PublicationRecord)
    requires receipt.Valid() && p.Valid() && Completed(receipt, p).Some?
    ensures Completed(receipt, p).value.Valid() <==>
            p.version.publishedAt != "" && p.version.versionId != ""
            && p.version.evidence.value.reference.referenceId != ""
  {
    var done := Completed(receipt, p).value;
    assert Strip("") == "";
    assert done.SuccessFields()[0] == Some(p.version.versionId);
    assert done.SuccessFields()[1] == Some(p.version.validationRunId);
    assert done.SuccessFields()[2] == Some(p.version.evidence.value.reference.referenceId);
    assert done.SuccessFields()[3] == Some(p.version.publishedAt);
    assert done.SuccessFields()[0] in done.SuccessFields() && done.SuccessFields()[2] in done.SuccessFields();
    assert done.SuccessFields()[3] in done.SuccessFields();
  }

  /** From qualification to receipt: for a command on the same draft, completing
      it after a formal publication names the identities the smoke test was asked
      for, and gives a valid receipt exactly when the publication time is not
      empty. */
  lemma QualificationGivesReceipt(q: Qualification, receipt: Receipt, publishedAt: string, actor: string, pointer: Option<string>)
    requires q.Valid() && q.grant.staging.preparation.provisional.record.createdBy == actor
    requires receipt.Valid() && receipt.state.InProgress?
    requires var c := q.grant.staging.preparation.candidate;
             receipt.agentId == c.agentId && receipt.draftId == c.draftId && receipt.draftRevision == c.draftRevision
    ensures var p := RecordOf(q, publishedAt, actor, pointer);
            && p.Valid() && Completed(receipt, p).Some?
            && var done := Completed(receipt, p).value;
            && done.publishedVersionId == Some(q.request.versionId)
            && done.validationRunId == Some(q.request.validationRunId)
            && done.releaseReferenceId == Some(q.request.referenceId)
            && done.publishedAt == done.completedAt == Some(publishedAt)
            && (done.Valid() <==> publishedAt != "")
  {
    QualificationGivesPublication(q, publishedAt, actor, pointer);
    CompletedIsValidIff(receipt, RecordOf(q, publishedAt, actor, pointer));
  }
}
