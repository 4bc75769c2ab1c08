/** What the configuration store's files hold, and what a sequence of file
    writes does to them when any one of the writes may raise. */
module StoreRecords {
  import opened Text
  import opened StorePaths

  // ----- entities -----

  /** A file of a package beyond the three contracts, by its components below
      the package directory. */
  datatype ExtraFile = ExtraFile(member: MemberPath, content: string)

  type MemberPath = p: Path | p != [] witness ["a"]

  datatype ContractBundle = ContractBundle(
    agentYaml: string,
    policyYaml: string,
    toolsYaml: string,
    extraFiles: seq<ExtraFile>,
    advancedFields: string)

  datatype OperationAudit = OperationAudit(operationId: string, actor: string, summary: string)

  datatype DraftAgent = DraftAgent(
    agentId: string,
    draftId: string,
    displayName: string,
    purpose: string,
    bundle: ContractBundle,
    updatedBy: string,
    operationAudit: seq<OperationAudit>)

  datatype PublishedVersion = PublishedVersion(
    agentId: string,
    versionId: string,
    sourceDraftId: string,
    validationRunId: string,
    displayName: string,
    purpose: string,
    bundle: ContractBundle,
    publishedAt: string,
    publishedBy: string)

  datatype ActiveVersion = ActiveVersion(
    agentId: string,
    versionId: string,
    activatedAt: string,
    activatedBy: string,
    rollbackFromVersionId: Option<string>)

  datatype Lifecycle = Active | Archived

  datatype ConnectionSettings = ConnectionSettings(
    displayName: string,
    description: string,
    tags: seq<string>,
    provider: string,
    modelIdentifier: string,
    baseUrl: Option<string>,
    credentialRef: string,
    organizationEnv: Option<string>,
    projectEnv: Option<string>,
    timeoutSeconds: Option<real>)

  datatype ModelConnection = ModelConnection(
    connectionId: string,
    settings: ConnectionSettings,
    lifecycle: Lifecycle,
    updatedAt: string)

  /** What a remote validation of a tool source depends on. */
  datatype ToolSourceConfig = ToolSourceConfig(
    name: string,
    sourceType: string,
    provider: string,
    toolContractIds: seq<string>,
    credentialEnvRef: Option<string>,
    params: string)

  datatype ToolSource = ToolSource(
    sourceId: string,
    config: ToolSourceConfig,
    lifecycle: Lifecycle,
    configRevision: int,
    updatedAt: string)

  datatype ToolSourceValidation = ToolSourceValidation(
    validationId: string,
    sourceId: string,
    configRevision: int,
    toolContractIds: seq<string>,
    snapshotDigests: seq<string>)

  /** The decoded content of a file. Torn is a JSON file cut off by a failed
      write: it exists but no longer parses. */
  datatype Content =
    | DraftFile(draft: DraftAgent)
    | RevisionFile(revision: int)
    | TextFile(text: string)
    | PublicationFile(version: PublishedVersion)
    | PointerFile(active: ActiveVersion)
    | AuthorityFile(canonicalAgentId: string, initialVersionId: Option<string>)
    | ConnectionFile(connection: ModelConnection)
    | ToolSourceFile(source: ToolSource)
    | ValidationFile(validation: ToolSourceValidation)
    | AuditFile(audit: OperationAudit)
    | Torn

  type Records = map<StoreKey, Content>

  // ----- reading -----

  /** None when the file is missing; Malformed when parsing it raises. */
  datatype Read<+T> = Missing | Malformed | Found(value: T)

  function ReadDraft(r: Records, agentId: string, draftId: string): Read<DraftAgent> {
    var k := DraftKey(agentId, draftId);
    if k !in r then Missing else if r[k].DraftFile? then Found(r[k].draft) else Malformed
  }

  /** PublishedAgentVersion.model_validate of a JSON text; None when either raises. */
  type Parser = string -> Option<PublishedVersion>

  /** What a file called publication.json holds, whoever wrote it: an extra file
      of the package may have that name. */
  function PublicationIn(parse: Parser, c: Content): Option<PublishedVersion> {
    match c
    case PublicationFile(version) => Some(version)
    case TextFile(text) => parse(text)
    case _ => None
  }

  /** get_version */
  function ReadVersion(parse: Parser, r: Records, agentId: string, versionId: string): Read<PublishedVersion> {
    var k := VersionKey(agentId, versionId, PUBLICATION);
    if k !in r then Missing
    else
      match PublicationIn(parse, r[k])
      case Some(version) => Found(version)
      case None => Malformed
  }

  function ReadActive(r: Records, agentId: string): Read<ActiveVersion> {
    var k := ActivePointerKey(agentId);
    if k !in r then Missing else if r[k].PointerFile? then Found(r[k].active) else Malformed
  }

  function ReadAuthority(r: Records): Read<string> {
    if SeedAuthorityKey !in r then Missing
    else if r[SeedAuthorityKey].AuthorityFile? then Found(r[SeedAuthorityKey].canonicalAgentId)
    else Malformed
  }

  /** get_model_connection; an id that is not a plain name raises. */
  function ReadConnection(r: Records, connectionId: string): Read<ModelConnection> {
    var k := ConnectionKey(connectionId, CONNECTION);
    if !IsPlainName(connectionId) then Malformed
    else if k !in r then Missing
    else if r[k].ConnectionFile? then Found(r[k].connection) else Malformed
  }

  function ReadToolSource(r: Records, sourceId: string): Read<ToolSource> {
    var k := ToolSourceKey(sourceId);
    if !IsPlainName(sourceId) then Malformed
    else if k !in r then Missing
    else if r[k].ToolSourceFile? then Found(r[k].source) else Malformed
  }

  /** _read_draft_revision: a draft saved before revisions existed counts its
      audit entries. */
  function ReadDraftRevision(r: Records, draft: DraftAgent): Read<int> {
    var k := DraftRevisionKey(draft.agentId, draft.draftId);
    if k !in r then Found(if |draft.operationAudit| < 1 then 1 else |draft.operationAudit|)
    else if r[k].RevisionFile? && r[k].revision >= 1 then Found(r[k].revision)
    else Malformed
  }

  // ----- writing -----

  /** Put replaces one file; atomic is the write-to-temporary-then-rename form.
      DropConnection removes a connection directory. */
  datatype Write =
    | Put(key: StoreKey, content: Content, atomic: bool)
    | DropConnection(connectionId: string)

  /** How one write ends. The last three raise: before touching the target, with
      the target cut off half way, or after it was fully written. Cut off, a text keeps
      its beginning, a JSON file no longer parses, and a directory keeps the
      survivors. */
  datatype Outcome =
    | Done
    | FailedBefore
    | FailedHalfway(cut: nat, survivors: set<StoreKey>)
    | FailedAfter

  function WithoutConnection(r: Records, connectionId: string, survivors: set<StoreKey>): Records {
    map k | k in r && !(k.ConnectionKey? && k.connectionId == connectionId && k !in survivors) :: r[k]
  }

  function CutOff(content: Content, cut: nat): Content {
    match content
    case TextFile(text) => TextFile(if cut < |text| then text[..cut] else text)
    case _ => Torn
  }

  function Apply(r: Records, w: Write, o: Outcome): Records {
    match w
    case Put(key, content, atomic) =>
      if o.Done? || o.FailedAfter? then r[key := content]
      else if o.FailedHalfway? && !atomic then r[key := CutOff(content, o.cut)]
      else r
    case DropConnection(id) =>
      if o.FailedBefore? then r
      else if o.FailedHalfway? then WithoutConnection(r, id, o.survivors)
      else WithoutConnection(r, id, {})
  }

  function HeadOutcome(os: seq<Outcome>): Outcome {
    if os == [] then Done else os[0]
  }

  function TailOutcomes(os: seq<Outcome>): seq<Outcome> {
    if os == [] then [] else os[1..]
  }

  /** The files after the writes, whether all of them returned, and the outcomes
      not used up. */
  datatype Executed = Executed(records: Records, ok: bool, rest: seq<Outcome>)

  /** Writes in order until one raises; no outcome given means it returns. */
  function Execute(r: Records, ws: seq<Write>, os: seq<Outcome>): Executed
    decreases |ws|
  {
    if ws == [] then Executed(r, true, os)
    else
      var now := Apply(r, ws[0], HeadOutcome(os));
      if HeadOutcome(os).Done? then Execute(now, ws[1..], TailOutcomes(os))
      else Executed(now, false, TailOutcomes(os))
  }

  function ApplyAll(r: Records, ws: seq<Write>): Records
    decreases |ws|
  {
    if ws == [] then r else ApplyAll(Apply(r, ws[0], Done), ws[1..])
  }

  lemma {:induction false} ExecuteOk(r: Records, ws: seq<Write>, os: seq<Outcome>)
    ensures Execute(r, ws, os).ok ==> Execute(r, ws, os).records == ApplyAll(r, ws)
    ensures os == [] ==> Execute(r, ws, os).ok
    decreases |ws|
  {
    if ws != [] {
      ExecuteOk(Apply(r, ws[0], HeadOutcome(os)), ws[1..], TailOutcomes(os));
    }
  }

  lemma ExecuteOne(r: Records, w: Write, os: seq<Outcome>)
    ensures Execute(r, [w], os) == Executed(Apply(r, w, HeadOutcome(os)), HeadOutcome(os).Done?, TailOutcomes(os))
  {
    assert [w][1..] == [];
  }

  lemma {:induction false} ExecuteAppend(r: Records, ws: seq<Write>, more: seq<Write>, os: seq<Outcome>)
    ensures var first := Execute(r, ws, os);
            Execute(r, ws + more, os) == if first.ok then Execute(first.records, more, first.rest) else first
    decreases |ws|
  {
    if ws == [] {
      assert ws + more == more;
    } else {
      assert (ws + more)[1..] == ws[1..] + more;
      ExecuteAppend(Apply(r, ws[0], HeadOutcome(os)), ws[1..], more, TailOutcomes(os));
    }
  }

  lemma {:induction false} ApplyAllAppend(r: Records, ws: seq<Write>, more: seq<Write>)
    ensures ApplyAll(r, ws + more) == ApplyAll(ApplyAll(r, ws), more)
    decreases |ws|
  {
    if ws == [] {
      assert ws + more == more;
    } else {
      assert (ws + more)[1..] == ws[1..] + more;
      ApplyAllAppend(Apply(r, ws[0], Done), ws[1..], more);
    }
  }

  /** A write that cannot touch a key. */
  predicate Spares(w: Write, k: StoreKey) {
    match w
    case Put(key, content, atomic) => key != k
    case DropConnection(id) => !(k.ConnectionKey? && k.connectionId == id)
  }

  predicate Same(r: Records, s: Records, k: StoreKey) {
    (k in r <==> k in s) && (k in r ==> r[k] == s[k])
  }

  lemma {:induction false} ExecuteSpares(r: Records, ws: seq<Write>, os: seq<Outcome>, k: StoreKey)
    requires forall w | w in ws :: Spares(w, k)
    ensures Same(r, Execute(r, ws, os).records, k)
    decreases |ws|
  {
    if ws != [] {
      assert ws[0] in ws && forall w | w in ws[1..] :: w in ws;
      ExecuteSpares(Apply(r, ws[0], HeadOutcome(os)), ws[1..], TailOutcomes(os), k);
    }
  }

  predicate OnlyPuts(ws: seq<Write>) {
    forall w | w in ws :: w.Put?
  }

  /** Completed puts lay the same files over any store. */
  lemma {:induction false} ApplyAllOverlays(r: Records, s: Records, ws: seq<Write>)
    requires OnlyPuts(ws)
    ensures ApplyAll(r + s, ws) == r + ApplyAll(s, ws)
    decreases |ws|
  {
    if ws != [] {
      assert ws[0] in ws && forall w | w in ws[1..] :: w in ws;
      var k, c := ws[0].key, ws[0].content;
      assert (r + s)[k := c] == r + s[k := c];
      ApplyAllOverlays(r, s[k := c], ws[1..]);
    }
  }

  // ----- the files of a version -----

  /** version_dir / name */
  function MemberKey(agentId: string, versionId: string, member: MemberPath): StoreKey {
    VersionKey(agentId, versionId, member)
  }

  function ExtraWrites(v: PublishedVersion, extra: seq<ExtraFile>): (ws: seq<Write>)
    ensures |ws| == |extra|
    ensures forall i | 0 <= i < |extra| ::
              ws[i] == Put(MemberKey(v.agentId, v.versionId, extra[i].member), TextFile(extra[i].content), false)
  {
    seq(|extra|, i requires 0 <= i < |extra| =>
      Put(MemberKey(v.agentId, v.versionId, extra[i].member), TextFile(extra[i].content), false))
  }

  function ContractWrites(v: PublishedVersion): seq<Write> {
    [ Put(VersionKey(v.agentId, v.versionId, ["agent.yaml"]), TextFile(v.bundle.agentYaml), false),
      Put(VersionKey(v.agentId, v.versionId, ["policy.yaml"]), TextFile(v.bundle.policyYaml), false),
      Put(VersionKey(v.agentId, v.versionId, ["tools.yaml"]), TextFile(v.bundle.toolsYaml), false) ]
  }

  function MemberWrites(v: PublishedVersion): seq<Write> {
    ContractWrites(v) + ExtraWrites(v, v.bundle.extraFiles)
  }

  function PublicationWrite(v: PublishedVersion): Write {
    Put(VersionKey(v.agentId, v.versionId, PUBLICATION), PublicationFile(v), false)
  }

  /** _write_version: publication.json comes last. */
  function VersionWrites(v: PublishedVersion): seq<Write> {
    MemberWrites(v) + [PublicationWrite(v)]
  }

  function PointerWrite(active: ActiveVersion): Write {
    Put(ActivePointerKey(active.agentId), PointerFile(active), false)
  }

  /** The directory a version occupies once it is completely written. */
  function VersionFiles(v: PublishedVersion): Records {
    ApplyAll(map[], VersionWrites(v))
  }

  predicate VersionDirExists(r: Records, agentId: string, versionId: string) {
    exists k | k in r :: k.VersionKey? && k.agentId == agentId && k.versionId == versionId
  }

  function WithoutVersion(r: Records, agentId: string, versionId: string): Records {
    map k | k in r && !(k.VersionKey? && k.agentId == agentId && k.versionId == versionId) :: r[k]
  }

  predicate InVersionDir(w: Write, agentId: string, versionId: string) {
    w.Put? && w.key.VersionKey? && w.key.agentId == agentId && w.key.versionId == versionId
  }

  lemma VersionWritesStayInside(v: PublishedVersion)
    ensures forall w | w in VersionWrites(v) :: InVersionDir(w, v.agentId, v.versionId)
  {
    forall w | w in VersionWrites(v) ensures InVersionDir(w, v.agentId, v.versionId) {
      if w in MemberWrites(v) && w !in ContractWrites(v) {
        assert w in ExtraWrites(v, v.bundle.extraFiles);
      }
    }
  }

  /** The publication file is the version's own, whatever the extra files are
      called. */
  lemma PublicationIsLast(v: PublishedVersion, r: Records)
    ensures ApplyAll(r, VersionWrites(v)) ==
            ApplyAll(r, MemberWrites(v))[VersionKey(v.agentId, v.versionId, PUBLICATION) := PublicationFile(v)]
    ensures forall parse :: ReadVersion(parse, ApplyAll(r, VersionWrites(v)), v.agentId, v.versionId) == Found(v)
  {
    ApplyAllAppend(r, MemberWrites(v), [PublicationWrite(v)]);
    var before := ApplyAll(r, MemberWrites(v));
    assert ApplyAll(before, [PublicationWrite(v)]) == ApplyAll(Apply(before, PublicationWrite(v), Done), []);
  }
}
