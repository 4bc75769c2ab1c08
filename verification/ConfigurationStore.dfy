/** LocalAgentConfigurationStore (proof_agent/configuration/local_store.py) over
    a disk of files. Each method is one locked body and is proved to be exactly
    the step that the run theorems are about. */
module ConfigurationStore {
  import opened Text
  import opened StorePaths
  import opened StoreRecords
  import opened StoreOperations
  import opened ManifestTree

  // ----- files and records -----

  type Files = map<Path, Content>

  lemma KeyOfInjective(p: Path, q: Path)
    requires KeyOf(p).Some? && KeyOf(p) == KeyOf(q)
    ensures p == q
  {
    KeyOfDetermines(p);
    KeyOfDetermines(q);
  }

  /** The records a set of files holds. */
  function RecordsOf(files: Files): (r: Records) {
    AllKeysInjective();
    map p | p in files && KeyOf(p).Some? :: KeyOf(p).value := files[p]
  }

  lemma AllKeysInjective()
    ensures forall p, q :: KeyOf(p).Some? && KeyOf(p) == KeyOf(q) ==> p == q
  {
    forall p, q | KeyOf(p).Some? && KeyOf(p) == KeyOf(q) ensures p == q {
      KeyOfInjective(p, q);
    }
  }

  /** A record is read from the one file its key stands for. */
  lemma RecordsOfAt(files: Files, k: StoreKey)
    ensures k in RecordsOf(files) <==> PathOf(k) in files
    ensures k in RecordsOf(files) ==> RecordsOf(files)[k] == files[PathOf(k)]
  {
    PathOfDetermines(k);
    if PathOf(k) in files {
      PathMakesRecord(files, PathOf(k), k);
    }
    if k in RecordsOf(files) {
      RecordComesFromPath(files, k);
    }
  }

  lemma PathMakesRecord(files: Files, p: Path, k: StoreKey)
    requires p in files && KeyOf(p) == Some(k)
    ensures k in RecordsOf(files) && RecordsOf(files)[k] == files[p]
  {
    var q :| q in files && KeyOf(q) == Some(k) && RecordsOf(files)[k] == files[q];
    KeyOfInjective(p, q);
  }

  lemma RecordComesFromPath(files: Files, k: StoreKey)
    requires k in RecordsOf(files)
    ensures PathOf(k) in files
  {
    var p :| p in files && KeyOf(p) == Some(k);
    KeyOfDetermines(p);
  }

  /** Writing one file changes the record of one key and no other. */
  lemma RecordsOfWrite(files: Files, k: StoreKey, c: Content)
    ensures RecordsOf(files[PathOf(k) := c]) == RecordsOf(files)[k := c]
  {
    var after := files[PathOf(k) := c];
    forall j: StoreKey
      ensures j in RecordsOf(after) <==> j in RecordsOf(files)[k := c]
      ensures j in RecordsOf(after) ==> RecordsOf(after)[j] == RecordsOf(files)[k := c][j]
    {
      RecordsOfAt(files, j);
      RecordsOfAt(after, j);
      PathOfDetermines(j);
      PathOfDetermines(k);
    }
  }

  predicate DirExists(files: Files, dir: Path) {
    exists p | p in files :: Within(dir, p)
  }

  lemma UnderVersionDir(p: Path, a: string, v: string)
    ensures Within(VersionDir(a, v), p) <==>
            KeyOf(p).Some? && KeyOf(p).value.VersionKey? && KeyOf(p).value.agentId == a && KeyOf(p).value.versionId == v
  {
    if KeyOf(p).Some? {
      KeyOfDetermines(p);
    }
    if Within(VersionDir(a, v), p) {
      var dir := VersionDir(a, v);
      assert p[0] == p[..4][0] == dir[0] && p[1] == p[..4][1] == dir[1];
      assert p[2] == p[..4][2] == dir[2] && p[3] == p[..4][3] == dir[3];
    }
  }

  lemma UnderConnectionDir(p: Path, id: string)
    ensures Within(ConnectionDir(id), p) <==>
            KeyOf(p).Some? && KeyOf(p).value.ConnectionKey? && KeyOf(p).value.connectionId == id
  {
    if KeyOf(p).Some? {
      KeyOfDetermines(p);
    }
    if Within(ConnectionDir(id), p) {
      var dir := ConnectionDir(id);
      assert p[0] == p[..2][0] == dir[0] && p[1] == p[..2][1] == dir[1];
    }
  }

  lemma DirExistsIsVersionDirExists(files: Files, a: string, v: string)
    ensures DirExists(files, VersionDir(a, v)) <==> VersionDirExists(RecordsOf(files), a, v)
  {
    var r := RecordsOf(files);
    if p :| p in files && Within(VersionDir(a, v), p) {
      UnderVersionDir(p, a, v);
      KeyOfDetermines(p);
      RecordsOfAt(files, KeyOf(p).value);
    }
    if k :| k in r && k.VersionKey? && k.agentId == a && k.versionId == v {
      PathOfDetermines(k);
      RecordsOfAt(files, k);
      UnderVersionDir(PathOf(k), a, v);
    }
  }

  /** Removing the files of a connection directory, all but some survivors,
      removes exactly its records. */
  lemma RecordsOfWithoutConnection(files: Files, id: string, survivors: set<StoreKey>)
    ensures var left: Files := map p | p in files
                && !(Within(ConnectionDir(id), p) && (KeyOf(p).None? || KeyOf(p).value !in survivors)) :: files[p];
            RecordsOf(left) == WithoutConnection(RecordsOf(files), id, survivors)
  {
    var left: Files := map p | p in files
      && !(Within(ConnectionDir(id), p) && (KeyOf(p).None? || KeyOf(p).value !in survivors)) :: files[p];
    var expected := WithoutConnection(RecordsOf(files), id, survivors);
    forall k: StoreKey
      ensures k in RecordsOf(left) <==> k in expected
      ensures k in RecordsOf(left) ==> RecordsOf(left)[k] == expected[k]
    {
      PathOfDetermines(k);
      RecordsOfAt(files, k);
      RecordsOfAt(left, k);
      UnderConnectionDir(PathOf(k), id);
    }
  }

  // ----- the disk -----

  class Disk {
    var files: Files
    /** How the coming writes end; empty means they all return. */
    var outcomes: seq<Outcome>

    constructor (files: Files, outcomes: seq<Outcome>)
      ensures this.files == files && this.outcomes == outcomes
    {
      this.files := files;
      this.outcomes := outcomes;
    }

    function Records(): Records
      reads this
    {
      RecordsOf(files)
    }

    /** The state a sequence of writes ended in. */
    ghost predicate Ran(x: Executed, ok: bool)
      reads this
    {
      Records() == x.records && outcomes == x.rest && ok == x.ok
    }

    /** path.write_text, or the temporary-file-and-rename form when atomic. */
    method Put(key: StoreKey, content: Content, atomic: bool) returns (ok: bool)
      modifies this
      ensures Ran(Execute(old(Records()), [Write.Put(key, content, atomic)], old(outcomes)), ok)
      ensures forall p | p != PathOf(key) :: (p in files <==> p in old(files)) && (p in files ==> files[p] == old(files)[p])
    {
      var outcome := HeadOutcome(outcomes);
      ExecuteOne(Records(), Write.Put(key, content, atomic), outcomes);
      outcomes := TailOutcomes(outcomes);
      RecordsOfWrite(files, key, content);
      if outcome.Done? || outcome.FailedAfter? {
        files := files[PathOf(key) := content];
      } else if outcome.FailedHalfway? && !atomic {
        RecordsOfWrite(files, key, CutOff(content, outcome.cut));
        files := files[PathOf(key) := CutOff(content, outcome.cut)];
      }
      ok := outcome.Done?;
    }

    /** shutil.rmtree of a connection directory. */
    method RemoveConnection(id: string) returns (ok: bool)
      modifies this
      ensures Ran(Execute(old(Records()), [DropConnection(id)], old(outcomes)), ok)
    {
      var outcome := HeadOutcome(outcomes);
      ghost var was := files;
      ExecuteOne(Records(), DropConnection(id), outcomes);
      outcomes := TailOutcomes(outcomes);
      ok := outcome.Done?;
      if outcome.FailedBefore? {
        return;
      }
      var survivors := if outcome.FailedHalfway? then outcome.survivors else {};
      files := map p | p in files && !(Within(ConnectionDir(id), p) && (KeyOf(p).None? || KeyOf(p).value !in survivors)) :: files[p];
      RecordsOfWithoutConnection(was, id, survivors);
    }

    /** shutil.rmtree(version_dir, ignore_errors=True), assumed to succeed. */
    method RemoveVersion(a: string, v: string)
      modifies this`files
      ensures Records() == WithoutVersion(old(Records()), a, v)
      ensures files == map p | p in old(files) && !Within(VersionDir(a, v), p) :: old(files)[p]
    {
      ghost var was := files;
      files := map p | p in files && !Within(VersionDir(a, v), p) :: files[p];
      ghost var left := WithoutVersion(RecordsOf(was), a, v);
      forall k: StoreKey
        ensures k in RecordsOf(files) <==> k in left
        ensures k in RecordsOf(files) ==> RecordsOf(files)[k] == left[k]
      {
        PathOfDetermines(k);
        RecordsOfAt(was, k);
        RecordsOfAt(files, k);
        UnderVersionDir(PathOf(k), a, v);
      }
    }

    /** Puts prior bytes back, or unlinks; assumed to succeed. */
    method Restore(key: StoreKey, prior: Option<Content>)
      modifies this`files
      ensures prior.Some? ==> Records() == old(Records())[key := prior.value]
      ensures prior.None? ==> Records() == old(Records()) - {key}
      ensures prior.Some? ==> files == old(files)[PathOf(key) := prior.value]
      ensures prior.None? ==> files == old(files) - {PathOf(key)}
    {
      ghost var was := files;
      if prior.Some? {
        RecordsOfWrite(files, key, prior.value);
        files := files[PathOf(key) := prior.value];
      } else {
        files := files - {PathOf(key)};
        forall k: StoreKey
          ensures k in RecordsOf(files) <==> k in RecordsOf(was) - {key}
          ensures k in RecordsOf(files) ==> RecordsOf(files)[k] == RecordsOf(was)[k]
        {
          RecordsOfAt(was, k);
          RecordsOfAt(files, k);
          PathOfDetermines(k);
          PathOfDetermines(key);
        }
        assert RecordsOf(files) == RecordsOf(was) - {key};
      }
    }
  }

  // ----- the store -----

  class LocalAgentConfigurationStore {
    const disk: Disk
    const env: Env

    constructor (disk: Disk, env: Env)
      ensures this.disk == disk && this.env == env
    {
      this.disk := disk;
      this.env := env;
    }

    /** A method ended as the given step does. */
    ghost predicate Performed(step: Stepped, reply: Reply)
      reads disk
    {
      disk.Records() == step.records && disk.outcomes == step.rest && reply == step.reply
    }

    // Reading: one file each.

    function Fetch(k: StoreKey): Option<Content>
      reads disk
      ensures Fetch(k).Some? <==> k in disk.Records()
      ensures Fetch(k).Some? ==> Fetch(k).value == disk.Records()[k]
    {
      RecordsOfAt(disk.files, k);
      if PathOf(k) in disk.files then Some(disk.files[PathOf(k)]) else None
    }

    function GetDraft(a: string, d: string): (draft: Read<DraftAgent>)
      reads disk
      ensures draft == ReadDraft(disk.Records(), a, d)
    {
      match Fetch(DraftKey(a, d)) case None => Missing case Some(DraftFile(x)) => Found(x) case _ => Malformed
    }

    function GetVersion(a: string, v: string): (version: Read<PublishedVersion>)
      reads disk
      ensures version == ReadVersion(env.parse, disk.Records(), a, v)
    {
      var file := Fetch(VersionKey(a, v, PUBLICATION));
      if file.None? then Missing
      else
        match PublicationIn(env.parse, file.value)
        case Some(x) => Found(x)
        case None => Malformed
    }

    function GetActive(a: string): (active: Read<ActiveVersion>)
      reads disk
      ensures active == ReadActive(disk.Records(), a)
    {
      match Fetch(ActivePointerKey(a)) case None => Missing case Some(PointerFile(x)) => Found(x) case _ => Malformed
    }

    function GetAuthority(): (canonical: Read<string>)
      reads disk
      ensures canonical == ReadAuthority(disk.Records())
    {
      match Fetch(SeedAuthorityKey) case None => Missing case Some(AuthorityFile(x, _)) => Found(x) case _ => Malformed
    }

    function GetModelConnection(id: string): (connection: Read<ModelConnection>)
      reads disk
      ensures connection == ReadConnection(disk.Records(), id)
    {
      GuardedChildIsPlainChild(["model_connections"], id, "");
      if GuardedChild(["model_connections"], id, "").None? then Malformed
      else
        match Fetch(ConnectionKey(id, CONNECTION))
        case None => Missing
        case Some(ConnectionFile(x)) => Found(x)
        case _ => Malformed
    }

    function GetToolSource(id: string): (source: Read<ToolSource>)
      reads disk
      ensures source == ReadToolSource(disk.Records(), id)
    {
      GuardedChildIsPlainChild(["tool_sources"], id, "");
      if GuardedChild(["tool_sources"], id, "").None? then Malformed
      else
        match Fetch(ToolSourceKey(id))
        case None => Missing
        case Some(ToolSourceFile(x)) => Found(x)
        case _ => Malformed
    }

    function DraftRevision(draft: DraftAgent): (revision: Read<int>)
      reads disk
      ensures revision == ReadDraftRevision(disk.Records(), draft)
    {
      match Fetch(DraftRevisionKey(draft.agentId, draft.draftId))
      case None => Found(if |draft.operationAudit| < 1 then 1 else |draft.operationAudit|)
      case Some(RevisionFile(n)) => if n >= 1 then Found(n) else Malformed
      case _ => Malformed
    }

    function GetActualRevision(a: string, d: string): (revision: Result<int, Error>)
      reads disk
      ensures revision == ActualRevision(disk.Records(), a, d)
    {
      match GetDraft(a, d)
      case Missing => Ok(0)
      case Malformed => Err(Unreadable)
      case Found(current) => match DraftRevision(current) case Found(n) => Ok(n) case _ => Err(Unreadable)
    }

    // Writing.

    method RecordAudit(audit: OperationAudit) returns (ok: bool)
      modifies disk
      ensures disk.Ran(Execute(old(disk.Records()), [AuditWrite(audit)], old(disk.outcomes)), ok)
    {
      ok := disk.Put(ConfigurationAuditKey(audit.operationId), AuditFile(audit), true);
    }

    method WriteDraft(draft: DraftAgent, revision: int) returns (ok: bool)
      modifies disk
      ensures disk.Ran(Execute(old(disk.Records()), DraftWrites(draft, revision), old(disk.outcomes)), ok)
    {
      ghost var ws := DraftWrites(draft, revision);
      ExecuteAppend(disk.Records(), [ws[0]], [ws[1]], disk.outcomes);
      assert [ws[0]] + [ws[1]] == ws;
      ok := disk.Put(DraftKey(draft.agentId, draft.draftId), DraftFile(draft), true);
      if !ok {
        return;
      }
      ok := disk.Put(DraftRevisionKey(draft.agentId, draft.draftId), RevisionFile(revision), true);
    }

    /** save_draft_record */
    method SaveDraftRecord(draft: DraftAgent, expectedRevision: int) returns (reply: Reply)
      modifies disk
      ensures Performed(Commit(old(disk.Records()), SaveDraftPlan(old(disk.Records()), draft, expectedRevision), old(disk.outcomes)), reply)
    {
      var actualRevision := GetActualRevision(draft.agentId, draft.draftId);
      if actualRevision.Err? {
        return Rejected(actualRevision.error);
      }
      if actualRevision.value != expectedRevision {
        return Rejected(RevisionConflict(Some(actualRevision.value)));
      }
      var ok := WriteDraft(draft, actualRevision.value + 1);
      return if ok then Accepted else Rejected(WriteFailed);
    }

    /** _write_draft with no revision given: one more than the stored one. */
    method WriteNextDraft(draft: DraftAgent) returns (reply: Reply)
      modifies disk
      ensures Performed(Commit(old(disk.Records()), WriteDraftPlan(old(disk.Records()), draft), old(disk.outcomes)), reply)
    {
      var stored := GetActualRevision(draft.agentId, draft.draftId);
      if stored.Err? {
        return Rejected(stored.error);
      }
      var ok := WriteDraft(draft, stored.value + 1);
      return if ok then Accepted else Rejected(WriteFailed);
    }

    /** create_draft */
    method CreateDraft(draft: DraftAgent) returns (reply: Reply)
      modifies disk
      ensures Performed(Commit(old(disk.Records()), WriteDraftPlan(old(disk.Records()), draft), old(disk.outcomes)), reply)
    {
      reply := WriteNextDraft(draft);
    }

    /** update_draft */
    method UpdateDraft(a: string, d: string, changes: DraftChanges, audit: OperationAudit) returns (reply: Reply)
      modifies disk
      ensures Performed(Commit(old(disk.Records()), UpdateDraftPlan(old(disk.Records()), a, d, changes, audit), old(disk.outcomes)), reply)
    {
      var existing := GetDraft(a, d);
      if !existing.Found? {
        return Rejected(if existing.Missing? then NotFound else Unreadable);
      }
      reply := WriteNextDraft(UpdatedDraft(existing.value, changes, audit));
    }

    /** _write_version: contracts, extra files in order, publication last. */
    method WriteVersion(v: PublishedVersion) returns (ok: bool)
      modifies disk
      ensures disk.Ran(Execute(old(disk.Records()), VersionWrites(v), old(disk.outcomes)), ok)
      ensures forall p | !Within(VersionDir(v.agentId, v.versionId), p) ::
                (p in disk.files <==> p in old(disk.files)) && (p in disk.files ==> disk.files[p] == old(disk.files)[p])
    {
      ghost var ws := VersionWrites(v);
      ghost var rest := ExtraWrites(v, v.bundle.extraFiles) + [PublicationWrite(v)];
      assert ws == ContractWrites(v) + rest && ws[..3] == ContractWrites(v) && ws[3..] == rest;
      ok := WriteContracts(v, ws);
      if !ok {
        return;
      }
      assert rest[|v.bundle.extraFiles|..] == [PublicationWrite(v)];
      ok := WriteExtraFiles(v, rest);
      if !ok {
        return;
      }
      ok := PutMember(v, PUBLICATION, PublicationFile(v), [PublicationWrite(v)]);
    }

    /** The loop over the extra files. */
    method WriteExtraFiles(v: PublishedVersion, ghost ws: seq<Write>) returns (ok: bool)
      requires |ws| > |v.bundle.extraFiles| && ws[..|v.bundle.extraFiles|] == ExtraWrites(v, v.bundle.extraFiles)
      modifies disk
      ensures var whole := Execute(old(disk.Records()), ws, old(disk.outcomes));
              if ok then Execute(disk.Records(), ws[|v.bundle.extraFiles|..], disk.outcomes) == whole else disk.Ran(whole, false)
      ensures forall p | !Within(VersionDir(v.agentId, v.versionId), p) ::
                (p in disk.files <==> p in old(disk.files)) && (p in disk.files ==> disk.files[p] == old(disk.files)[p])
    {
      ghost var whole := Execute(disk.Records(), ws, disk.outcomes);
      var extra := v.bundle.extraFiles;
      var i := 0;
      ok := true;
      assert ws[0..] == ws;
      assert forall j | 0 <= j < |extra| :: ws[j] == ExtraWrites(v, extra)[j];
      while i < |extra|
        invariant 0 <= i <= |extra|
        invariant ok
        invariant Execute(disk.Records(), ws[i..], disk.outcomes) == whole
        invariant forall p | !Within(VersionDir(v.agentId, v.versionId), p) ::
                    (p in disk.files <==> p in old(disk.files)) && (p in disk.files ==> disk.files[p] == old(disk.files)[p])
      {
        assert ws[i..][1..] == ws[i + 1..];
        ok := PutMember(v, extra[i].member, TextFile(extra[i].content), ws[i..]);
        if !ok {
          return;
        }
        i := i + 1;
      }
    }

    /** The three contracts, the first of the writes of a version. */
    method WriteContracts(v: PublishedVersion, ghost ws: seq<Write>) returns (ok: bool)
      requires |ws| >= 3 && ws[..3] == ContractWrites(v)
      modifies disk
      ensures var whole := Execute(old(disk.Records()), ws, old(disk.outcomes));
              if ok then Execute(disk.Records(), ws[3..], disk.outcomes) == whole else disk.Ran(whole, false)
      ensures forall p | !Within(VersionDir(v.agentId, v.versionId), p) ::
                (p in disk.files <==> p in old(disk.files)) && (p in disk.files ==> disk.files[p] == old(disk.files)[p])
    {
      MemberPathsUnder(v.agentId, v.versionId);
      assert ws[0] == ws[..3][0] && ws[1] == ws[..3][1] && ws[2] == ws[..3][2];
      assert ws[1..][1..] == ws[2..] && ws[2..][1..] == ws[3..];
      ok := PutMember(v, ["agent.yaml"], TextFile(v.bundle.agentYaml), ws);
      if !ok {
        return;
      }
      ok := PutMember(v, ["policy.yaml"], TextFile(v.bundle.policyYaml), ws[1..]);
      if !ok {
        return;
      }
      ok := PutMember(v, ["tools.yaml"], TextFile(v.bundle.toolsYaml), ws[2..]);
    }

    lemma MemberPathsUnder(a: string, v: string)
      ensures forall m: MemberPath :: Within(VersionDir(a, v), PathOf(VersionKey(a, v, m)))
    {
    }

    /** One file of a version directory, the first of the remaining writes. */
    method PutMember(v: PublishedVersion, member: MemberPath, content: Content, ghost remaining: seq<Write>)
      returns (ok: bool)
      requires remaining != []
      requires remaining[0] == Write.Put(MemberKey(v.agentId, v.versionId, member), content, false)
      modifies disk
      ensures var whole := Execute(old(disk.Records()), remaining, old(disk.outcomes));
              if ok then Execute(disk.Records(), remaining[1..], disk.outcomes) == whole else disk.Ran(whole, false)
      ensures forall p | !Within(VersionDir(v.agentId, v.versionId), p) ::
                (p in disk.files <==> p in old(disk.files)) && (p in disk.files ==> disk.files[p] == old(disk.files)[p])
    {
      MemberPathsUnder(v.agentId, v.versionId);
      ExecuteOne(disk.Records(), remaining[0], disk.outcomes);
      ok := disk.Put(MemberKey(v.agentId, v.versionId, member), content, false);
    }

    /** _write_active_version */
    method WriteActiveVersion(active: ActiveVersion) returns (ok: bool)
      modifies disk
      ensures disk.Ran(Execute(old(disk.Records()), [PointerWrite(active)], old(disk.outcomes)), ok)
      ensures forall p | p != PathOf(ActivePointerKey(active.agentId)) ::
                (p in disk.files <==> p in old(disk.files)) && (p in disk.files ==> disk.files[p] == old(disk.files)[p])
    {
      ok := disk.Put(ActivePointerKey(active.agentId), PointerFile(active), false);
    }

    method WriteVersionAndPointer(v: PublishedVersion, active: ActiveVersion) returns (ok: bool)
      modifies disk
      ensures disk.Ran(Execute(old(disk.Records()), VersionWrites(v) + [PointerWrite(active)], old(disk.outcomes)), ok)
      ensures forall p | !Within(VersionDir(v.agentId, v.versionId), p) && p != PathOf(ActivePointerKey(active.agentId)) ::
                (p in disk.files <==> p in old(disk.files)) && (p in disk.files ==> disk.files[p] == old(disk.files)[p])
    {
      ExecuteAppend(disk.Records(), VersionWrites(v), [PointerWrite(active)], disk.outcomes);
      ok := WriteVersion(v);
      if !ok {
        return;
      }
      ok := WriteActiveVersion(active);
    }

    /** The guards of publish_version_record. */
    method RequirePublishableRecord(publication: PublicationRecord, expectedDraftRevision: int)
      returns (error: Option<Error>)
      ensures error == match PublishRecordPlan(disk.Records(), publication, expectedDraftRevision)
                       case Ok(_) => None
                       case Err(e) => Some(e)
    {
      var v := publication.version;
      error := RequirePointer(v.agentId, publication.pointerExpectation);
      if error.Some? {
        return;
      }
      var draft := GetDraft(v.agentId, v.sourceDraftId);
      if !draft.Found? {
        return Some(if draft.Missing? then RevisionConflict(None) else Unreadable);
      }
      var revision := DraftRevision(draft.value);
      if !revision.Found? {
        return Some(Unreadable);
      }
      if revision.value != expectedDraftRevision {
        return Some(RevisionConflict(Some(revision.value)));
      }
      if publication.draftRevision != expectedDraftRevision || v.bundle != draft.value.bundle {
        return Some(InvariantViolated);
      }
      DirExistsIsVersionDirExists(disk.files, v.agentId, v.versionId);
      return if DirExists(disk.files, VersionDir(v.agentId, v.versionId)) then Some(AlreadyExists) else None;
    }

    method RequirePointer(agentId: string, expectation: Option<Option<string>>) returns (error: Option<Error>)
      ensures error == PointerRefuses(disk.Records(), agentId, expectation)
    {
      if expectation.None? {
        return None;
      }
      var active := GetActive(agentId);
      if active.Malformed? {
        return Some(Unreadable);
      }
      var actual := if active.Found? then Some(active.value.versionId) else None;
      return if actual == expectation.value then None else Some(PointerConflict(actual));
    }

    /** publish_version_record: on any exception the version directory goes and
        the pointer bytes come back, so the disk is exactly as it was. */
    method PublishVersionRecord(publication: PublicationRecord, expectedDraftRevision: int) returns (reply: Reply)
      modifies disk
      ensures Performed(PublishRecordStep(old(disk.Records()), publication, expectedDraftRevision, old(disk.outcomes)), reply)
      ensures !reply.Accepted? ==> disk.files == old(disk.files)
    {
      var v := publication.version;
      var error := RequirePublishableRecord(publication, expectedDraftRevision);
      if error.Some? {
        return Rejected(error.value);
      }
      DirExistsIsVersionDirExists(disk.files, v.agentId, v.versionId);
      var ok := WriteOrRollBack(v, publication.activation);
      return if ok then Accepted else Rejected(WriteFailed);
    }

    /** The try block of publish_version_record and its except branch. */
    method WriteOrRollBack(v: PublishedVersion, active: ActiveVersion) returns (ok: bool)
      requires !DirExists(disk.files, VersionDir(v.agentId, v.versionId))
      requires active.agentId == v.agentId
      modifies disk
      ensures var x := Execute(old(disk.Records()), VersionWrites(v) + [PointerWrite(active)], old(disk.outcomes));
              && ok == x.ok && disk.outcomes == x.rest
              && disk.Records() == if x.ok then x.records
                                   else RolledBack(x.records, old(disk.Records()), v.agentId, v.versionId)
      ensures !ok ==> disk.files == old(disk.files)
    {
      ghost var was := disk.files;
      var priorActive := Fetch(ActivePointerKey(v.agentId));
      RecordsOfAt(disk.files, ActivePointerKey(v.agentId));
      ok := WriteVersionAndPointer(v, active);
      if ok {
        return;
      }
      ghost var half := disk.files;
      disk.RemoveVersion(v.agentId, v.versionId);
      disk.Restore(ActivePointerKey(v.agentId), priorActive);
      RollBackRestoresFiles(was, half, disk.files, v.agentId, v.versionId);
    }

    /** Nothing under the version directory before, and nothing else touched but
        the pointer: removing and restoring gives every file back. */
    lemma RollBackRestoresFiles(was: Files, half: Files, now: Files, a: string, v: string)
      requires !DirExists(was, VersionDir(a, v))
      requires forall p | !Within(VersionDir(a, v), p) && p != PathOf(ActivePointerKey(a)) ::
                 (p in half <==> p in was) && (p in half ==> half[p] == was[p])
      requires var removed: Files := map p | p in half && !Within(VersionDir(a, v), p) :: half[p];
               var pointer := PathOf(ActivePointerKey(a));
               now == if pointer in was then removed[pointer := was[pointer]] else removed - {pointer}
      ensures now == was
    {
      PointerNotInVersionDir(a, v);
      forall p | p in was ensures !Within(VersionDir(a, v), p) {
      }
    }

    lemma PointerNotInVersionDir(a: string, v: string)
      ensures !Within(VersionDir(a, v), PathOf(ActivePointerKey(a)))
    {
    }

    /** The loops of _require_shared_model_connections_active_unlocked and
        _require_mcp_tool_sources_publishable_unlocked: stop at the first failure. */
    method RequireAll<T>(items: seq<T>, holds: T -> bool) returns (ok: bool)
      ensures ok == forall x | x in items :: holds(x)
    {
      var i := 0;
      while i < |items|
        invariant 0 <= i <= |items|
        invariant forall j | 0 <= j < i :: holds(items[j])
      {
        if !holds(items[i]) {
          return false;
        }
        i := i + 1;
      }
      return true;
    }

    /** The guards of _publish_version_unlocked. */
    method RequirePublishable(q: PublishRequest) returns (draft: Result<DraftAgent, Error>)
      ensures PublishPlan(env, disk.Records(), q) ==
              match draft
              case Err(e) => Err(e)
              case Ok(d) => Ok(VersionWrites(VersionFrom(q, d)) + [PointerWrite(PointerFor(q))])
    {
      var found := GetDraft(q.agentId, q.draftId);
      if !found.Found? {
        return Err(if found.Missing? then NotFound else Unreadable);
      }
      var r := disk.Records();
      var bundle := found.value.bundle;
      var connectionsOk := RequireAll(ManifestConnectionIds(env.load, bundle.agentYaml), id => ConnectionActive(r, id));
      if !connectionsOk {
        return Err(ConnectionUnusable);
      }
      if !env.stagesAvailable(bundle.agentYaml) {
        return Err(StageUnavailable);
      }
      if !KnowledgeMatches(env, bundle.agentYaml, q.bindings) {
        return Err(KnowledgeConflict);
      }
      var tools := McpToolContracts(env.load, bundle.toolsYaml);
      if tools.None? {
        return Err(ToolSourceUnusable);
      }
      var toolsOk := RequireAll(tools.value, tool => ToolPublishable(env, r, tool));
      if !toolsOk {
        return Err(ToolSourceUnusable);
      }
      if Strip(q.validationRunId) == "" {
        return Err(ChecksFailed);
      }
      return Ok(found.value);
    }

    /** _publish_version_unlocked: no rollback. */
    method PublishUnlocked(q: PublishRequest) returns (reply: Reply)
      modifies disk
      ensures Performed(Commit(old(disk.Records()), PublishPlan(env, old(disk.Records()), q), old(disk.outcomes)), reply)
    {
      var draft := RequirePublishable(q);
      if draft.Err? {
        return Rejected(draft.error);
      }
      var ok := WriteVersionAndPointer(VersionFrom(q, draft.value), PointerFor(q));
      return if ok then Accepted else Rejected(WriteFailed);
    }

    function RequireAuthorityAllows(agentId: string): (error: Option<Error>)
      reads disk
      ensures error == AuthorityRefuses(disk.Records(), agentId)
    {
      match GetAuthority()
      case Missing => None
      case Malformed => Some(Unreadable)
      case Found(id) => if id == agentId then None else Some(Reserved)
    }

    /** publish_version */
    method PublishVersion(q: PublishRequest) returns (reply: Reply)
      modifies disk
      ensures Performed(Commit(old(disk.Records()), PublishVersionPlan(env, old(disk.Records()), q), old(disk.outcomes)), reply)
    {
      var error := RequireAuthorityAllows(q.agentId);
      if error.Some? {
        return Rejected(error.value);
      }
      reply := PublishUnlocked(q);
    }

    /** publish_canonical_seed_version_if_store_empty */
    method SeedVersion(q: SeedRequest) returns (reply: Reply)
      modifies disk
      ensures Performed(SeedStep(env, old(disk.Records()), q, old(disk.outcomes)), reply)
    {
      if ActiveAgents(disk.Records()) != {} || Fetch(SeedAuthorityKey).Some? {
        return Declined;
      }
      var ok := disk.Put(SeedAuthorityKey, AuthorityFile(q.agentId, None), true);
      if !ok {
        return Rejected(WriteFailed);
      }
      ghost var plan := PublishPlan(env, disk.Records(), q);
      ghost var done := AuthorityWrite(q.agentId, Some(q.versionId));
      if plan.Ok? {
        ExecuteAppend(disk.Records(), plan.value, [done], disk.outcomes);
      }
      reply := PublishUnlocked(q);
      if !reply.Accepted? {
        return;
      }
      ok := disk.Put(SeedAuthorityKey, AuthorityFile(q.agentId, Some(q.versionId)), true);
      return if ok then Accepted else Rejected(WriteFailed);
    }

    /** ensure_canonical_seed_authority */
    method EnsureAuthority(agentId: string, expectedVersionId: string) returns (reply: Reply)
      modifies disk
      ensures Performed(EnsureAuthorityStep(old(disk.Records()), agentId, expectedVersionId, old(disk.outcomes)), reply)
    {
      if ActiveAgents(disk.Records()) != {agentId} {
        return Declined;
      }
      var active := GetActive(agentId);
      if active.Malformed? {
        return Rejected(Unreadable);
      }
      if active.Missing? || active.value.versionId != expectedVersionId {
        return Declined;
      }
      var canonical := GetAuthority();
      if canonical.Malformed? {
        return Rejected(Unreadable);
      }
      if canonical.Found? {
        return if canonical.value == agentId then Accepted else Declined;
      }
      var ok := disk.Put(SeedAuthorityKey, AuthorityFile(agentId, Some(active.value.versionId)), true);
      return if ok then Accepted else Rejected(WriteFailed);
    }

    /** The guards of activate_version_record. */
    method RequireActivatable(a: ActivationRecord) returns (error: Option<Error>)
      ensures ActivatePlan(env, disk.Records(), a) ==
              match error
              case Some(e) => Err(e)
              case None => Ok([PointerWrite(a.activation)])
    {
      var value := a.activation;
      error := RequireAuthorityAllows(value.agentId);
      if error.Some? {
        return;
      }
      var version := GetVersion(value.agentId, value.versionId);
      if !version.Found? {
        return Some(if version.Missing? then NotFound else Unreadable);
      }
      var current := GetActive(value.agentId);
      if current.Malformed? {
        return Some(Unreadable);
      }
      var actual := if current.Found? then Some(current.value.versionId) else None;
      if actual != a.expectation {
        return Some(PointerConflict(actual));
      }
    }

    /** activate_version_record */
    method ActivateVersionRecord(a: ActivationRecord) returns (reply: Reply)
      modifies disk
      ensures Performed(Commit(old(disk.Records()), ActivatePlan(env, old(disk.Records()), a), old(disk.outcomes)), reply)
    {
      var error := RequireActivatable(a);
      if error.Some? {
        return Rejected(error.value);
      }
      var ok := WriteActiveVersion(a.activation);
      return if ok then Accepted else Rejected(WriteFailed);
    }

    // Model connections.

    method WriteConnection(c: ModelConnection, audit: OperationAudit) returns (reply: Reply)
      modifies disk
      ensures Performed(Commit(old(disk.Records()), Ok(ConnectionWrites(c, audit)), old(disk.outcomes)), reply)
    {
      ghost var ws := ConnectionWrites(c, audit);
      ExecuteAppend(disk.Records(), [ws[0]], [ws[1]], disk.outcomes);
      assert [ws[0]] + [ws[1]] == ws;
      var ok := disk.Put(ConnectionKey(c.connectionId, CONNECTION), ConnectionFile(c), true);
      if !ok {
        return Rejected(WriteFailed);
      }
      ok := RecordAudit(audit);
      return if ok then Accepted else Rejected(WriteFailed);
    }

    /** create_model_connection */
    method CreateModelConnection(id: string, settings: ConnectionSettings, now: string, audit: OperationAudit) returns (reply: Reply)
      modifies disk
      ensures Performed(Commit(old(disk.Records()), CreateConnectionPlan(old(disk.Records()), id, settings, now, audit), old(disk.outcomes)), reply)
    {
      var existing := GetModelConnection(id);
      if !existing.Missing? {
        return Rejected(if existing.Found? then AlreadyExists else Unreadable);
      }
      reply := WriteConnection(ModelConnection(id, settings, Active, now), audit);
    }

    /** update_model_connection */
    method UpdateModelConnection(id: string, changes: ConnectionChanges, now: string, audit: OperationAudit) returns (reply: Reply)
      modifies disk
      ensures Performed(Commit(old(disk.Records()), UpdateConnectionPlan(old(disk.Records()), id, changes, now, audit), old(disk.outcomes)), reply)
    {
      var existing := GetModelConnection(id);
      if !existing.Found? {
        return Rejected(if existing.Missing? then NotFound else Unreadable);
      }
      reply := WriteConnection(existing.value.(settings := ChangedSettings(existing.value.settings, changes), updatedAt := now), audit);
    }

    /** archive_model_connection */
    method ArchiveModelConnection(id: string, reason: string, now: string, audit: OperationAudit) returns (reply: Reply)
      modifies disk
      ensures Performed(Commit(old(disk.Records()), ArchiveConnectionPlan(old(disk.Records()), id, reason, now, audit), old(disk.outcomes)), reply)
    {
      if Strip(reason) == "" {
        return Rejected(ReasonRequired);
      }
      var existing := GetModelConnection(id);
      if !existing.Found? {
        return Rejected(if existing.Missing? then NotFound else Unreadable);
      }
      if existing.value.lifecycle.Archived? {
        return Rejected(LifecycleConflict);
      }
      reply := WriteConnection(existing.value.(lifecycle := Archived, updatedAt := now), audit);
    }

    /** restore_model_connection */
    method RestoreModelConnection(id: string, now: string, audit: OperationAudit) returns (reply: Reply)
      modifies disk
      ensures Performed(Commit(old(disk.Records()), RestoreConnectionPlan(old(disk.Records()), id, now, audit), old(disk.outcomes)), reply)
    {
      var existing := GetModelConnection(id);
      if !existing.Found? {
        return Rejected(if existing.Missing? then NotFound else Unreadable);
      }
      if !existing.value.lifecycle.Archived? {
        return Rejected(LifecycleConflict);
      }
      reply := WriteConnection(existing.value.(lifecycle := Active, updatedAt := now), audit);
    }

    /** The guards of physically_delete_model_connection. */
    method RequireDeletable(id: string, reason: string, audit: OperationAudit) returns (error: Option<Error>)
      ensures DeleteConnectionPlan(env, disk.Records(), id, reason, audit) ==
              match error
              case Some(e) => Err(e)
              case None => Ok([AuditWrite(audit), DropConnection(id)])
    {
      if Strip(reason) == "" {
        return Some(ReasonRequired);
      }
      var connection := GetModelConnection(id);
      if !connection.Found? {
        return Some(if connection.Missing? then NotFound else Unreadable);
      }
      var r := disk.Records();
      if !ReferencesReadable(env, r) {
        return Some(Unreadable);
      }
      if DeletionBlockers(env, r, connection.value) != [] {
        return Some(StillReferenced);
      }
      return None;
    }

    /** physically_delete_model_connection */
    method PhysicallyDeleteModelConnection(id: string, reason: string, audit: OperationAudit) returns (reply: Reply)
      modifies disk
      ensures Performed(Commit(old(disk.Records()), DeleteConnectionPlan(env, old(disk.Records()), id, reason, audit), old(disk.outcomes)), reply)
    {
      var error := RequireDeletable(id, reason, audit);
      if error.Some? {
        return Rejected(error.value);
      }
      var ok := RecordAuditAndRemove(id, audit);
      return if ok then Accepted else Rejected(WriteFailed);
    }

    method RecordAuditAndRemove(id: string, audit: OperationAudit) returns (ok: bool)
      modifies disk
      ensures disk.Ran(Execute(old(disk.Records()), [AuditWrite(audit), DropConnection(id)], old(disk.outcomes)), ok)
    {
      ExecuteAppend(disk.Records(), [AuditWrite(audit)], [DropConnection(id)], disk.outcomes);
      assert [AuditWrite(audit)] + [DropConnection(id)] == [AuditWrite(audit), DropConnection(id)];
      ok := RecordAudit(audit);
      if !ok {
        return;
      }
      ok := disk.RemoveConnection(id);
    }

    // Tool sources.

    method WriteToolSource(s: ToolSource, audit: OperationAudit) returns (reply: Reply)
      modifies disk
      ensures Performed(Commit(old(disk.Records()), Ok(ToolSourceWrites(s, audit)), old(disk.outcomes)), reply)
    {
      ghost var ws := ToolSourceWrites(s, audit);
      ExecuteAppend(disk.Records(), [ws[0]], [ws[1]], disk.outcomes);
      assert [ws[0]] + [ws[1]] == ws;
      var ok := disk.Put(ToolSourceKey(s.sourceId), ToolSourceFile(s), true);
      if !ok {
        return Rejected(WriteFailed);
      }
      ok := RecordAudit(audit);
      return if ok then Accepted else Rejected(WriteFailed);
    }

    /** create_tool_source */
    method CreateToolSource(id: string, config: ToolSourceConfig, configOk: bool, now: string, audit: OperationAudit)
      returns (reply: Reply)
      modifies disk
      ensures Performed(Commit(old(disk.Records()), CreateToolSourcePlan(old(disk.Records()), id, config, configOk, now, audit), old(disk.outcomes)), reply)
    {
      if !configOk {
        return Rejected(ChecksFailed);
      }
      var existing := GetToolSource(id);
      if !existing.Missing? {
        return Rejected(if existing.Found? then AlreadyExists else Unreadable);
      }
      reply := WriteToolSource(ToolSource(id, config, Active, 1, now), audit);
    }

    /** update_tool_source */
    method UpdateToolSource(id: string, changes: ToolSourceChanges, configOk: bool, now: string, audit: OperationAudit)
      returns (reply: Reply)
      modifies disk
      ensures Performed(Commit(old(disk.Records()), UpdateToolSourcePlan(old(disk.Records()), id, changes, configOk, now, audit), old(disk.outcomes)), reply)
    {
      var existing := GetToolSource(id);
      if !existing.Found? {
        return Rejected(if existing.Missing? then NotFound else Unreadable);
      }
      if !configOk {
        return Rejected(ChecksFailed);
      }
      reply := WriteToolSource(RevisedToolSource(existing.value, changes, now), audit);
    }

    /** archive_tool_source: the revision stays. */
    method ArchiveToolSource(id: string, reason: string, now: string, audit: OperationAudit) returns (reply: Reply)
      modifies disk
      ensures Performed(Commit(old(disk.Records()), ArchiveToolSourcePlan(old(disk.Records()), id, reason, now, audit), old(disk.outcomes)), reply)
    {
      if Strip(reason) == "" {
        return Rejected(ReasonRequired);
      }
      var existing := GetToolSource(id);
      if !existing.Found? {
        return Rejected(if existing.Missing? then NotFound else Unreadable);
      }
      if existing.value.lifecycle.Archived? {
        return Rejected(LifecycleConflict);
      }
      reply := WriteToolSource(existing.value.(lifecycle := Archived, updatedAt := now), audit);
    }

    /** restore_tool_source */
    method RestoreToolSource(id: string, now: string, audit: OperationAudit) returns (reply: Reply)
      modifies disk
      ensures Performed(Commit(old(disk.Records()), RestoreToolSourcePlan(old(disk.Records()), id, now, audit), old(disk.outcomes)), reply)
    {
      var existing := GetToolSource(id);
      if !existing.Found? {
        return Rejected(if existing.Missing? then NotFound else Unreadable);
      }
      if !existing.value.lifecycle.Archived? {
        return Rejected(LifecycleConflict);
      }
      reply := WriteToolSource(existing.value.(lifecycle := Active, updatedAt := now), audit);
    }

    /** The second locked body of validate_mcp_tool_source_publication. */
    method FinishToolSourceValidation(captured: ToolSource, contracts: seq<Tree>, passed: bool, validationId: string)
      returns (reply: Reply)
      modifies disk
      ensures Performed(
        Commit(old(disk.Records()), FinishValidationPlan(old(disk.Records()), captured, contracts, passed, validationId), old(disk.outcomes)),
        reply)
    {
      if !passed {
        return Rejected(DiscoveryFailed);
      }
      var current := GetToolSource(captured.sourceId);
      if !current.Found? {
        return Rejected(if current.Missing? then NotFound else Unreadable);
      }
      if current.value.configRevision != captured.configRevision {
        return Rejected(LifecycleConflict);
      }
      var validation := ValidationOf(current.value, contracts, validationId);
      var ok := disk.Put(ToolSourceValidationKey(validation.sourceId, validation.validationId), ValidationFile(validation), true);
      return if ok then Accepted else Rejected(WriteFailed);
    }
  }
}
