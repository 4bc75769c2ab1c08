/** When a published version that can be read has all its files: an extra file
    called publication.json is parsed as if it were the store's own. */
module StoreVersions {
  import opened Text
  import opened StorePaths
  import opened StoreRecords
  import opened StoreOperations
  import opened StoreInvariants
  import opened StoreRuns
  import opened ManifestTree

  ghost predicate Includes(r: Records, part: Records) {
    forall k | k in part :: k in r && r[k] == part[k]
  }

  /** The version can be read under its own ids, and every one of its files is
      there as it was written. */
  ghost predicate VersionComplete(env: Env, r: Records, a: string, v: string) {
    && ReadVersion(env.parse, r, a, v).Found?
    && var version := ReadVersion(env.parse, r, a, v).value;
    version.agentId == a && version.versionId == v && Includes(r, VersionFiles(version))
  }

  ghost predicate VersionsComplete(env: Env, r: Records) {
    forall a, v | ReadVersion(env.parse, r, a, v).Found? :: VersionComplete(env, r, a, v)
  }

  /** The files of a version lie in its own directory. */
  lemma VersionFilesKeys(v: PublishedVersion)
    ensures forall k | k in VersionFiles(v) :: InDir(k, v.agentId, v.versionId)
  {
    VersionWritesStayInside(v);
    forall k | k in VersionFiles(v) ensures InDir(k, v.agentId, v.versionId) {
      if !InDir(k, v.agentId, v.versionId) {
        ExecuteOk(map[], VersionWrites(v), []);
        ExecuteSpares(map[], VersionWrites(v), [], k);
      }
    }
  }

  lemma CompleteStays(env: Env, r: Records, s: Records, a: string, v: string)
    requires VersionFilesStay(r, s) && VersionComplete(env, r, a, v)
    ensures VersionComplete(env, s, a, v)
  {
    ReadableStays(env, r, s, a, v);
    VersionFilesKeys(ReadVersion(env.parse, r, a, v).value);
  }

  /** A file that is a text is no file of the store, so a version read from it is
      not complete. */
  lemma TextIsNotComplete(env: Env, r: Records, a: string, v: string)
    requires var k := VersionKey(a, v, PUBLICATION); k in r && r[k].TextFile?
    ensures !VersionComplete(env, r, a, v)
  {
    if ReadVersion(env.parse, r, a, v).Found? {
      var version := ReadVersion(env.parse, r, a, v).value;
      if version.agentId == a && version.versionId == v {
        PublicationIsLast(version, map[]);
        assert VersionFiles(version)[VersionKey(a, v, PUBLICATION)] == PublicationFile(version);
      }
    }
  }

  // ----- the text an interrupted publication leaves -----

  /** What is written of a text when its write ends like this; None is nothing. */
  function WrittenPart(text: string, o: Outcome): Option<string> {
    match o
    case FailedBefore => None
    case FailedHalfway(cut, _) => Some(CutOff(TextFile(text), cut).text)
    case _ => Some(text)
  }

  /** The text at publication.json after the extra files and the publication are
      written under these outcomes, given the one before. */
  function TextLeft(extra: seq<ExtraFile>, os: seq<Outcome>, before: Option<string>): Option<string>
    decreases |extra|
  {
    if extra == [] then (if HeadOutcome(os).FailedBefore? then before else None)
    else
      var o := HeadOutcome(os);
      var part := WrittenPart(extra[0].content, o);
      var now := if extra[0].member == PUBLICATION && part.Some? then part else before;
      if o.Done? then TextLeft(extra[1..], TailOutcomes(os), now) else now
  }

  /** The same for a whole version: the three contracts come first. */
  function ExposedText(extra: seq<ExtraFile>, os: seq<Outcome>): Option<string> {
    var second := TailOutcomes(os);
    var third := TailOutcomes(second);
    if HeadOutcome(os).Done? && HeadOutcome(second).Done? && HeadOutcome(third).Done?
    then TextLeft(extra, TailOutcomes(third), None)
    else None
  }

  predicate Parses(parse: Parser, text: Option<string>) {
    text.Some? && parse(text.value).Some?
  }

  /** A publication without rollback that stops with such a text in place. */
  predicate LeavesText(env: Env, r: Records, q: PublishRequest, os: seq<Outcome>) {
    && PublishPlan(env, r, q).Ok?
    && Parses(env.parse, ExposedText(ReadDraft(r, q.agentId, q.draftId).value.bundle.extraFiles, os))
  }

  predicate ExposesText(env: Env, r: Records, op: Operation, os: seq<Outcome>) {
    match op
    case PublishVersion(q) => AuthorityRefuses(r, q.agentId).None? && LeavesText(env, r, q, os)
    case SeedVersion(q) =>
      && ActiveAgents(r) == {} && SeedAuthorityKey !in r && HeadOutcome(os).Done?
      && LeavesText(env, Apply(r, AuthorityWrite(q.agentId, None), Done), q, TailOutcomes(os))
    case _ => false
  }

  function TextAt(r: Records, k: StoreKey): Option<string> {
    if k in r && r[k].TextFile? then Some(r[k].text) else None
  }

  lemma {:induction false} TextAfterExtras(v: PublishedVersion, r: Records, extra: seq<ExtraFile>, os: seq<Outcome>)
    ensures var k := VersionKey(v.agentId, v.versionId, PUBLICATION);
            var s := Execute(r, ExtraWrites(v, extra) + [PublicationWrite(v)], os).records;
            TextAt(s, k) == TextLeft(extra, os, TextAt(r, k))
    decreases |extra|
  {
    var ws := ExtraWrites(v, extra) + [PublicationWrite(v)];
    if extra == [] {
      assert ws == [PublicationWrite(v)];
      ExecuteOne(r, PublicationWrite(v), os);
    } else {
      assert ws[1..] == ExtraWrites(v, extra[1..]) + [PublicationWrite(v)];
      assert ws[0] == ExtraWrites(v, extra)[0];
      TextAfterOne(v, r, extra[0], HeadOutcome(os));
      if HeadOutcome(os).Done? {
        TextAfterExtras(v, Apply(r, ws[0], Done), extra[1..], TailOutcomes(os));
      }
    }
  }

  lemma TextAfterOne(v: PublishedVersion, r: Records, e: ExtraFile, o: Outcome)
    ensures var k := VersionKey(v.agentId, v.versionId, PUBLICATION);
            var s := Apply(r, Put(MemberKey(v.agentId, v.versionId, e.member), TextFile(e.content), false), o);
            var part := WrittenPart(e.content, o);
            TextAt(s, k) == if e.member == PUBLICATION && part.Some? then part else TextAt(r, k)
  {
  }

  lemma ContractsFirst(v: PublishedVersion, r: Records, os: seq<Outcome>)
    ensures var second := TailOutcomes(os);
            var third := TailOutcomes(second);
            var x := Execute(r, ContractWrites(v), os);
            && (x.ok <==> HeadOutcome(os).Done? && HeadOutcome(second).Done? && HeadOutcome(third).Done?)
            && (x.ok ==> x.rest == TailOutcomes(third))
            && Same(r, x.records, VersionKey(v.agentId, v.versionId, PUBLICATION))
  {
    var ws := ContractWrites(v);
    assert ws[1..] == [ws[1], ws[2]] && [ws[1], ws[2]][1..] == [ws[2]];
    var k: StoreKey := VersionKey(v.agentId, v.versionId, PUBLICATION);
    forall w | w in ws ensures Spares(w, k) {
      OtherNames();
    }
    ExecuteSpares(r, ws, os, k);
    var now := Apply(r, ws[0], HeadOutcome(os));
    if HeadOutcome(os).Done? {
      var second := TailOutcomes(os);
      assert Execute(r, ws, os) == Execute(now, ws[1..], second);
      if HeadOutcome(second).Done? {
        ExecuteOne(Apply(now, ws[1], Done), ws[2], TailOutcomes(second));
      }
    }
  }

  lemma OtherNames()
    ensures PUBLICATION != ["agent.yaml"] && PUBLICATION != ["policy.yaml"] && PUBLICATION != ["tools.yaml"]
  {
    assert PUBLICATION[0][1] == 'u' && "agent.yaml"[1] == 'g' && "policy.yaml"[1] == 'o' && "tools.yaml"[1] == 'o';
    assert ["agent.yaml"][0] == "agent.yaml" && ["policy.yaml"][0] == "policy.yaml" && ["tools.yaml"][0] == "tools.yaml";
  }

  /** The text is exactly what the writes of a version leave at publication.json,
      whichever of them raises and however. */
  lemma TextAfterVersion(v: PublishedVersion, r: Records, os: seq<Outcome>)
    requires TextAt(r, VersionKey(v.agentId, v.versionId, PUBLICATION)).None?
    ensures TextAt(Execute(r, VersionWrites(v), os).records, VersionKey(v.agentId, v.versionId, PUBLICATION)) ==
            ExposedText(v.bundle.extraFiles, os)
  {
    var rest := ExtraWrites(v, v.bundle.extraFiles) + [PublicationWrite(v)];
    assert VersionWrites(v) == ContractWrites(v) + rest;
    ExecuteAppend(r, ContractWrites(v), rest, os);
    ContractsFirst(v, r, os);
    var x := Execute(r, ContractWrites(v), os);
    if x.ok {
      TextAfterExtras(v, x.records, v.bundle.extraFiles, x.rest);
    }
  }

  // ----- which drafts can leave one -----

  /** No extra file called publication.json parses, nor does a beginning of one. */
  predicate NoPublicationText(parse: Parser, extra: seq<ExtraFile>) {
    forall i, n | 0 <= i < |extra| && extra[i].member == PUBLICATION && 0 <= n <= |extra[i].content| ::
      parse(extra[i].content[..n]).None?
  }

  /** Whatever raises, no text is left that parses: exactly for these drafts. */
  lemma NoTextExactly(parse: Parser, extra: seq<ExtraFile>)
    ensures (forall os :: !Parses(parse, ExposedText(extra, os))) <==> NoPublicationText(parse, extra)
  {
    if NoPublicationText(parse, extra) {
      forall os ensures !Parses(parse, ExposedText(extra, os)) {
        TextIsAPart(parse, extra, TailOutcomes(TailOutcomes(TailOutcomes(os))), None);
      }
    }
    if !NoPublicationText(parse, extra) {
      var i, n :| 0 <= i < |extra| && extra[i].member == PUBLICATION && 0 <= n <= |extra[i].content|
                  && parse(extra[i].content[..n]).Some?;
      CutVersionExposes(extra, i, n);
      assert Parses(parse, ExposedText(extra, CutVersion(i, n)));
    }
  }

  lemma {:induction false} TextIsAPart(parse: Parser, extra: seq<ExtraFile>, os: seq<Outcome>, before: Option<string>)
    requires NoPublicationText(parse, extra) && !Parses(parse, before)
    ensures !Parses(parse, TextLeft(extra, os, before))
    decreases |extra|
  {
    if extra != [] {
      var o := HeadOutcome(os);
      var part := WrittenPart(extra[0].content, o);
      var now := if extra[0].member == PUBLICATION && part.Some? then part else before;
      PartIsABeginning(extra[0].content, o);
      assert !Parses(parse, now);
      if o.Done? {
        TextIsAPart(parse, extra[1..], TailOutcomes(os), now);
      }
    }
  }

  lemma PartIsABeginning(text: string, o: Outcome)
    ensures WrittenPart(text, o).Some? ==> exists n :: 0 <= n <= |text| && WrittenPart(text, o).value == text[..n]
  {
    assert text[..|text|] == text;
    if o.FailedHalfway? && o.cut < |text| {
      assert WrittenPart(text, o).value == text[..o.cut];
    }
  }

  /** The i-th write is cut off after n characters. */
  function CutAt(i: nat, n: nat): (os: seq<Outcome>)
    ensures |os| == i + 1
  {
    if i == 0 then [FailedHalfway(n, {})] else [Done] + CutAt(i - 1, n)
  }

  lemma {:induction false} CutThere(extra: seq<ExtraFile>, i: nat, n: nat, before: Option<string>)
    requires i < |extra| && extra[i].member == PUBLICATION && n <= |extra[i].content|
    ensures TextLeft(extra, CutAt(i, n), before) == Some(extra[i].content[..n])
    decreases i
  {
    if i == 0 {
      assert extra[0].content[..|extra[0].content|] == extra[0].content;
    } else {
      var now := if extra[0].member == PUBLICATION then Some(extra[0].content) else before;
      assert CutAt(i, n)[1..] == CutAt(i - 1, n);
      CutThere(extra[1..], i - 1, n, now);
    }
  }

  /** The three contracts are written and then the i-th extra file is cut off. */
  function CutVersion(i: nat, n: nat): seq<Outcome> {
    [Done, Done, Done] + CutAt(i, n)
  }

  lemma CutVersionExposes(extra: seq<ExtraFile>, i: nat, n: nat)
    requires i < |extra| && extra[i].member == PUBLICATION && n <= |extra[i].content|
    ensures ExposedText(extra, CutVersion(i, n)) == Some(extra[i].content[..n])
  {
    var os := CutVersion(i, n);
    CutThere(extra, i, n, None);
    assert os[1..] == [Done, Done] + CutAt(i, n) && os[1..][1..] == [Done] + CutAt(i, n) && os[1..][1..][1..] == CutAt(i, n);
  }

  // ----- every step -----

  ghost predicate SameVersionFiles(r: Records, s: Records) {
    forall k: StoreKey | k.VersionKey? :: Same(r, s, k)
  }

  /** The writes of a new version, and whatever follows them: all readable
      versions are complete afterwards exactly when no text is left that parses. */
  lemma PublicationKeepsComplete(env: Env, r: Records, s: Records, v: PublishedVersion, os: seq<Outcome>)
    requires VersionsComplete(env, r) && !VersionDirExists(r, v.agentId, v.versionId)
    requires SameVersionFiles(Execute(r, VersionWrites(v), os).records, s)
    ensures VersionsComplete(env, s) <==> !Parses(env.parse, ExposedText(v.bundle.extraFiles, os))
  {
    var files := Execute(r, VersionWrites(v), os);
    OtherVersionsStay(env, r, s, v, os);
    NewVersionReads(env, r, s, v, os);
    if Parses(env.parse, ExposedText(v.bundle.extraFiles, os)) {
      TextIsNotComplete(env, s, v.agentId, v.versionId);
    }
  }

  lemma OtherVersionsStay(env: Env, r: Records, s: Records, v: PublishedVersion, os: seq<Outcome>)
    requires VersionsComplete(env, r) && !VersionDirExists(r, v.agentId, v.versionId)
    requires SameVersionFiles(Execute(r, VersionWrites(v), os).records, s)
    ensures forall a, w | ReadVersion(env.parse, s, a, w).Found? && !(a == v.agentId && w == v.versionId) ::
              VersionComplete(env, s, a, w)
  {
    VersionWritesStayInside(v);
    forall k: StoreKey | k.VersionKey? && !InDir(k, v.agentId, v.versionId) ensures Same(r, s, k) {
      ExecuteSpares(r, VersionWrites(v), os, k);
    }
    forall k | k in r && k.VersionKey? ensures k in s && s[k] == r[k] {
      assert InDir(k, v.agentId, v.versionId) ==> VersionDirExists(r, v.agentId, v.versionId);
    }
    forall a, w | ReadVersion(env.parse, s, a, w).Found? && !(a == v.agentId && w == v.versionId)
      ensures VersionComplete(env, s, a, w)
    {
      assert Same(r, s, VersionKey(a, w, PUBLICATION));
      assert ReadVersion(env.parse, r, a, w).Found?;
      CompleteStays(env, r, s, a, w);
    }
  }

  lemma NewVersionReads(env: Env, r: Records, s: Records, v: PublishedVersion, os: seq<Outcome>)
    requires !VersionDirExists(r, v.agentId, v.versionId)
    requires SameVersionFiles(Execute(r, VersionWrites(v), os).records, s)
    ensures TextAt(s, VersionKey(v.agentId, v.versionId, PUBLICATION)) == ExposedText(v.bundle.extraFiles, os)
    ensures Parses(env.parse, ExposedText(v.bundle.extraFiles, os)) ==>
              ReadVersion(env.parse, s, v.agentId, v.versionId).Found?
    ensures !Parses(env.parse, ExposedText(v.bundle.extraFiles, os)) ==>
              ReadVersion(env.parse, s, v.agentId, v.versionId).Found? ==> VersionComplete(env, s, v.agentId, v.versionId)
  {
    var k: StoreKey := VersionKey(v.agentId, v.versionId, PUBLICATION);
    assert k !in r by {
      assert k in r ==> VersionDirExists(r, v.agentId, v.versionId);
    }
    TextAfterVersion(v, r, os);
    var files := Execute(r, VersionWrites(v), os).records;
    assert Same(files, s, k);
    if k in files && files[k].PublicationFile? {
      PublicationMeansAll(v, r, os);
      VersionFilesKeys(v);
      assert Includes(s, VersionFiles(v));
    }
  }

  /** Once publication.json is the store's own, all files are there. */
  lemma PublicationMeansAll(v: PublishedVersion, r: Records, os: seq<Outcome>)
    requires var k := VersionKey(v.agentId, v.versionId, PUBLICATION);
             k !in r && k in Execute(r, VersionWrites(v), os).records && Execute(r, VersionWrites(v), os).records[k].PublicationFile?
    ensures Execute(r, VersionWrites(v), os).records[VersionKey(v.agentId, v.versionId, PUBLICATION)] == PublicationFile(v)
    ensures Includes(Execute(r, VersionWrites(v), os).records, VersionFiles(v))
  {
    var members := Execute(r, MemberWrites(v), os);
    ExecuteAppend(r, MemberWrites(v), [PublicationWrite(v)], os);
    MembersAreTexts(v, r, os);
    ExecuteOne(members.records, PublicationWrite(v), members.rest);
    ExecuteOk(r, MemberWrites(v), os);
    PublicationIsLast(v, r);
    VersionWritesStayInside(v);
    assert r + map[] == r;
    ApplyAllOverlays(r, map[], VersionWrites(v));
  }

  lemma MembersAreTexts(v: PublishedVersion, r: Records, os: seq<Outcome>)
    requires VersionKey(v.agentId, v.versionId, PUBLICATION) !in r
    ensures var k := VersionKey(v.agentId, v.versionId, PUBLICATION);
            var s := Execute(r, MemberWrites(v), os).records;
            k in s ==> s[k].TextFile?
  {
    forall w | w in MemberWrites(v) ensures w.Put? && w.content.TextFile? {
      if w !in ContractWrites(v) {
        assert w in ExtraWrites(v, v.bundle.extraFiles);
      }
    }
    TextWritesLeaveTexts(r, MemberWrites(v), os, VersionKey(v.agentId, v.versionId, PUBLICATION));
  }

  lemma {:induction false} TextWritesLeaveTexts(r: Records, ws: seq<Write>, os: seq<Outcome>, k: StoreKey)
    requires forall w | w in ws :: w.Put? && w.content.TextFile?
    requires k in r ==> r[k].TextFile?
    ensures k in Execute(r, ws, os).records ==> Execute(r, ws, os).records[k].TextFile?
    decreases |ws|
  {
    if ws != [] {
      assert ws[0] in ws && forall w | w in ws[1..] :: w in ws;
      TextWritesLeaveTexts(Apply(r, ws[0], HeadOutcome(os)), ws[1..], TailOutcomes(os), k);
    }
  }

  predicate NoVersionFile(w: Write) {
    w.Put? ==> !w.key.VersionKey?
  }

  lemma OtherWritesSpareVersions(r: Records, ws: seq<Write>, os: seq<Outcome>)
    requires forall w | w in ws :: NoVersionFile(w)
    ensures SameVersionFiles(r, Execute(r, ws, os).records)
  {
    forall k: StoreKey | k.VersionKey? ensures Same(r, Execute(r, ws, os).records, k) {
      ExecuteSpares(r, ws, os, k);
    }
  }

  lemma SameVersionsComplete(env: Env, r: Records, s: Records)
    requires SameVersionFiles(r, s)
    ensures VersionsComplete(env, r) <==> VersionsComplete(env, s)
  {
    VersionsCarryOver(env, r, s);
    assert SameVersionFiles(s, r) by {
      forall k: StoreKey | k.VersionKey? ensures Same(s, r, k) {
        assert Same(r, s, k);
      }
    }
    VersionsCarryOver(env, s, r);
  }

  lemma VersionsCarryOver(env: Env, r: Records, s: Records)
    requires SameVersionFiles(r, s)
    ensures VersionsComplete(env, r) ==> VersionsComplete(env, s)
  {
    if VersionsComplete(env, r) {
      forall a, v | ReadVersion(env.parse, s, a, v).Found? ensures VersionComplete(env, s, a, v) {
        assert Same(r, s, VersionKey(a, v, PUBLICATION));
        assert ReadVersion(env.parse, r, a, v).Found?;
        CompleteStays(env, r, s, a, v);
      }
    }
  }

  lemma AfterVersionFiles(r: Records, v: PublishedVersion, more: seq<Write>, os: seq<Outcome>)
    requires forall w | w in more :: NoVersionFile(w)
    ensures SameVersionFiles(Execute(r, VersionWrites(v), os).records, Execute(r, VersionWrites(v) + more, os).records)
  {
    var files := Execute(r, VersionWrites(v), os);
    ExecuteAppend(r, VersionWrites(v), more, os);
    OtherWritesSpareVersions(files.records, more, files.rest);
  }

  lemma PublishKeepsCompleteExactly(env: Env, r: Records, q: PublishRequest, more: seq<Write>, os: seq<Outcome>)
    requires VersionsComplete(env, r) && !VersionDirExists(r, q.agentId, q.versionId)
    requires PublishPlan(env, r, q).Ok? && forall w | w in more :: NoVersionFile(w)
    ensures VersionsComplete(env, Execute(r, PublishPlan(env, r, q).value + more, os).records) <==> !LeavesText(env, r, q, os)
  {
    var v := VersionFrom(q, ReadDraft(r, q.agentId, q.draftId).value);
    var last := [PointerWrite(PointerFor(q))] + more;
    assert PublishPlan(env, r, q).value + more == VersionWrites(v) + last;
    AfterVersionFiles(r, v, last, os);
    PublicationKeepsComplete(env, r, Execute(r, VersionWrites(v) + last, os).records, v, os);
  }

  lemma PublishVersionKeepsComplete(env: Env, r: Records, q: PublishRequest, os: seq<Outcome>)
    requires VersionsComplete(env, r) && !VersionDirExists(r, q.agentId, q.versionId)
    ensures VersionsComplete(env, Step(env, r, PublishVersion(q), os).records) <==> !ExposesText(env, r, PublishVersion(q), os)
  {
    if PublishVersionPlan(env, r, q).Ok? {
      PublishKeepsCompleteExactly(env, r, q, [], os);
      assert PublishPlan(env, r, q).value + [] == PublishPlan(env, r, q).value;
    }
  }

  lemma SeedKeepsComplete(env: Env, r: Records, q: SeedRequest, os: seq<Outcome>)
    requires VersionsComplete(env, r) && !VersionDirExists(r, q.agentId, q.versionId)
    ensures VersionsComplete(env, Step(env, r, SeedVersion(q), os).records) <==> !ExposesText(env, r, SeedVersion(q), os)
  {
    if ActiveAgents(r) == {} && SeedAuthorityKey !in r {
      var reserve := AuthorityWrite(q.agentId, None);
      ExecuteOne(r, reserve, os);
      OtherWritesSpareVersions(r, [reserve], os);
      var x := Execute(r, [reserve], os);
      SameVersionsComplete(env, r, x.records);
      if x.ok && PublishPlan(env, x.records, q).Ok? {
        assert !VersionDirExists(x.records, q.agentId, q.versionId);
        PublishKeepsCompleteExactly(env, x.records, q, [AuthorityWrite(q.agentId, Some(q.versionId))], x.rest);
      }
    }
  }

  lemma {:induction false} NothingLeft(extra: seq<ExtraFile>, before: Option<string>)
    ensures TextLeft(extra, [], before) == None
    decreases |extra|
  {
    if extra != [] {
      NothingLeft(extra[1..], if extra[0].member == PUBLICATION then Some(extra[0].content) else before);
    }
  }

  lemma PublishRecordKeepsComplete(env: Env, r: Records, p: PublicationRecord, n: int, os: seq<Outcome>)
    requires VersionsComplete(env, r)
    ensures VersionsComplete(env, PublishRecordStep(r, p, n, os).records)
  {
    PublishRecordIsAtomic(r, p, n, os);
    if PublishRecordStep(r, p, n, os).reply.Accepted? {
      ExecuteOk(r, VersionWrites(p.version), []);
      NothingLeft(p.version.bundle.extraFiles, None);
      PublicationKeepsComplete(env, r, PublishRecordStep(r, p, n, os).records, p.version, []);
    }
  }

  lemma OtherPlansSpareVersions(env: Env, r: Records, op: Operation)
    requires !op.PublishRecord? && !op.SeedVersion? && !op.EnsureAuthority?
    requires !op.PublishVersion? && Plan(env, r, op).Ok?
    ensures forall w | w in Plan(env, r, op).value :: NoVersionFile(w)
  {
  }

  lemma EnsureAuthorityKeepsComplete(env: Env, r: Records, a: string, v: string, os: seq<Outcome>)
    ensures VersionsComplete(env, EnsureAuthorityStep(r, a, v, os).records) <==> VersionsComplete(env, r)
  {
    var s := EnsureAuthorityStep(r, a, v, os).records;
    forall k: StoreKey | k.VersionKey? ensures Same(r, s, k) {
      EnsureAuthoritySpares(r, a, v, os, k);
    }
    SameVersionsComplete(env, r, s);
  }

  /** From a store in which every readable version is complete a locked body leads
      to such a store if and only if it exposes no text: nothing else, and no other
      fault, makes a version readable that is not complete. */
  lemma StepKeepsVersionsExactly(env: Env, r: Records, op: Operation, os: seq<Outcome>)
    requires VersionsComplete(env, r) && FreshId(r, op)
    ensures VersionsComplete(env, Step(env, r, op, os).records) <==> !ExposesText(env, r, op, os)
  {
    if op.PublishRecord? {
      PublishRecordKeepsComplete(env, r, op.publication, op.expectedDraftRevision, os);
    } else if op.SeedVersion? {
      SeedKeepsComplete(env, r, op.seed, os);
    } else if op.EnsureAuthority? {
      EnsureAuthorityKeepsComplete(env, r, op.seedAgentId, op.expectedVersionId, os);
    } else if op.PublishVersion? {
      PublishVersionKeepsComplete(env, r, op.request, os);
    } else if Plan(env, r, op).Ok? {
      OtherPlansSpareVersions(env, r, op);
      OtherWritesSpareVersions(r, Plan(env, r, op).value, os);
      SameVersionsComplete(env, r, Step(env, r, op, os).records);
    }
  }

  // ----- which publications are safe -----

  /** publish_version of a draft keeps every readable version complete under all
      faults exactly when no extra file called publication.json, nor a beginning of
      one, parses. */
  lemma PublicationIsSafeExactly(env: Env, r: Records, q: PublishRequest)
    requires VersionsComplete(env, r) && !VersionDirExists(r, q.agentId, q.versionId)
    requires PublishVersionPlan(env, r, q).Ok?
    ensures (forall os :: VersionsComplete(env, Step(env, r, PublishVersion(q), os).records)) <==>
            NoPublicationText(env.parse, ReadDraft(r, q.agentId, q.draftId).value.bundle.extraFiles)
  {
    var extra := ReadDraft(r, q.agentId, q.draftId).value.bundle.extraFiles;
    NoTextExactly(env.parse, extra);
    forall os
      ensures VersionsComplete(env, Step(env, r, PublishVersion(q), os).records) <==> !Parses(env.parse, ExposedText(extra, os))
    {
      PublishVersionKeepsComplete(env, r, q, os);
    }
  }

  /** The same for the seed, which publishes once its reservation is written. */
  lemma SeedIsSafeExactly(env: Env, r: Records, q: SeedRequest)
    requires VersionsComplete(env, r) && !VersionDirExists(r, q.agentId, q.versionId)
    requires ActiveAgents(r) == {} && SeedAuthorityKey !in r
    requires PublishPlan(env, Apply(r, AuthorityWrite(q.agentId, None), Done), q).Ok?
    ensures (forall os :: VersionsComplete(env, Step(env, r, SeedVersion(q), os).records)) <==>
            NoPublicationText(env.parse, ReadDraft(r, q.agentId, q.draftId).value.bundle.extraFiles)
  {
    var reserved := Apply(r, AuthorityWrite(q.agentId, None), Done);
    var extra := ReadDraft(reserved, q.agentId, q.draftId).value.bundle.extraFiles;
    assert ReadDraft(reserved, q.agentId, q.draftId) == ReadDraft(r, q.agentId, q.draftId);
    NoTextExactly(env.parse, extra);
    forall os
      ensures VersionsComplete(env, Step(env, r, SeedVersion(q), os).records) <==>
              !(HeadOutcome(os).Done? && Parses(env.parse, ExposedText(extra, TailOutcomes(os))))
    {
      SeedKeepsComplete(env, r, q, os);
    }
    if forall os :: VersionsComplete(env, Step(env, r, SeedVersion(q), os).records) {
      forall os ensures !Parses(env.parse, ExposedText(extra, os)) {
        assert HeadOutcome([Done] + os) == Done && TailOutcomes([Done] + os) == os;
        assert VersionsComplete(env, Step(env, r, SeedVersion(q), [Done] + os).records);
      }
    }
  }

  // ----- runs -----

  predicate EventExposesText(env: Env, m: Machine, e: Event) {
    e.Locked? && ExposesText(env, m.records, e.op, e.outcomes)
  }

  lemma NextKeepsVersionsExactly(env: Env, m: Machine, e: Event)
    requires VersionsComplete(env, m.records) && EventFresh(m, e)
    ensures VersionsComplete(env, Next(env, m, e).records) <==> !EventExposesText(env, m, e)
  {
    if e.Locked? {
      StepKeepsVersionsExactly(env, m.records, e.op, e.outcomes);
    } else if e.EndValidation? && e.ticket in m.pending && EndPlan(m, e).Ok? {
      OtherWritesSpareVersions(m.records, EndPlan(m, e).value, e.outcomes);
      SameVersionsComplete(env, m.records, Next(env, m, e).records);
    }
  }

  ghost predicate NoTextExposed(env: Env, m: Machine, es: seq<Event>) {
    forall k | 0 <= k < |es| :: !EventExposesText(env, StateAt(env, m, es, k), es[k])
  }

  ghost predicate VersionsCompleteAt(env: Env, m: Machine, es: seq<Event>, k: nat)
    requires k <= |es|
  {
    VersionsComplete(env, StateAt(env, m, es, k).records)
  }

  lemma {:induction false} CompleteUpTo(env: Env, m: Machine, es: seq<Event>, k: nat)
    requires RunFresh(env, m, es) && VersionsComplete(env, m.records) && NoTextExposed(env, m, es) && k <= |es|
    ensures VersionsCompleteAt(env, m, es, k)
    decreases k
  {
    if k == 0 {
      StateAtEnds(env, m, es);
    } else {
      CompleteUpTo(env, m, es, k - 1);
      StateAtFresh(env, m, es, k - 1);
      StateAtNext(env, m, es, k - 1);
      NextKeepsVersionsExactly(env, StateAt(env, m, es, k - 1), es[k - 1]);
    }
  }

  /** In every state of a run every version that can be read has all its files, if
      and only if no event of the run exposes a text. */
  lemma RunKeepsVersionsExactly(env: Env, m: Machine, es: seq<Event>)
    requires RunFresh(env, m, es) && VersionsComplete(env, m.records)
    ensures (forall k | 0 <= k <= |es| :: VersionsCompleteAt(env, m, es, k)) <==> NoTextExposed(env, m, es)
  {
    if NoTextExposed(env, m, es) {
      forall k | 0 <= k <= |es| ensures VersionsCompleteAt(env, m, es, k) {
        CompleteUpTo(env, m, es, k);
      }
    }
    if forall k | 0 <= k <= |es| :: VersionsCompleteAt(env, m, es, k) {
      forall k | 0 <= k < |es| ensures !EventExposesText(env, StateAt(env, m, es, k), es[k]) {
        assert VersionsCompleteAt(env, m, es, k) && VersionsCompleteAt(env, m, es, k + 1);
        StateAtFresh(env, m, es, k);
        StateAtNext(env, m, es, k);
        NextKeepsVersionsExactly(env, StateAt(env, m, es, k), es[k]);
      }
    }
  }

  /** The event publishes, without rollback, a draft with such an extra file. */
  predicate PublishesText(env: Env, m: Machine, e: Event) {
    && e.Locked? && (e.op.PublishVersion? || e.op.SeedVersion?)
    && var q := if e.op.PublishVersion? then e.op.request else e.op.seed;
    var draft := ReadDraft(m.records, q.agentId, q.draftId);
    draft.Found? && !NoPublicationText(env.parse, draft.value.bundle.extraFiles)
  }

  /** What a caller can check: as long as no draft with an extra file of that name
      that parses is published without rollback, every readable version is
      complete in every reachable state, whichever writes raise. */
  lemma RunWithoutTextsIsComplete(env: Env, m: Machine, es: seq<Event>)
    requires RunFresh(env, m, es) && VersionsComplete(env, m.records)
    requires forall k | 0 <= k < |es| :: !PublishesText(env, StateAt(env, m, es, k), es[k])
    ensures NoTextExposed(env, m, es) && VersionsComplete(env, Run(env, m, es).records)
  {
    forall k | 0 <= k < |es| ensures !EventExposesText(env, StateAt(env, m, es, k), es[k]) {
      NothingToExpose(env, StateAt(env, m, es, k), es[k]);
    }
    CompleteUpTo(env, m, es, |es|);
    StateAtEnds(env, m, es);
  }

  lemma NothingToExpose(env: Env, m: Machine, e: Event)
    requires !PublishesText(env, m, e)
    ensures !EventExposesText(env, m, e)
  {
    if e.Locked? && (e.op.PublishVersion? || e.op.SeedVersion?) {
      var q := if e.op.PublishVersion? then e.op.request else e.op.seed;
      var draft := ReadDraft(m.records, q.agentId, q.draftId);
      assert ReadDraft(Apply(m.records, AuthorityWrite(q.agentId, None), Done), q.agentId, q.draftId) == draft;
      if draft.Found? {
        NoTextExactly(env.parse, draft.value.bundle.extraFiles);
      }
    }
  }

  // ----- the failing case -----

  /** For every draft that fails the condition: some fault leaves a version in
      place that reads as the text says, without all its files, and activating it
      is accepted. */
  lemma ExposedVersionCanBeActivated(env: Env, r: Records, q: PublishRequest, i: nat, n: nat, a: ActivationRecord)
    requires VersionsComplete(env, r) && !VersionDirExists(r, q.agentId, q.versionId)
    requires PublishVersionPlan(env, r, q).Ok?
    requires var extra := ReadDraft(r, q.agentId, q.draftId).value.bundle.extraFiles;
             && i < |extra| && extra[i].member == PUBLICATION && n <= |extra[i].content|
             && env.parse(extra[i].content[..n]).Some?
    requires a.activation.agentId == q.agentId && a.activation.versionId == q.versionId
    requires ActivePointer(r, q.agentId) == Ok(a.expectation)
    ensures var text := ReadDraft(r, q.agentId, q.draftId).value.bundle.extraFiles[i].content[..n];
            exists os ::
              var step := Step(env, r, PublishVersion(q), os);
              && step.reply == Rejected(WriteFailed)
              && ReadVersion(env.parse, step.records, q.agentId, q.versionId) == Found(env.parse(text).value)
              && !VersionComplete(env, step.records, q.agentId, q.versionId)
              && Step(env, step.records, ActivateVersion(a), []).reply.Accepted?
  {
    var v := VersionFrom(q, ReadDraft(r, q.agentId, q.draftId).value);
    var extra := v.bundle.extraFiles;
    CutVersionExposes(extra, i, n);
    ExposedIsActivated(env, r, q, v, CutVersion(i, n), a);
  }

  lemma ExposedIsActivated(
    env: Env, r: Records, q: PublishRequest, v: PublishedVersion, os: seq<Outcome>, a: ActivationRecord)
    requires !VersionDirExists(r, q.agentId, q.versionId) && PublishVersionPlan(env, r, q).Ok?
    requires v == VersionFrom(q, ReadDraft(r, q.agentId, q.draftId).value)
    requires Parses(env.parse, ExposedText(v.bundle.extraFiles, os))
    requires a.activation.agentId == q.agentId && a.activation.versionId == q.versionId
    requires ActivePointer(r, q.agentId) == Ok(a.expectation)
    ensures var step := Step(env, r, PublishVersion(q), os);
            && step.reply == Rejected(WriteFailed)
            && ReadVersion(env.parse, step.records, q.agentId, q.versionId) ==
               Found(env.parse(ExposedText(v.bundle.extraFiles, os).value).value)
            && !VersionComplete(env, step.records, q.agentId, q.versionId)
            && Step(env, step.records, ActivateVersion(a), []).reply.Accepted?
  {
    TextIsRead(env, r, v, PointerFor(q), os);
    ActivationGoesThrough(env, Step(env, r, PublishVersion(q), os).records, a);
  }

  lemma ActivationGoesThrough(env: Env, r: Records, a: ActivationRecord)
    requires AuthorityRefuses(r, a.activation.agentId).None?
    requires ReadVersion(env.parse, r, a.activation.agentId, a.activation.versionId).Found?
    requires ActivePointer(r, a.activation.agentId) == Ok(a.expectation)
    ensures Step(env, r, ActivateVersion(a), []).reply.Accepted?
  {
    ExecuteOne(r, PointerWrite(a.activation), []);
  }

  /** A text in place means the writes stopped before the pointer. */
  lemma TextIsRead(env: Env, r: Records, v: PublishedVersion, active: ActiveVersion, os: seq<Outcome>)
    requires !VersionDirExists(r, v.agentId, v.versionId) && active.agentId == v.agentId
    requires Parses(env.parse, ExposedText(v.bundle.extraFiles, os))
    ensures var x := Execute(r, VersionWrites(v) + [PointerWrite(active)], os);
            && !x.ok
            && ReadVersion(env.parse, x.records, v.agentId, v.versionId) ==
               Found(env.parse(ExposedText(v.bundle.extraFiles, os).value).value)
            && !VersionComplete(env, x.records, v.agentId, v.versionId)
            && Same(r, x.records, ActivePointerKey(v.agentId)) && Same(r, x.records, SeedAuthorityKey)
  {
    var k: StoreKey := VersionKey(v.agentId, v.versionId, PUBLICATION);
    assert k !in r by {
      assert k in r ==> VersionDirExists(r, v.agentId, v.versionId);
    }
    var files := Execute(r, VersionWrites(v), os);
    TextAfterVersion(v, r, os);
    ExecuteOk(r, VersionWrites(v), os);
    PublicationIsLast(v, r);
    ExecuteAppend(r, VersionWrites(v), [PointerWrite(active)], os);
    TextIsNotComplete(env, files.records, v.agentId, v.versionId);
    VersionWritesStayInside(v);
    ExecuteSpares(r, VersionWrites(v), os, ActivePointerKey(v.agentId));
    ExecuteSpares(r, VersionWrites(v), os, SeedAuthorityKey);
  }

  // A store and a package for which this happens: the draft holds an old
  // publication.json, as a copied version directory does.

  const OLD := PublishedVersion("a", "old", "d", "r", "", "", NoBundle, "", "")
  const COPIED := DraftAgent("a", "d", "", "", ContractBundle("", "", "", [ExtraFile(PUBLICATION, "old")], ""), "", [])
  const COPIED_STORE: Records := map[DraftKey("a", "d") := DraftFile(COPIED), DraftRevisionKey("a", "d") := RevisionFile(1)]
  const REQUEST := PublishRequest("a", "d", "new", "r", "", "", [])

  /** The loader that knows only empty documents. */
  function EmptyDocuments(text: string): Option<Tree> {
    Some(Mapping([]))
  }

  lemma EmptyDocumentsShrink()
    ensures Shrinks(EmptyDocuments)
  {
    forall text ensures LoadOrEmpty(EmptyDocuments, text) == Some(Mapping([])) {
    }
    assert Weight(Mapping([])) == 0;
  }

  lemma NoDeclarations(load: Loader)
    requires forall text :: LoadOrEmpty(load, text) == Some(Mapping([]))
    ensures ManifestConnectionIds(load, "") == []
  {
    assert SharedConnectionIds(load, Mapping([])) == [];
    assert Below(load, Scalar("")) == [Mapping([])];
    assert SharedConnectionIdsOfAll(load, [Mapping([])]) == SharedConnectionIds(load, Mapping([])) + SharedConnectionIdsOfAll(load, []);
  }

  lemma NothingBound(env: Env)
    requires env.load == EmptyDocuments
    ensures KnowledgeMatches(env, "", []) && McpToolContracts(env.load, "") == Some([])
  {
    assert BindingItems(env.load, "") == Some([]);
    assert ToSet(BindingIds([])) == {};
  }

  lemma CopiedIsPublishable(env: Env, draft: DraftAgent)
    requires env.load == EmptyDocuments && env.stagesAvailable("") && draft == COPIED
    ensures PublishVersionPlan(env, COPIED_STORE, REQUEST).Ok?
  {
    NoDeclarations(env.load);
    NothingBound(env);
    StripFixpoint("r");
    assert ReadDraft(COPIED_STORE, "a", "d") == Found(draft) && AuthorityRefuses(COPIED_STORE, "a").None?;
  }

  lemma CopiedStoreIsGood(env: Env)
    ensures Sound(COPIED_STORE) && VersionsComplete(env, COPIED_STORE) && FreshId(COPIED_STORE, PublishVersion(REQUEST))
    ensures ReadDraft(COPIED_STORE, "a", "d") == Found(COPIED) && ActivePointer(COPIED_STORE, "a") == Ok(None)
  {
  }

  ghost predicate ReadsIncomplete(env: Env, r: Records, q: PublishRequest, os: seq<Outcome>) {
    var after := Step(env, r, PublishVersion(q), os).records;
    && ReadVersion(env.parse, after, q.agentId, q.versionId).Found?
    && !VersionComplete(env, after, q.agentId, q.versionId)
  }

  lemma SomeFaultExposes(env: Env, r: Records, q: PublishRequest, e: ExtraFile) returns (os: seq<Outcome>)
    requires !VersionDirExists(r, q.agentId, q.versionId) && PublishVersionPlan(env, r, q).Ok?
    requires ReadDraft(r, q.agentId, q.draftId).value.bundle.extraFiles == [e]
    requires e.member == PUBLICATION && env.parse(e.content).Some?
    ensures ReadsIncomplete(env, r, q, os)
  {
    var n := |e.content|;
    os := CutVersion(0, n);
    CutVersionExposes([e], 0, n);
    assert e.content[..n] == e.content;
    TextIsRead(env, r, VersionFrom(q, ReadDraft(r, q.agentId, q.draftId).value), PointerFor(q), os);
  }

  /** From a sound store with complete versions, a publication under a new id that
      leaves a readable, incomplete version. */
  ghost predicate Exposes(env: Env, r: Records, q: PublishRequest, os: seq<Outcome>) {
    Sound(r) && VersionsComplete(env, r) && FreshId(r, PublishVersion(q)) && ReadsIncomplete(env, r, q, os)
  }

  lemma CopiedIsRead(env: Env) returns (os: seq<Outcome>)
    requires env.load == EmptyDocuments && env.stagesAvailable("") && env.parse(COPIED.bundle.extraFiles[0].content).Some?
    ensures Exposes(env, COPIED_STORE, REQUEST, os)
  {
    CopiedStoreIsGood(env);
    CopiedIsPublishable(env, COPIED);
    os := SomeFaultExposes(env, COPIED_STORE, REQUEST, COPIED.bundle.extraFiles[0]);
  }

  /** Surroundings in which nothing else stands in the way. */
  lemma LenientEnv() returns (env: Env)
    ensures env.load == EmptyDocuments && env.stagesAvailable("") && env.parse(COPIED.bundle.extraFiles[0].content).Some?
  {
    EmptyDocumentsShrink();
    env := Env(EmptyDocuments, text => Some(OLD), t => true, s => true, t => true, t => None);
  }

  /** The exception is real: this publication can leave a version that reads as an
      older one and has none of its files. */
  lemma CopiedPublicationIsRead()
    ensures exists env: Env, r, q, os :: Exposes(env, r, q, os)
  {
    var env := LenientEnv();
    var os := CopiedIsRead(env);
  }
}
