/** Where the configuration store keeps each record: the path functions of
    proof_agent/configuration/local_store.py, over a model of pathlib. */
module StorePaths {
  import opened Text

  /** Components below the store root. */
  type Path = seq<string>

  /** A proper descendant. */
  predicate Within(dir: Path, p: Path) {
    |dir| < |p| && p[..|dir|] == dir
  }

  // ----- pathlib -----

  predicate IsAbsolute(text: string) {
    text != "" && text[0] == '/'
  }

  /** The components pathlib keeps: empty and "." pieces disappear. */
  function Kept(pieces: seq<string>): seq<string> {
    if pieces == [] then []
    else (if pieces[0] in {"", "."} then [] else [pieces[0]]) + Kept(pieces[1..])
  }

  function Parts(text: string): seq<string> {
    Kept(Split(text, '/'))
  }

  /** parent / text */
  function Child(parent: Path, text: string): Path {
    if IsAbsolute(text) then Parts(text) else parent + Parts(text)
  }

  /** Path.resolve without symbolic links: ".." removes what precedes it. */
  function Resolve(path: Path): Path {
    if path == [] then []
    else
      var front := Resolve(path[..|path| - 1]);
      var last := path[|path| - 1];
      if last != ".." then front + [last]
      else if front == [] then []
      else front[..|front| - 1]
  }

  function AsPosix(path: Path): string {
    Join(path, '/')
  }

  /** A single ordinary file name: what every id check of the store is for. */
  predicate IsPlainName(name: string) {
    && name != "" && name != "." && name != ".."
    && '/' !in name && '\\' !in name
    && !IsSpace(name[0]) && !IsSpace(name[|name| - 1])
  }

  lemma PlainParts(name: string)
    requires '/' !in name && name !in {"", "."}
    ensures Parts(name) == [name] && !IsAbsolute(name)
  {
    SplitPlain(name, '/');
    assert Kept([name]) == [name] + Kept([]);
  }

  lemma {:induction false} ResolvePlain(path: Path)
    requires ".." !in path
    ensures Resolve(path) == path
  {
    if path != [] {
      ResolvePlain(path[..|path| - 1]);
      assert path == path[..|path| - 1] + [path[|path| - 1]];
    }
  }

  lemma {:induction false} KeptPlain(pieces: seq<string>)
    requires forall p | p in pieces :: p != "" && p != "."
    ensures Kept(pieces) == pieces
  {
    if pieces != [] {
      assert pieces[0] in pieces && forall p | p in pieces[1..] :: p in pieces;
      KeptPlain(pieces[1..]);
      assert pieces == [pieces[0]] + pieces[1..];
    }
  }

  /** Writing a relative path with "/" and reading it back loses nothing. */
  lemma PosixRoundTrip(path: Path)
    requires path != []
    requires forall p | p in path :: '/' !in p && p != "" && p != "."
    ensures Parts(AsPosix(path)) == path
    ensures !IsAbsolute(AsPosix(path))
  {
    SplitJoin(path, '/');
    KeptPlain(path);
    assert path[0] in path && path[0][0] in path[0];
    if |path| > 1 {
      assert AsPosix(path) == path[0] + ['/'] + AsPosix(path[1..]);
    }
    assert AsPosix(path)[0] == path[0][0];
  }

  // ----- the guarded path functions -----

  /** The check shared by _model_connection_root, _tool_source_root,
      _configuration_audit_path, _validation_capture_dir and
      _knowledge_release_record_path; extension is "" or ".json". */
  function GuardedChild(root: Path, id: string, extension: string): Option<Path> {
    var raw := Strip(id);
    if || raw == ""
       || raw != id
       || raw in {".", ".."}
       || IsAbsolute(raw)
       || |Parts(raw)| != 1
       || '/' in raw
       || '\\' in raw
    then None
    else
      var path := Resolve(Child(Resolve(root), raw + extension));
      if Resolve(root) <= path then Some(path) else None
  }

  /** The id check accepts exactly the plain names, and then the path is the
      child of that name: the containment test after it never fires. */
  lemma GuardedChildIsPlainChild(root: Path, id: string, extension: string)
    requires ".." !in root
    requires extension in {"", ".json"}
    ensures GuardedChild(root, id, extension) ==
            if IsPlainName(id) then Some(root + [id + extension]) else None
  {
    StripFixpoint(id);
    ResolvePlain(root);
    if IsPlainName(id) {
      PlainParts(id);
      var name := id + extension;
      assert name[0] == id[0];
      if extension == ".json" {
        assert |name| >= 6;
      } else {
        assert name == id;
      }
      assert '/' !in name;
      assert name != "" && name != "." && name != "..";
      PlainParts(name);
      ResolvePlain(root + [name]);
    }
  }

  /** Agent, draft and version ids are joined without that check. A plain name
      stays one level below its parent, but ".." leaves the root: the id functions
      alone do not confine these records. */
  lemma UncheckedChildMayLeave(parent: Path, id: string)
    ensures IsPlainName(id) ==> Child(parent, id) == parent + [id]
    ensures Resolve(Child(["agents"], "..")) == []
  {
    if IsPlainName(id) {
      PlainParts(id);
    }
    assert Split("..", '/') == [".."] by { SplitPlain("..", '/'); }
    assert Kept([".."]) == [".."] + Kept([]);
    assert Child(["agents"], "..") == ["agents", ".."];
    assert ["agents", ".."][..1] == ["agents"];
    assert ["agents"][..0] == [];
    assert Resolve(["agents"]) == ["agents"];
  }

  // ----- record keys -----

  /** One constructor per kind of file below the store root. A member is the
      part of a path below a version or connection directory. */
  datatype Key =
    | DraftKey(agentId: string, draftId: string)
    | DraftRevisionKey(agentId: string, draftId: string)
    | VersionKey(agentId: string, versionId: string, member: Path)
    | ActivePointerKey(agentId: string)
    | SeedAuthorityKey
    | ConnectionKey(connectionId: string, member: Path)
    | ToolSourceKey(sourceId: string)
    | ToolSourceValidationKey(sourceId: string, validationId: string)
    | ConfigurationAuditKey(operationId: string)
    | CaptureKey(captureId: string)
    | KnowledgeReleaseKey(recordId: string)
  {
    predicate WellFormed() {
      (VersionKey? || ConnectionKey?) ==> member != []
    }
  }

  type StoreKey = k: Key | k.WellFormed() witness SeedAuthorityKey

  const PUBLICATION: Path := ["publication.json"]
  const CONNECTION: Path := ["connection.json"]

  function PathOf(k: StoreKey): Path {
    match k
    case DraftKey(a, d) => ["agents", a, "drafts", d, "draft.json"]
    case DraftRevisionKey(a, d) => ["agents", a, "drafts", d, "revision.json"]
    case VersionKey(a, v, member) => VersionDir(a, v) + member
    case ActivePointerKey(a) => ["agents", a, "active_version.json"]
    case SeedAuthorityKey => ["canonical_seed_authority.json"]
    case ConnectionKey(c, member) => ConnectionDir(c) + member
    case ToolSourceKey(s) => ["tool_sources", s, "source.json"]
    case ToolSourceValidationKey(s, v) => ["tool_sources", s, "publication_validations", v + ".json"]
    case ConfigurationAuditKey(o) => ["configuration_audit", o + ".json"]
    case CaptureKey(c) => ["validation_captures", c, "capture.json"]
    case KnowledgeReleaseKey(r) => ["knowledge_release_records", r + ".json"]
  }

  function VersionDir(agentId: string, versionId: string): Path {
    ["agents", agentId, "versions", versionId]
  }

  function ConnectionDir(connectionId: string): Path {
    ["model_connections", connectionId]
  }

  function Stem(name: string): Option<string> {
    if EndsWith(name, ".json") then Some(name[..|name| - 5]) else None
  }

  /** The record kind and id a path stands for, if any. */
  function KeyOf(p: Path): (k: Option<StoreKey>) {
    if |p| == 0 then None
    else if p[0] == "agents" then AgentKeyOf(p)
    else if p[0] == "model_connections" then
      if |p| > 2 then Some(ConnectionKey(p[1], p[2..])) else None
    else if p[0] == "tool_sources" then
      if |p| == 3 && p[2] == "source.json" then Some(ToolSourceKey(p[1]))
      else if |p| == 4 && p[2] == "publication_validations" && Stem(p[3]).Some? then
        Some(ToolSourceValidationKey(p[1], Stem(p[3]).value))
      else None
    else if p[0] == "validation_captures" then
      if |p| == 3 && p[2] == "capture.json" then Some(CaptureKey(p[1])) else None
    else if p == ["canonical_seed_authority.json"] then Some(SeedAuthorityKey)
    else if |p| == 2 && p[0] == "configuration_audit" && Stem(p[1]).Some? then
      Some(ConfigurationAuditKey(Stem(p[1]).value))
    else if |p| == 2 && p[0] == "knowledge_release_records" && Stem(p[1]).Some? then
      Some(KnowledgeReleaseKey(Stem(p[1]).value))
    else None
  }

  function AgentKeyOf(p: Path): (k: Option<StoreKey>) {
    if |p| == 3 && p[2] == "active_version.json" then Some(ActivePointerKey(p[1]))
    else if |p| == 5 && p[2] == "drafts" && p[4] == "draft.json" then Some(DraftKey(p[1], p[3]))
    else if |p| == 5 && p[2] == "drafts" && p[4] == "revision.json" then Some(DraftRevisionKey(p[1], p[3]))
    else if |p| > 4 && p[2] == "versions" then Some(VersionKey(p[1], p[3], p[4..]))
    else None
  }

  lemma StemOf(id: string)
    ensures Stem(id + ".json") == Some(id)
  {
    var name := id + ".json";
    assert name[|name| - 5..] == ".json";
    assert name[..|name| - 5] == id;
  }

  lemma StemIs(name: string)
    requires Stem(name).Some?
    ensures Stem(name).value + ".json" == name
  {
    assert name == name[..|name| - 5] + name[|name| - 5..];
  }

  /** No two records share a file: a path gives its kind and id back. */
  lemma PathOfDetermines(k: StoreKey)
    ensures KeyOf(PathOf(k)) == Some(k)
  {
    match k
    case VersionKey(a, v, member) =>
      assert PathOf(k)[4..] == member;
    case ConnectionKey(c, member) =>
      assert PathOf(k)[2..] == member;
    case ToolSourceValidationKey(s, v) => StemOf(v);
    case ConfigurationAuditKey(o) => StemOf(o);
    case KnowledgeReleaseKey(r) => StemOf(r);
    case _ =>
  }

  lemma KeyOfDetermines(p: Path)
    requires KeyOf(p).Some?
    ensures PathOf(KeyOf(p).value) == p
  {
    match KeyOf(p).value
    case VersionKey(a, v, member) =>
      assert p == [p[0], p[1], p[2], p[3]] + p[4..];
    case ConnectionKey(c, member) =>
      assert p == [p[0], p[1]] + p[2..];
    case ToolSourceValidationKey(s, v) =>
      StemIs(p[3]);
      assert p == [p[0], p[1], p[2], p[3]];
    case ConfigurationAuditKey(o) =>
      StemIs(p[1]);
      assert p == [p[0], p[1]];
    case KnowledgeReleaseKey(r) =>
      StemIs(p[1]);
      assert p == [p[0], p[1]];
    case ActivePointerKey(a) =>
      assert p == [p[0], p[1], p[2]];
    case DraftKey(a, d) =>
      assert p == [p[0], p[1], p[2], p[3], p[4]];
    case DraftRevisionKey(a, d) =>
      assert p == [p[0], p[1], p[2], p[3], p[4]];
    case ToolSourceKey(s) =>
      assert p == [p[0], p[1], p[2]];
    case CaptureKey(c) =>
      assert p == [p[0], p[1], p[2]];
    case SeedAuthorityKey =>
  }
}
