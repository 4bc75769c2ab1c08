/** Agent packages: the reader in proof_agent/configuration/importer.py and the
    writer in proof_agent/configuration/compiler.py, over a tree of files. */
module AgentPackage {
  import opened Text
  import opened StorePaths
  import opened ManifestTree

  /** A file that is not UTF-8 text is binary. */
  datatype File = TextFile(text: string) | BinaryFile

  type Files = map<Path, File>

  function Relative(dir: Path, p: Path): Path
    requires Within(dir, p)
  {
    p[|dir|..]
  }

  /** What a file system can hold: names are ordinary, and no file lies below
      another. */
  ghost predicate IsTree(files: Files) {
    && (forall p | p in files :: IsName(p))
    && forall p, q | p in files && q in files :: !Within(p, q)
  }

  predicate IsName(p: Path) {
    forall c | c in p :: c != "" && c != "." && c != ".." && '/' !in c
  }

  // ----- text files -----

  /** Reading a text file turns every line end into a line feed. */
  function UniversalNewlines(s: string): string {
    if s == "" then ""
    else if s[0] != '\r' then [s[0]] + UniversalNewlines(s[1..])
    else if |s| > 1 && s[1] == '\n' then ['\n'] + UniversalNewlines(s[2..])
    else ['\n'] + UniversalNewlines(s[1..])
  }

  /** Text survives reading exactly when it has no carriage return; read twice is
      read once. */
  lemma {:induction false} NewlinesKeptIff(s: string)
    ensures UniversalNewlines(s) == s <==> '\r' !in s
    ensures '\r' !in UniversalNewlines(s)
    ensures |UniversalNewlines(s)| <= |s|
    decreases |s|
  {
    if s != "" {
      assert s == [s[0]] + s[1..];
      if s[0] != '\r' {
        NewlinesKeptIff(s[1..]);
        assert UniversalNewlines(s)[1..] == UniversalNewlines(s[1..]);
      } else if |s| > 1 && s[1] == '\n' {
        NewlinesKeptIff(s[2..]);
      } else {
        NewlinesKeptIff(s[1..]);
        assert UniversalNewlines(s)[0] == '\n';
      }
    }
  }

  /** path.read_text(encoding="utf-8"); None raises. */
  function ReadText(files: Files, p: Path): Option<string> {
    if p in files && files[p].TextFile? then Some(UniversalNewlines(files[p].text)) else None
  }

  // ----- reading a package -----

  datatype ExtraFile = ExtraFile(name: string, content: string)

  datatype Bundle = Bundle(agentYaml: string, policyYaml: string, toolsYaml: string, extraFiles: seq<ExtraFile>)

  /** _resolve_package_path */
  function ResolvePackagePath(dir: Path, value: string): Path {
    Resolve(Child(dir, value))
  }

  function TextAt(t: Tree, key: string): Option<string> {
    match Get(t, key)
    case Some(Scalar(text)) => Some(text)
    case _ => None
  }

  /** raw["policy"]["file"] */
  function PolicyFile(raw: Tree): Option<string> {
    match Get(raw, "policy")
    case None => None
    case Some(policy) => TextAt(policy, "file")
  }

  /** What capabilities.tools says: nothing to bundle, a file, or a value that is
      no path. */
  datatype ToolsReference = NoTools | ToolsFile(value: string) | BadTools

  /** _resolve_tools_path */
  function ToolsFileOf(raw: Tree): ToolsReference {
    match Get(raw, "capabilities")
    case None => NoTools
    case Some(capabilities) =>
      match Get(capabilities, "tools")
      case None => NoTools
      case Some(tools) =>
        match Get(tools, "enabled")
        case None => NoTools
        case Some(enabled) =>
          match Get(tools, "file")
          case None => NoTools
          case Some(file) =>
            if !Truthy(enabled) || !Truthy(file) then NoTools
            else if file.Scalar? then ToolsFile(file.text) else BadTools
  }

  /** A tool with a local handler is refused. */
  predicate HasHandler(raw: Tree) {
    match Get(raw, "tools")
    case Some(Sequence(tools)) => exists t | t in tools :: Get(t, "handler").Some?
    case _ => false
  }

  function ReadMapping(load: string -> Option<Tree>, files: Files, p: Path): Option<Tree> {
    match ReadText(files, p)
    case None => None
    case Some(text) =>
      match load(text)
      case None => None
      case Some(t) => if t.Mapping? then Some(t) else None
  }

  /** sorted(package_dir.rglob("*")), files only; the order does not matter. */
  ghost predicate Lists(listing: seq<Path>, files: Files, dir: Path) {
    forall p :: p in listing <==> p in files && Within(dir, p)
  }

  function Collected(files: Files, dir: Path, excluded: set<Path>, listing: seq<Path>): seq<ExtraFile>
    requires forall p | p in listing :: Within(dir, p)
  {
    if listing == [] then []
    else
      var p := listing[|listing| - 1];
      var front := Collected(files, dir, excluded, listing[..|listing| - 1]);
      if p in excluded || ReadText(files, p).None? then front
      else front + [ExtraFile(AsPosix(Relative(dir, p)), ReadText(files, p).value)]
  }

  /** _collect_extra_files */
  method CollectExtraFiles(files: Files, dir: Path, excluded: set<Path>, listing: seq<Path>)
    returns (extraFiles: seq<ExtraFile>)
    requires forall p | p in listing :: Within(dir, p)
    ensures extraFiles == Collected(files, dir, excluded, listing)
  {
    extraFiles := [];
    var i := 0;
    while i < |listing|
      invariant 0 <= i <= |listing|
      invariant extraFiles == Collected(files, dir, excluded, listing[..i])
    {
      var path := listing[i];
      assert listing[..i + 1][..i] == listing[..i];
      if path !in excluded {
        var content := ReadText(files, path);
        if content.Some? {
          extraFiles := extraFiles + [ExtraFile(AsPosix(Relative(dir, path)), content.value)];
        }
      }
      i := i + 1;
    }
    assert listing[..i] == listing;
  }

  /** The three places a bundle's contracts are read from. */
  datatype References = References(manifest: Path, policy: Path, tools: Option<Path>)
  {
    function All(): set<Path> {
      {manifest, policy} + (if tools.Some? then {tools.value} else {})
    }
  }

  function ReferencesOf(dir: Path, manifest: Path, raw: Tree): Option<References> {
    var policy := PolicyFile(raw);
    var tools := ToolsFileOf(raw);
    if policy.None? || tools.BadTools? then None
    else
      Some(References(
        manifest,
        ResolvePackagePath(dir, policy.value),
        if tools.ToolsFile? then Some(ResolvePackagePath(dir, tools.value)) else None))
  }

  function ToolsText(load: string -> Option<Tree>, files: Files, tools: Option<Path>): Option<string> {
    if tools.None? then Some("")
    else
      match ReadMapping(load, files, tools.value)
      case None => None
      case Some(raw) => if HasHandler(raw) then None else ReadText(files, tools.value)
  }

  /** _build_agent_package_contract_bundle; None raises. The manifest is a file of
      the package directory. */
  function ImportBundle(load: string -> Option<Tree>, files: Files, dir: Path, manifestName: string, listing: seq<Path>)
    : Option<Bundle>
    requires forall p | p in listing :: Within(dir, p)
  {
    var manifest := dir + [manifestName];
    match ReadMapping(load, files, manifest)
    case None => None
    case Some(raw) =>
      match ReferencesOf(dir, manifest, raw)
      case None => None
      case Some(refs) =>
        var tools := ToolsText(load, files, refs.tools);
        var policy := ReadText(files, refs.policy);
        if tools.None? || policy.None? then None
        else
          Some(Bundle(
            ReadText(files, manifest).value, policy.value, tools.value,
            Collected(files, dir, refs.All(), listing)))
  }

  method BuildAgentPackageContractBundle(
    load: string -> Option<Tree>, files: Files, dir: Path, manifestName: string, listing: seq<Path>)
    returns (bundle: Option<Bundle>)
    requires forall p | p in listing :: Within(dir, p)
    ensures bundle == ImportBundle(load, files, dir, manifestName, listing)
  {
    var manifest := dir + [manifestName];
    var raw := ReadMapping(load, files, manifest);
    if raw.None? {
      return None;
    }
    var refs := ReferencesOf(dir, manifest, raw.value);
    if refs.None? {
      return None;
    }
    var toolsYaml := ToolsText(load, files, refs.value.tools);
    if toolsYaml.None? {
      return None;
    }
    var extraFiles := CollectExtraFiles(files, dir, refs.value.All(), listing);
    var policyYaml := ReadText(files, refs.value.policy);
    if policyYaml.None? {
      return None;
    }
    return Some(Bundle(ReadText(files, manifest).value, policyYaml.value, toolsYaml.value, extraFiles));
  }

  // ----- writing a package -----

  datatype TextWrite = TextWrite(target: Path, text: string)

  const AGENT_YAML := ["agent.yaml"]
  const POLICY_YAML := ["policy.yaml"]
  const TOOLS_YAML := ["tools.yaml"]

  function ExtraWrites(extraFiles: seq<ExtraFile>): (ws: seq<TextWrite>)
    ensures |ws| == |extraFiles|
    ensures forall i | 0 <= i < |extraFiles| :: ws[i] == TextWrite(Parts(extraFiles[i].name), extraFiles[i].content)
  {
    seq(|extraFiles|, i requires 0 <= i < |extraFiles| => TextWrite(Parts(extraFiles[i].name), extraFiles[i].content))
  }

  /** The writes of compile_draft_agent below its package directory: contracts
      first, extra files in order. */
  function BundleWrites(b: Bundle): seq<TextWrite> {
    ContractWrites(b) + ExtraWrites(b.extraFiles)
  }

  function ContractWrites(b: Bundle): seq<TextWrite> {
    [TextWrite(AGENT_YAML, b.agentYaml), TextWrite(POLICY_YAML, b.policyYaml), TextWrite(TOOLS_YAML, b.toolsYaml)]
  }

  /** A file can be written where no file is in the way. */
  predicate CanWrite(files: Files, p: Path) {
    forall q | q in files :: !Within(p, q) && !Within(q, p)
  }

  function Written(files: Files, dir: Path, ws: seq<TextWrite>): Option<Files> {
    if ws == [] then Some(files)
    else
      var w := ws[|ws| - 1];
      match Written(files, dir, ws[..|ws| - 1])
      case None => None
      case Some(before) =>
        if CanWrite(before, dir + w.target) then Some(before[dir + w.target := TextFile(w.text)]) else None
  }

  class PackageDisk {
    var files: Files

    constructor (files: Files)
      ensures this.files == files
    {
      this.files := files;
    }

    /** mkdir(parents=True, exist_ok=True) of the parent, then write_text. */
    method WriteText(path: Path, text: string) returns (ok: bool)
      modifies this
      ensures ok == CanWrite(old(files), path)
      ensures files == if ok then old(files)[path := TextFile(text)] else old(files)
    {
      ok := CanWrite(files, path);
      if ok {
        files := files[path := TextFile(text)];
      }
    }

    /** The next of the bundle's writes. */
    method WriteNext(ghost was: Files, dir: Path, ghost ws: seq<TextWrite>, ghost i: nat, target: Path, text: string)
      returns (ok: bool)
      requires i < |ws| && ws[i] == TextWrite(target, text)
      requires Written(was, dir, ws[..i]) == Some(files)
      modifies this
      ensures ok ==> Written(was, dir, ws[..i + 1]) == Some(files)
      ensures !ok ==> Written(was, dir, ws).None?
    {
      WrittenStep(was, dir, ws, i);
      ok := WriteText(dir + target, text);
      if !ok {
        WrittenStops(was, dir, ws, i + 1);
      }
    }

    /** compile_draft_agent: stops at the first write that raises. */
    method CompileDraftAgent(bundle: Bundle, packageDir: Path) returns (ok: bool)
      modifies this
      ensures ok == Written(old(files), packageDir, BundleWrites(bundle)).Some?
      ensures ok ==> Some(files) == Written(old(files), packageDir, BundleWrites(bundle))
    {
      ghost var was := files;
      ghost var ws := BundleWrites(bundle);
      WrittenStep(was, packageDir, ws, 0);
      ok := WriteNext(was, packageDir, ws, 0, AGENT_YAML, bundle.agentYaml);
      if !ok {
        return;
      }
      ok := WriteNext(was, packageDir, ws, 1, POLICY_YAML, bundle.policyYaml);
      if !ok {
        return;
      }
      ok := WriteNext(was, packageDir, ws, 2, TOOLS_YAML, bundle.toolsYaml);
      if !ok {
        return;
      }
      ok := WriteExtraFiles(was, packageDir, ws, bundle.extraFiles);
    }

    /** The loop over the extra files, the writes behind the three contracts. */
    method WriteExtraFiles(ghost was: Files, dir: Path, ghost ws: seq<TextWrite>, extraFiles: seq<ExtraFile>)
      returns (ok: bool)
      requires |ws| == 3 + |extraFiles| && Written(was, dir, ws[..3]) == Some(files)
      requires forall i | 0 <= i < |extraFiles| :: ws[3 + i] == TextWrite(Parts(extraFiles[i].name), extraFiles[i].content)
      modifies this
      ensures ok == Written(was, dir, ws).Some?
      ensures ok ==> Some(files) == Written(was, dir, ws)
    {
      var i := 0;
      while i < |extraFiles|
        invariant 0 <= i <= |extraFiles|
        invariant Written(was, dir, ws[..3 + i]) == Some(files)
      {
        ok := WriteNext(was, dir, ws, 3 + i, Parts(extraFiles[i].name), extraFiles[i].content);
        if !ok {
          return;
        }
        i := i + 1;
      }
      assert ws[..3 + i] == ws;
      return true;
    }
  }

  lemma WrittenStep(files: Files, dir: Path, ws: seq<TextWrite>, i: nat)
    requires i < |ws|
    ensures Written(files, dir, ws[..i + 1]) ==
            match Written(files, dir, ws[..i])
            case None => None
            case Some(before) =>
              if CanWrite(before, dir + ws[i].target) then Some(before[dir + ws[i].target := TextFile(ws[i].text)]) else None
    ensures i == 0 ==> Written(files, dir, ws[..i]) == Some(files)
  {
    assert ws[..i + 1][..i] == ws[..i];
  }

  lemma {:induction false} WrittenStops(files: Files, dir: Path, ws: seq<TextWrite>, i: nat)
    requires i <= |ws| && Written(files, dir, ws[..i]).None?
    ensures Written(files, dir, ws).None?
    decreases |ws| - i
  {
    if i == |ws| {
      assert ws[..i] == ws;
    } else {
      WrittenStep(files, dir, ws, i);
      WrittenStops(files, dir, ws, i + 1);
    }
  }

  // ----- what the writes leave -----

  /** The text each target ends up with. */
  function Overlay(ws: seq<TextWrite>): map<Path, string> {
    if ws == [] then map[]
    else
      var w := ws[|ws| - 1];
      Overlay(ws[..|ws| - 1])[w.target := w.text]
  }

  /** The last write to a target decides. */
  lemma {:induction false} OverlayLast(ws: seq<TextWrite>, k: Path)
    ensures k in Overlay(ws) <==> exists i :: 0 <= i < |ws| && ws[i].target == k
    ensures k in Overlay(ws) ==>
              exists i :: 0 <= i < |ws| && ws[i] == TextWrite(k, Overlay(ws)[k])
                          && forall j | i < j < |ws| :: ws[j].target != k
  {
    if ws != [] {
      var n := |ws| - 1;
      OverlayLast(ws[..n], k);
      if ws[n].target != k && k in Overlay(ws) {
        var i :| 0 <= i < n && ws[..n][i] == TextWrite(k, Overlay(ws)[k]) && forall j | i < j < n :: ws[..n][j].target != k;
        assert ws[i] == TextWrite(k, Overlay(ws)[k]);
        assert forall j | i < j < n :: ws[..n][j] == ws[j];
      }
    }
  }

  /** Nothing in a directory yet, and nothing in its way. */
  ghost predicate Free(files: Files, dir: Path) {
    forall p | p in files :: !Within(dir, p) && !Within(p, dir) && p != dir
  }

  ghost predicate Unobstructed(ws: seq<TextWrite>) {
    forall i, j | 0 <= i < |ws| && 0 <= j < |ws| :: !Within(ws[i].target, ws[j].target)
  }

  /** In a free directory the writes succeed exactly when no target lies below
      another, and then the directory holds just what they wrote. */
  lemma {:induction false} WrittenInFreeDirectory(files: Files, dir: Path, ws: seq<TextWrite>)
    requires Free(files, dir) && forall w | w in ws :: w.target != []
    ensures Written(files, dir, ws).Some? <==> Unobstructed(ws)
    ensures Written(files, dir, ws).Some? ==> HoldsJust(files, dir, Overlay(ws), Written(files, dir, ws).value)
  {
    if ws != [] {
      var n := |ws| - 1;
      var front, t := ws[..n], ws[n].target;
      assert ws[n] in ws && forall w | w in front :: w in ws;
      WrittenInFreeDirectory(files, dir, front);
      UnobstructedSplit(ws);
      if Written(files, dir, front).Some? {
        var before := Written(files, dir, front).value;
        CanWriteIff(files, dir, front, before, t);
        HoldsOneMore(files, dir, Overlay(front), before, ws[n]);
      }
    }
  }

  lemma UnobstructedSplit(ws: seq<TextWrite>)
    requires ws != []
    ensures var front, t := ws[..|ws| - 1], ws[|ws| - 1].target;
            Unobstructed(ws) <==>
              Unobstructed(front)
              && forall i | 0 <= i < |front| :: !Within(t, front[i].target) && !Within(front[i].target, t)
  {
    var front := ws[..|ws| - 1];
    assert forall i | 0 <= i < |front| :: front[i] == ws[i];
  }

  ghost predicate HoldsJust(files: Files, dir: Path, o: map<Path, string>, after: Files) {
    && (forall p | !Within(dir, p) :: (p in after <==> p in files) && (p in files ==> after[p] == files[p]))
    && (forall k | k != [] :: dir + k in after <==> k in o)
    && (forall k | k in o && k != [] :: dir + k in after && after[dir + k] == TextFile(o[k]))
  }

  lemma BelowIsDirPlus(dir: Path, p: Path)
    ensures Within(dir, p) <==> exists k :: k != [] && p == dir + k
  {
    if Within(dir, p) {
      assert p == dir + p[|dir|..];
    }
    if k :| k != [] && p == dir + k {
      assert p[..|dir|] == dir;
    }
  }

  lemma WithinBoth(dir: Path, a: Path, b: Path)
    ensures Within(dir + a, dir + b) <==> Within(a, b)
  {
    if |a| < |b| {
      assert (dir + b)[..|dir + a|] == dir + b[..|a|];
      assert (dir + a)[|dir|..] == a && (dir + b[..|a|])[|dir|..] == b[..|a|];
    }
  }

  lemma CanWriteIff(files: Files, dir: Path, front: seq<TextWrite>, before: Files, t: Path)
    requires Free(files, dir) && t != [] && HoldsJust(files, dir, Overlay(front), before)
    requires forall w | w in front :: w.target != []
    ensures CanWrite(before, dir + t) <==>
            forall i | 0 <= i < |front| :: !Within(t, front[i].target) && !Within(front[i].target, t)
  {
    if CanWrite(before, dir + t) {
      forall i | 0 <= i < |front| ensures !Within(t, front[i].target) && !Within(front[i].target, t) {
        var k := front[i].target;
        assert front[i] in front;
        OverlayLast(front, k);
        assert dir + k in before;
        WithinBoth(dir, t, k);
        WithinBoth(dir, k, t);
      }
    }
    if forall i | 0 <= i < |front| :: !Within(t, front[i].target) && !Within(front[i].target, t) {
      forall q | q in before ensures !Within(dir + t, q) && !Within(q, dir + t) {
        BelowIsDirPlus(dir, q);
        if Within(dir, q) {
          var k :| k != [] && q == dir + k;
          OverlayLast(front, k);
          WithinBoth(dir, t, k);
          WithinBoth(dir, k, t);
        } else {
          OutsideIsApart(dir, t, q);
        }
      }
    }
  }

  lemma OutsideIsApart(dir: Path, t: Path, q: Path)
    requires t != [] && !Within(dir, q) && !Within(q, dir) && q != dir
    ensures !Within(dir + t, q) && !Within(q, dir + t)
  {
    if Within(dir + t, q) {
      BelowBelow(dir, t, q);
    }
    if Within(q, dir + t) {
      AboveBelow(dir, t, q);
    }
  }

  lemma BelowBelow(dir: Path, t: Path, q: Path)
    requires Within(dir + t, q)
    ensures Within(dir, q)
  {
    assert q[..|dir|] == q[..|dir + t|][..|dir|];
  }

  lemma AboveBelow(dir: Path, t: Path, q: Path)
    requires Within(q, dir + t)
    ensures Within(q, dir) || q == dir || Within(dir, q)
  {
    assert q == (dir + t)[..|q|];
    if |q| <= |dir| {
      assert q == dir[..|q|];
    } else {
      assert q[..|dir|] == dir;
    }
  }

  lemma HoldsOneMore(files: Files, dir: Path, o: map<Path, string>, before: Files, w: TextWrite)
    requires HoldsJust(files, dir, o, before) && w.target != []
    ensures HoldsJust(files, dir, o[w.target := w.text], before[dir + w.target := TextFile(w.text)])
  {
    BelowIsDirPlus(dir, dir + w.target);
    forall k | k != w.target ensures dir + k != dir + w.target {
      assert (dir + k)[|dir|..] == k && (dir + w.target)[|dir|..] == w.target;
    }
  }

  // ----- the round trip -----

  predicate IsText(files: Files, p: Path) {
    p in files && files[p].TextFile?
  }

  function TextOf(files: Files, p: Path): string
    requires IsText(files, p)
  {
    UniversalNewlines(files[p].text)
  }

  predicate IsExtra(files: Files, dir: Path, excluded: set<Path>, rel: Path) {
    rel != [] && IsText(files, dir + rel) && dir + rel !in excluded
  }

  lemma {:induction false} CollectedMembers(files: Files, dir: Path, excluded: set<Path>, listing: seq<Path>, e: ExtraFile)
    requires forall p | p in listing :: Within(dir, p)
    ensures e in Collected(files, dir, excluded, listing) <==>
            exists p :: p in listing && p !in excluded && IsText(files, p)
                        && e == ExtraFile(AsPosix(Relative(dir, p)), TextOf(files, p))
  {
    if listing != [] {
      var n := |listing| - 1;
      CollectedMembers(files, dir, excluded, listing[..n], e);
      assert listing == listing[..n] + [listing[n]];
    }
  }

  /** The extra files are exactly the text files no contract was read from, each
      written back where it was. */
  lemma ExtraWritesAt(files: Files, dir: Path, excluded: set<Path>, listing: seq<Path>, w: TextWrite)
    requires IsTree(files) && Lists(listing, files, dir)
    ensures w in ExtraWrites(Collected(files, dir, excluded, listing)) <==>
            IsExtra(files, dir, excluded, w.target) && w.text == TextOf(files, dir + w.target)
  {
    var extras := Collected(files, dir, excluded, listing);
    if w in ExtraWrites(extras) {
      var i :| 0 <= i < |extras| && w == TextWrite(Parts(extras[i].name), extras[i].content);
      CollectedMembers(files, dir, excluded, listing, extras[i]);
      var p :| p in listing && p !in excluded && IsText(files, p)
               && extras[i] == ExtraFile(AsPosix(Relative(dir, p)), TextOf(files, p));
      PosixOfFile(files, dir, p);
      assert p == dir + Relative(dir, p);
    }
    if IsExtra(files, dir, excluded, w.target) && w.text == TextOf(files, dir + w.target) {
      var p := dir + w.target;
      BelowIsDirPlus(dir, p);
      assert Relative(dir, p) == w.target;
      var e := ExtraFile(AsPosix(w.target), w.text);
      CollectedMembers(files, dir, excluded, listing, e);
      PosixOfFile(files, dir, p);
      var i :| 0 <= i < |extras| && extras[i] == e;
      assert ExtraWrites(extras)[i] == w;
    }
  }

  lemma PosixOfFile(files: Files, dir: Path, p: Path)
    requires IsTree(files) && p in files && Within(dir, p)
    ensures Relative(dir, p) != [] && Parts(AsPosix(Relative(dir, p))) == Relative(dir, p)
  {
    assert IsName(p);
    assert forall c | c in Relative(dir, p) :: c in p;
    PosixRoundTrip(Relative(dir, p));
  }

  function ContractText(b: Bundle, k: Path): Option<string> {
    if k == AGENT_YAML then Some(b.agentYaml)
    else if k == POLICY_YAML then Some(b.policyYaml)
    else if k == TOOLS_YAML then Some(b.toolsYaml)
    else None
  }

  /** An extra file wins over the contract of its name. */
  lemma BundleOverlay(b: Bundle, k: Path)
    ensures (exists w :: w in ExtraWrites(b.extraFiles) && w.target == k) ==>
              k in Overlay(BundleWrites(b)) && TextWrite(k, Overlay(BundleWrites(b))[k]) in ExtraWrites(b.extraFiles)
    ensures !(exists w :: w in ExtraWrites(b.extraFiles) && w.target == k) ==>
              (if k in Overlay(BundleWrites(b)) then Some(Overlay(BundleWrites(b))[k]) else None) == ContractText(b, k)
  {
    var extras := ExtraWrites(b.extraFiles);
    var contracts := ContractWrites(b);
    OverlayAppend(contracts, extras);
    ContractOverlay(b, k);
    OverlayLast(extras, k);
  }

  lemma {:induction false} OverlayAppend(a: seq<TextWrite>, b: seq<TextWrite>)
    ensures Overlay(a + b) == Overlay(a) + Overlay(b)
  {
    if b == [] {
      assert a + b == a;
    } else {
      var n := |b| - 1;
      OverlayAppend(a, b[..n]);
      assert (a + b)[..|a + b| - 1] == a + b[..n];
      var front, t, x := Overlay(b[..n]), b[n].target, b[n].text;
      assert Overlay(a) + front[t := x] == (Overlay(a) + front)[t := x];
    }
  }

  lemma ContractOverlay(b: Bundle, k: Path)
    ensures (if k in Overlay(ContractWrites(b)) then Some(Overlay(ContractWrites(b))[k]) else None) == ContractText(b, k)
  {
    var ws := ContractWrites(b);
    assert ws[..2][..1] == [ws[0]] && [ws[0]][..0] == [];
    assert Overlay([ws[0]]) == map[AGENT_YAML := b.agentYaml];
    assert ws[..2][..1] == [ws[0]];
    assert Overlay(ws[..2]) == map[AGENT_YAML := b.agentYaml][POLICY_YAML := b.policyYaml];
    assert AGENT_YAML[0] != POLICY_YAML[0] && POLICY_YAML[0] != TOOLS_YAML[0] && AGENT_YAML[0] != TOOLS_YAML[0];
  }

  const MANIFEST := "agent.yaml"

  /** A package that keeps its contracts where the compiler writes them. */
  predicate Standard(load: string -> Option<Tree>, files: Files, dir: Path) {
    var raw := ReadMapping(load, files, dir + [MANIFEST]);
    && raw.Some?
    && PolicyFile(raw.value).Some? && Parts(PolicyFile(raw.value).value) == POLICY_YAML && !IsAbsolute(PolicyFile(raw.value).value)
    && !ToolsFileOf(raw.value).BadTools?
    && (ToolsFileOf(raw.value).ToolsFile? ==>
          Parts(ToolsFileOf(raw.value).value) == TOOLS_YAML && !IsAbsolute(ToolsFileOf(raw.value).value))
  }

  predicate ToolsEnabled(load: string -> Option<Tree>, files: Files, dir: Path)
    requires Standard(load, files, dir)
  {
    ToolsFileOf(ReadMapping(load, files, dir + [MANIFEST]).value).ToolsFile?
  }

  lemma StandardReference(dir: Path, value: string, name: Path)
    requires IsName(dir) && IsName(name) && Parts(value) == name && !IsAbsolute(value)
    ensures ResolvePackagePath(dir, value) == dir + name
  {
    ResolvePlain(dir + name);
  }

  /** What importing a standard package yields. */
  lemma StandardImport(load: string -> Option<Tree>, files: Files, dir: Path, listing: seq<Path>)
    requires IsName(dir) && Standard(load, files, dir) && Lists(listing, files, dir)
    requires ImportBundle(load, files, dir, MANIFEST, listing).Some?
    ensures var b := ImportBundle(load, files, dir, MANIFEST, listing).value;
            var tools := ToolsEnabled(load, files, dir);
            && IsText(files, dir + AGENT_YAML) && b.agentYaml == TextOf(files, dir + AGENT_YAML)
            && IsText(files, dir + POLICY_YAML) && b.policyYaml == TextOf(files, dir + POLICY_YAML)
            && (tools ==> ToolsText(load, files, Some(dir + TOOLS_YAML)).Some?)
            && (tools ==> IsText(files, dir + TOOLS_YAML) && b.toolsYaml == TextOf(files, dir + TOOLS_YAML))
            && (!tools ==> b.toolsYaml == "")
            && b.extraFiles == Collected(files, dir, Contracts(dir, tools), listing)
  {
    StandardReferences(load, files, dir);
  }

  lemma StandardReferences(load: string -> Option<Tree>, files: Files, dir: Path)
    requires IsName(dir) && Standard(load, files, dir)
    ensures var tools := ToolsEnabled(load, files, dir);
            var refs := References(dir + AGENT_YAML, dir + POLICY_YAML, if tools then Some(dir + TOOLS_YAML) else None);
            && ReferencesOf(dir, dir + [MANIFEST], ReadMapping(load, files, dir + [MANIFEST]).value) == Some(refs)
            && refs.All() == Contracts(dir, tools)
  {
    var raw := ReadMapping(load, files, dir + [MANIFEST]).value;
    StandardReference(dir, PolicyFile(raw).value, POLICY_YAML);
    if ToolsFileOf(raw).ToolsFile? {
      StandardReference(dir, ToolsFileOf(raw).value, TOOLS_YAML);
    }
  }

  function Contracts(dir: Path, tools: bool): set<Path> {
    {dir + AGENT_YAML, dir + POLICY_YAML} + (if tools then {dir + TOOLS_YAML} else {})
  }

  /** Every text file again, with its line ends normalised, and nothing else but
      an empty tools.yaml if there was none. */
  ghost predicate Reproduces(files: Files, dir: Path, after: Files, out: Path) {
    && (forall rel | rel != [] && rel != TOOLS_YAML :: out + rel in after <==> IsText(files, dir + rel))
    && (forall rel | rel != [] && IsText(files, dir + rel) ::
          out + rel in after && after[out + rel] == TextFile(TextOf(files, dir + rel)))
    && out + TOOLS_YAML in after
    && (!IsText(files, dir + TOOLS_YAML) ==> after[out + TOOLS_YAML] == TextFile(""))
  }

  /** Each target of the imported bundle, and the text it ends up with. */
  lemma StandardOverlay(load: string -> Option<Tree>, files: Files, dir: Path, listing: seq<Path>, k: Path)
    requires IsTree(files) && IsName(dir) && Standard(load, files, dir) && Lists(listing, files, dir)
    requires ImportBundle(load, files, dir, MANIFEST, listing).Some? && k != []
    ensures var o := Overlay(BundleWrites(ImportBundle(load, files, dir, MANIFEST, listing).value));
            && (k in o <==> IsText(files, dir + k) || k == TOOLS_YAML)
            && (k in o ==> o[k] == if IsText(files, dir + k) then TextOf(files, dir + k) else "")
  {
    var b := ImportBundle(load, files, dir, MANIFEST, listing).value;
    var tools := ToolsEnabled(load, files, dir);
    var excluded := Contracts(dir, tools);
    StandardImport(load, files, dir, listing);
    BundleOverlay(b, k);
    ExcludedAre(dir, tools, k);
    if IsExtra(files, dir, excluded, k) {
      var w := TextWrite(k, TextOf(files, dir + k));
      ExtraWritesAt(files, dir, excluded, listing, w);
      assert w in ExtraWrites(b.extraFiles);
      ExtraWritesAt(files, dir, excluded, listing, TextWrite(k, Overlay(BundleWrites(b))[k]));
    } else {
      forall w | w in ExtraWrites(b.extraFiles) ensures w.target != k {
        ExtraWritesAt(files, dir, excluded, listing, w);
      }
    }
  }

  lemma ExcludedAre(dir: Path, tools: bool, k: Path)
    ensures dir + k in Contracts(dir, tools) <==> k == AGENT_YAML || k == POLICY_YAML || (tools && k == TOOLS_YAML)
  {
    assert (dir + k)[|dir|..] == k;
    assert (dir + AGENT_YAML)[|dir|..] == AGENT_YAML && (dir + POLICY_YAML)[|dir|..] == POLICY_YAML;
    assert (dir + TOOLS_YAML)[|dir|..] == TOOLS_YAML;
  }

  lemma BundleTargets(load: string -> Option<Tree>, files: Files, dir: Path, listing: seq<Path>, w: TextWrite)
    requires IsTree(files) && IsName(dir) && Standard(load, files, dir) && Lists(listing, files, dir)
    requires ImportBundle(load, files, dir, MANIFEST, listing).Some?
    requires w in BundleWrites(ImportBundle(load, files, dir, MANIFEST, listing).value)
    ensures w.target != [] && (IsText(files, dir + w.target) || w.target == TOOLS_YAML)
  {
    var b := ImportBundle(load, files, dir, MANIFEST, listing).value;
    StandardImport(load, files, dir, listing);
    if w in ExtraWrites(b.extraFiles) {
      ExtraWritesAt(files, dir, Contracts(dir, ToolsEnabled(load, files, dir)), listing, w);
    }
  }

  /** Importing a standard package and compiling the bundle into a free directory
      works exactly when no text file lies below a directory called tools.yaml,
      and then it reproduces the package. */
  lemma ImportThenCompile(load: string -> Option<Tree>, files: Files, dir: Path, listing: seq<Path>, out: Path)
    requires IsTree(files) && IsName(dir) && Standard(load, files, dir) && Lists(listing, files, dir)
    requires ImportBundle(load, files, dir, MANIFEST, listing).Some? && Free(files, out)
    ensures var after := Written(files, out, BundleWrites(ImportBundle(load, files, dir, MANIFEST, listing).value));
            && (after.Some? <==> forall rel | IsText(files, dir + rel) :: !Within(TOOLS_YAML, rel))
            && (after.Some? ==> Reproduces(files, dir, after.value, out))
  {
    var b := ImportBundle(load, files, dir, MANIFEST, listing).value;
    var ws := BundleWrites(b);
    forall w | w in ws ensures w.target != [] && (IsText(files, dir + w.target) || w.target == TOOLS_YAML) {
      BundleTargets(load, files, dir, listing, w);
    }
    WrittenInFreeDirectory(files, out, ws);
    forall k | k != []
      ensures k in Overlay(ws) <==> IsText(files, dir + k) || k == TOOLS_YAML
      ensures k in Overlay(ws) ==> Overlay(ws)[k] == if IsText(files, dir + k) then TextOf(files, dir + k) else ""
    {
      StandardOverlay(load, files, dir, listing, k);
    }
    TargetsUnobstructed(files, dir, ws);
  }

  lemma TargetsUnobstructed(files: Files, dir: Path, ws: seq<TextWrite>)
    requires IsTree(files)
    requires forall w | w in ws :: w.target != [] && (IsText(files, dir + w.target) || w.target == TOOLS_YAML)
    requires forall k | k != [] :: k in Overlay(ws) <==> IsText(files, dir + k) || k == TOOLS_YAML
    ensures Unobstructed(ws) <==> forall rel | IsText(files, dir + rel) :: !Within(TOOLS_YAML, rel)
  {
    if Unobstructed(ws) {
      forall rel | IsText(files, dir + rel) ensures !Within(TOOLS_YAML, rel) {
        if |rel| > 1 {
          OverlayLast(ws, rel);
          OverlayLast(ws, TOOLS_YAML);
        }
      }
    }
    if forall rel | IsText(files, dir + rel) :: !Within(TOOLS_YAML, rel) {
      forall i, j | 0 <= i < |ws| && 0 <= j < |ws| ensures !Within(ws[i].target, ws[j].target) {
        assert ws[i] in ws && ws[j] in ws;
        WithinBoth(dir, ws[i].target, ws[j].target);
      }
    }
  }

  /** A text file comes back character for character exactly when it has no
      carriage return. */
  lemma KeptExactlyIff(files: Files, dir: Path, after: Files, out: Path, rel: Path)
    requires Reproduces(files, dir, after, out) && rel != [] && IsText(files, dir + rel)
    ensures after[out + rel] == files[dir + rel] <==> '\r' !in files[dir + rel].text
  {
    NewlinesKeptIff(files[dir + rel].text);
  }

  // ----- and again -----

  lemma ReproducedText(files: Files, dir: Path, after: Files, out: Path, rel: Path)
    requires Reproduces(files, dir, after, out) && rel != []
    ensures IsText(after, out + rel) <==> out + rel in after
    ensures out + rel in after <==> IsText(files, dir + rel) || rel == TOOLS_YAML
    ensures out + rel in after ==>
              && after[out + rel] == TextFile(TextOf(after, out + rel))
              && TextOf(after, out + rel) == if IsText(files, dir + rel) then TextOf(files, dir + rel) else ""
  {
    if IsText(files, dir + rel) {
      NewlinesKeptIff(files[dir + rel].text);
      NewlinesKeptIff(TextOf(files, dir + rel));
    }
  }

  /** Nothing in the file system lies below a file after the writes either. */
  lemma WrittenKeepsTree(files: Files, dir: Path, after: Files, out: Path)
    requires IsTree(files) && Free(files, out) && IsName(out)
    requires Reproduces(files, dir, after, out)
    requires forall p | !Within(out, p) :: (p in after <==> p in files) && (p in files ==> after[p] == files[p])
    requires forall rel | IsText(files, dir + rel) :: !Within(TOOLS_YAML, rel)
    ensures IsTree(after)
  {
    forall p | p in after ensures IsName(p) && (Within(out, p) || p in files) {
      if Within(out, p) {
        BelowIsDirPlus(out, p);
        var rel :| rel != [] && p == out + rel;
        ReproducedText(files, dir, after, out, rel);
        NamesJoin(dir, rel);
        NamesJoin(out, rel);
        assert IsName(TOOLS_YAML);
      }
    }
    forall p, q | p in after && q in after ensures !Within(p, q) {
      TwoFilesApart(files, dir, after, out, p, q);
    }
  }

  lemma NamesJoin(a: Path, b: Path)
    ensures IsName(a + b) <==> IsName(a) && IsName(b)
  {
    assert forall c :: c in a + b <==> c in a || c in b;
  }

  lemma TwoFilesApart(files: Files, dir: Path, after: Files, out: Path, p: Path, q: Path)
    requires IsTree(files) && Free(files, out)
    requires Reproduces(files, dir, after, out)
    requires forall rel | IsText(files, dir + rel) :: !Within(TOOLS_YAML, rel)
    requires p in after && (Within(out, p) || p in files)
    requires q in after && (Within(out, q) || q in files)
    ensures !Within(p, q)
  {
    BelowIsDirPlus(out, p);
    BelowIsDirPlus(out, q);
    if Within(out, p) && Within(out, q) {
      var a :| a != [] && p == out + a;
      var b :| b != [] && q == out + b;
      ReproducedText(files, dir, after, out, a);
      ReproducedText(files, dir, after, out, b);
      WithinBoth(out, a, b);
      WithinBoth(dir, a, b);
    } else if Within(out, p) {
      var a :| a != [] && p == out + a;
      OutsideIsApart(out, a, q);
    } else if Within(out, q) {
      var b :| b != [] && q == out + b;
      OutsideIsApart(out, b, p);
    }
  }

  /** A reproduced package is standard again and imports. */
  lemma ReproducedIsStandard(
    load: string -> Option<Tree>, files: Files, dir: Path, listing: seq<Path>, after: Files, out: Path, listing2: seq<Path>)
    requires IsTree(files) && IsName(dir) && Standard(load, files, dir) && Lists(listing, files, dir)
    requires ImportBundle(load, files, dir, MANIFEST, listing).Some?
    requires Reproduces(files, dir, after, out) && IsName(out) && Lists(listing2, after, out)
    ensures Standard(load, after, out)
    ensures ImportBundle(load, after, out, MANIFEST, listing2).Some?
  {
    StandardImport(load, files, dir, listing);
    ReadsTheSame(files, dir, after, out, AGENT_YAML);
    ReadsTheSame(files, dir, after, out, POLICY_YAML);
    if ToolsEnabled(load, files, dir) {
      ToolsReadTheSame(load, files, dir, after, out);
    }
    ImportsStandard(load, after, out, listing2);
  }

  lemma ReadsTheSame(files: Files, dir: Path, after: Files, out: Path, rel: Path)
    requires Reproduces(files, dir, after, out) && rel != [] && IsText(files, dir + rel)
    ensures ReadText(after, out + rel) == ReadText(files, dir + rel) && IsText(after, out + rel)
  {
    ReproducedText(files, dir, after, out, rel);
  }

  lemma ToolsReadTheSame(load: string -> Option<Tree>, files: Files, dir: Path, after: Files, out: Path)
    requires IsText(files, dir + TOOLS_YAML) && ToolsText(load, files, Some(dir + TOOLS_YAML)).Some?
    requires Reproduces(files, dir, after, out)
    ensures ToolsText(load, after, Some(out + TOOLS_YAML)).Some?
  {
    ReadsTheSame(files, dir, after, out, TOOLS_YAML);
  }

  lemma ImportsStandard(load: string -> Option<Tree>, files: Files, dir: Path, listing: seq<Path>)
    requires IsName(dir) && Standard(load, files, dir) && Lists(listing, files, dir)
    requires IsText(files, dir + POLICY_YAML)
    requires ToolsEnabled(load, files, dir) ==> ToolsText(load, files, Some(dir + TOOLS_YAML)).Some?
    ensures ImportBundle(load, files, dir, MANIFEST, listing).Some?
  {
    StandardReferences(load, files, dir);
  }

  /** A second round trip always works and changes nothing at all. */
  lemma SecondRoundTrip(
    load: string -> Option<Tree>, files: Files, dir: Path, listing: seq<Path>, bundle: Bundle, out: Path, after: Files,
    listing2: seq<Path>, out2: Path)
    requires IsTree(files) && IsName(dir) && Standard(load, files, dir) && Lists(listing, files, dir)
    requires ImportBundle(load, files, dir, MANIFEST, listing) == Some(bundle)
    requires Free(files, out) && IsName(out) && Written(files, out, BundleWrites(bundle)) == Some(after)
    requires Lists(listing2, after, out) && Free(after, out2)
    ensures ImportBundle(load, after, out, MANIFEST, listing2).Some?
    ensures var again := Written(after, out2, BundleWrites(ImportBundle(load, after, out, MANIFEST, listing2).value));
            again.Some? && SameBelow(after, out, again.value, out2)
  {
    ImportThenCompile(load, files, dir, listing, out);
    forall w | w in BundleWrites(bundle) ensures w.target != [] {
      BundleTargets(load, files, dir, listing, w);
    }
    OutsideUntouched(files, out, BundleWrites(bundle));
    WrittenKeepsTree(files, dir, after, out);
    ReproducedIsStandard(load, files, dir, listing, after, out, listing2);
    CompileAgain(load, files, dir, after, out, listing2, out2);
  }

  ghost predicate SameBelow(files: Files, dir: Path, after: Files, out: Path) {
    forall rel | rel != [] ::
      (out + rel in after <==> dir + rel in files) && (dir + rel in files ==> after[out + rel] == files[dir + rel])
  }

  lemma CompileAgain(
    load: string -> Option<Tree>, files: Files, dir: Path, after: Files, out: Path, listing: seq<Path>, out2: Path)
    requires Reproduces(files, dir, after, out)
    requires IsTree(after) && IsName(out) && Standard(load, after, out) && Lists(listing, after, out)
    requires ImportBundle(load, after, out, MANIFEST, listing).Some? && Free(after, out2)
    ensures var again := Written(after, out2, BundleWrites(ImportBundle(load, after, out, MANIFEST, listing).value));
            again.Some? && SameBelow(after, out, again.value, out2)
  {
    ImportThenCompile(load, after, out, listing, out2);
    forall rel | IsText(after, out + rel) ensures !Within(TOOLS_YAML, rel) {
      WithinBoth(out, TOOLS_YAML, rel);
    }
    var again := Written(after, out2, BundleWrites(ImportBundle(load, after, out, MANIFEST, listing).value));
    ReproducedTwice(files, dir, after, out, again.value, out2);
  }

  lemma ReproducedTwice(files: Files, dir: Path, after: Files, out: Path, again: Files, out2: Path)
    requires Reproduces(files, dir, after, out) && Reproduces(after, out, again, out2)
    ensures SameBelow(after, out, again, out2)
  {
    forall rel | rel != []
      ensures out2 + rel in again <==> out + rel in after
      ensures out + rel in after ==> again[out2 + rel] == after[out + rel]
    {
      ReproducedText(files, dir, after, out, rel);
      ReproducedText(after, out, again, out2, rel);
    }
  }

  lemma {:induction false} OutsideUntouched(files: Files, dir: Path, ws: seq<TextWrite>)
    requires forall w | w in ws :: w.target != []
    ensures Written(files, dir, ws).Some? ==>
              var after := Written(files, dir, ws).value;
              forall p | !Within(dir, p) :: (p in after <==> p in files) && (p in files ==> after[p] == files[p])
  {
    if ws != [] {
      var n := |ws| - 1;
      assert ws[n] in ws && forall w | w in ws[..n] :: w in ws;
      OutsideUntouched(files, dir, ws[..n]);
      BelowIsDirPlus(dir, dir + ws[n].target);
    }
  }
}
