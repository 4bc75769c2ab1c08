/** Which agent packages can be imported (proof_agent/configuration/importer.py),
    and what each part of the bundle is, told by the paths of the manifest. */
module PackageAcceptance {
  import opened Text
  import opened StorePaths
  import opened ManifestTree
  import opened AgentPackage

  /** Every carriage return becomes a line feed, together with the line feed behind
      it if there is one. */
  lemma {:induction false} NewlineByNewline(front: string, rest: string)
    requires '\r' !in front
    ensures UniversalNewlines(front + ['\r'] + rest) ==
            front + ['\n'] + UniversalNewlines(if rest != "" && rest[0] == '\n' then rest[1..] else rest)
  {
    var s := front + ['\r'] + rest;
    if front == "" {
      assert s[1..] == rest && (rest != "" ==> s[2..] == rest[1..]);
    } else {
      assert s[0] == front[0] && front[0] in front;
      assert s[1..] == front[1..] + ['\r'] + rest;
      assert forall c | c in front[1..] :: c in front;
      NewlineByNewline(front[1..], rest);
      assert front == [front[0]] + front[1..];
    }
  }

  // ----- what the manifest says -----

  /** Where a value stands in the manifest. */
  function Under(key: string, inner: string): seq<PathStep> {
    [KeyStep(key), KeyStep(inner)]
  }

  lemma ValueUnder(t: Tree, key: string, rest: seq<PathStep>)
    ensures ValueAt(t, [KeyStep(key)] + rest) ==
            match Get(t, key) case None => None case Some(inner) => ValueAt(inner, rest)
  {
    assert ([KeyStep(key)] + rest)[1..] == rest;
  }

  lemma ValueAtOne(t: Tree, step: PathStep)
    ensures ValueAt(t, [step]) == StepInto(t, step)
  {
    assert [step][1..] == [];
  }

  lemma PolicyFileExactly(raw: Tree, text: string)
    ensures PolicyFile(raw) == Some(text) <==> ValueAt(raw, Under("policy", "file")) == Some(Scalar(text))
  {
    assert Under("policy", "file") == [KeyStep("policy")] + [KeyStep("file")];
    ValueUnder(raw, "policy", [KeyStep("file")]);
    if Get(raw, "policy").Some? {
      ValueAtOne(Get(raw, "policy").value, KeyStep("file"));
    }
  }

  function ToolsValue(raw: Tree, key: string): Option<Tree> {
    ValueAt(raw, [KeyStep("capabilities")] + Under("tools", key))
  }

  /** Tools are enabled, and a file is named for them. */
  predicate BindsTools(raw: Tree) {
    && ToolsValue(raw, "enabled").Some? && Truthy(ToolsValue(raw, "enabled").value)
    && ToolsValue(raw, "file").Some? && Truthy(ToolsValue(raw, "file").value)
  }

  lemma ToolsValueIs(raw: Tree, key: string)
    ensures ToolsValue(raw, key) ==
            match Get(raw, "capabilities")
            case None => None
            case Some(capabilities) =>
              match Get(capabilities, "tools")
              case None => None
              case Some(tools) => Get(tools, key)
  {
    ValueUnder(raw, "capabilities", Under("tools", key));
    if Get(raw, "capabilities").Some? {
      var capabilities := Get(raw, "capabilities").value;
      assert Under("tools", key) == [KeyStep("tools")] + [KeyStep(key)];
      ValueUnder(capabilities, "tools", [KeyStep(key)]);
      if Get(capabilities, "tools").Some? {
        ValueAtOne(Get(capabilities, "tools").value, KeyStep(key));
      }
    }
  }

  lemma ToolsFileExactly(raw: Tree)
    ensures ToolsFileOf(raw).NoTools? <==> !BindsTools(raw)
    ensures forall text :: ToolsFileOf(raw) == ToolsFile(text) <==> BindsTools(raw) && ToolsValue(raw, "file") == Some(Scalar(text))
  {
    ToolsValueIs(raw, "enabled");
    ToolsValueIs(raw, "file");
  }

  /** Some tool of the list has a handler. */
  ghost predicate NamesHandler(raw: Tree) {
    exists i: nat :: ValueAt(raw, [KeyStep("tools"), IndexStep(i), KeyStep("handler")]).Some?
  }

  lemma HandlerExactly(raw: Tree)
    ensures HasHandler(raw) <==> NamesHandler(raw)
  {
    forall i: nat
      ensures ValueAt(raw, [KeyStep("tools"), IndexStep(i), KeyStep("handler")]).Some? <==>
              && Get(raw, "tools").Some? && Get(raw, "tools").value.Sequence? && i < |Get(raw, "tools").value.items|
              && Get(Get(raw, "tools").value.items[i], "handler").Some?
    {
      HandlerAt(raw, i);
    }
  }

  lemma HandlerAt(raw: Tree, i: nat)
    ensures ValueAt(raw, [KeyStep("tools"), IndexStep(i), KeyStep("handler")]) ==
            match Get(raw, "tools")
            case None => None
            case Some(tools) =>
              match StepInto(tools, IndexStep(i))
              case None => None
              case Some(tool) => Get(tool, "handler")
  {
    var path := [KeyStep("tools"), IndexStep(i), KeyStep("handler")];
    assert path[1..] == [IndexStep(i), KeyStep("handler")] && path[1..][1..] == [KeyStep("handler")];
    if Get(raw, "tools").Some? {
      var tools := Get(raw, "tools").value;
      assert ValueAt(raw, path) == ValueAt(tools, path[1..]);
      if StepInto(tools, IndexStep(i)).Some? {
        ValueAtOne(StepInto(tools, IndexStep(i)).value, KeyStep("handler"));
      }
    }
  }

  // ----- the bundle -----

  predicate Holds(files: Files, p: Path, text: string) {
    p in files && files[p].TextFile? && text == UniversalNewlines(files[p].text)
  }

  predicate HoldsMapping(load: string -> Option<Tree>, files: Files, p: Path, text: string, raw: Tree) {
    Holds(files, p, text) && load(text) == Some(raw) && raw.Mapping?
  }

  predicate IsPicked(files: Files, excluded: set<Path>, p: Path) {
    p !in excluded && IsText(files, p)
  }

  /** The positions of the listed text files that are not excluded, in order. */
  ghost predicate Picks(files: Files, excluded: set<Path>, listing: seq<Path>, at: seq<nat>) {
    && (forall i, j | 0 <= i < j < |at| :: at[i] < at[j])
    && forall p: nat :: p in at <==> p < |listing| && IsPicked(files, excluded, listing[p])
  }

  /** The file at p, under its path below the directory. */
  ghost predicate IsExtraFor(files: Files, dir: Path, p: Path, e: ExtraFile) {
    Holds(files, p, e.content) && exists rel :: p == dir + rel && e.name == AsPosix(rel)
  }

  /** One extra file for each of them, in the order of the listing. */
  ghost predicate AreExtras(files: Files, dir: Path, excluded: set<Path>, listing: seq<Path>, extras: seq<ExtraFile>) {
    exists at: seq<nat> :: Picks(files, excluded, listing, at) && Carry(files, dir, listing, at, extras)
  }

  ghost predicate Carry(files: Files, dir: Path, listing: seq<Path>, at: seq<nat>, extras: seq<ExtraFile>) {
    |at| == |extras| && forall i | 0 <= i < |at| :: at[i] < |listing| && IsExtraFor(files, dir, listing[at[i]], extras[i])
  }

  lemma {:induction false} CollectedAreExtras(files: Files, dir: Path, excluded: set<Path>, listing: seq<Path>)
    returns (at: seq<nat>)
    requires forall p | p in listing :: Within(dir, p)
    ensures Picks(files, excluded, listing, at) && Carry(files, dir, listing, at, Collected(files, dir, excluded, listing))
  {
    if listing == [] {
      at := [];
    } else {
      var n := |listing| - 1;
      var before := CollectedAreExtras(files, dir, excluded, listing[..n]);
      at := before + if IsPicked(files, excluded, listing[n]) then [n] else [];
      PicksOneMore(files, excluded, listing, before, at);
      CarryOneMore(files, dir, excluded, listing, before, at);
    }
  }

  lemma PicksOneMore(files: Files, excluded: set<Path>, listing: seq<Path>, before: seq<nat>, at: seq<nat>)
    requires listing != [] && Picks(files, excluded, listing[..|listing| - 1], before)
    requires at == before + if IsPicked(files, excluded, listing[|listing| - 1]) then [|listing| - 1] else []
    ensures Picks(files, excluded, listing, at)
  {
    var front := listing[..|listing| - 1];
    assert forall p: nat | p < |front| :: front[p] == listing[p];
    assert forall i | 0 <= i < |before| :: before[i] in before;
  }

  lemma CarryOneMore(
    files: Files, dir: Path, excluded: set<Path>, listing: seq<Path>, before: seq<nat>, at: seq<nat>)
    requires listing != [] && forall p | p in listing :: Within(dir, p)
    requires var front := listing[..|listing| - 1];
             Carry(files, dir, front, before, Collected(files, dir, excluded, front))
    requires at == before + if IsPicked(files, excluded, listing[|listing| - 1]) then [|listing| - 1] else []
    ensures Carry(files, dir, listing, at, Collected(files, dir, excluded, listing))
  {
    var front, last := listing[..|listing| - 1], listing[|listing| - 1];
    assert forall p: nat | p < |front| :: front[p] == listing[p];
    assert last in listing;
    assert last == dir + Relative(dir, last);
  }

  /** The extra files of a listing are determined. */
  lemma ExtrasAreDetermined(
    files: Files, dir: Path, excluded: set<Path>, listing: seq<Path>, xs: seq<ExtraFile>, ys: seq<ExtraFile>)
    requires AreExtras(files, dir, excluded, listing, xs) && AreExtras(files, dir, excluded, listing, ys)
    ensures xs == ys
  {
    var a: seq<nat> :| Picks(files, excluded, listing, a) && Carry(files, dir, listing, a, xs);
    var b: seq<nat> :| Picks(files, excluded, listing, b) && Carry(files, dir, listing, b, ys);
    SamePositions(a, b, |listing|);
    forall i | 0 <= i < |xs| ensures xs[i] == ys[i] {
      SameExtra(files, dir, listing[a[i]], xs[i], ys[i]);
    }
  }

  lemma SameExtra(files: Files, dir: Path, p: Path, x: ExtraFile, y: ExtraFile)
    requires IsExtraFor(files, dir, p, x) && IsExtraFor(files, dir, p, y)
    ensures x == y
  {
    var rel :| p == dir + rel && x.name == AsPosix(rel);
    var rel' :| p == dir + rel' && y.name == AsPosix(rel');
    assert p[|dir|..] == rel == rel';
  }

  lemma FirstIsIn(b: seq<nat>)
    ensures b != [] ==> b[0] in b
  {
  }

  /** Two increasing lists of the same numbers are one. */
  lemma {:induction false} SamePositions(a: seq<nat>, b: seq<nat>, bound: nat)
    requires (forall i, j | 0 <= i < j < |a| :: a[i] < a[j]) && (forall i, j | 0 <= i < j < |b| :: b[i] < b[j])
    requires forall p: nat :: p in a <==> p in b
    requires forall p | p in a :: p < bound
    ensures a == b
    decreases bound
  {
    if a == [] {
      FirstIsIn(b);
    } else {
      assert a[0] in a && a[0] in b;
      assert a[|a| - 1] in a && a[|a| - 1] in b && b[|b| - 1] in a;
      var x := a[|a| - 1];
      assert x == b[|b| - 1] by {
        var i :| 0 <= i < |b| && b[i] == x;
        var j :| 0 <= j < |a| && a[j] == b[|b| - 1];
      }
      var front, other := a[..|a| - 1], b[..|b| - 1];
      forall p: nat ensures p in front <==> p in other {
        assert p in front <==> p in a && p != x;
        assert p in other <==> p in b && p != x;
      }
      SamePositions(front, other, x);
    }
  }

  /** The bundle that an import yields: the manifest, which has to be a mapping; the
      policy file it names; the tools file, if tools are enabled, as long as no
      tool names a handler; and the other text files of the directory. */
  ghost predicate Imports(
    load: string -> Option<Tree>, files: Files, dir: Path, manifestName: string, listing: seq<Path>, b: Bundle)
  {
    exists raw, policy ::
      && HoldsMapping(load, files, dir + [manifestName], b.agentYaml, raw)
      && ValueAt(raw, Under("policy", "file")) == Some(Scalar(policy))
      && Holds(files, Resolve(Child(dir, policy)), b.policyYaml)
      && if BindsTools(raw)
         then exists tools :: ImportsTools(load, files, dir, raw, tools, b)
                              && AreExtras(files, dir, ContractPaths(dir, manifestName, [policy, tools]), listing, b.extraFiles)
         else b.toolsYaml == ""
              && AreExtras(files, dir, ContractPaths(dir, manifestName, [policy]), listing, b.extraFiles)
  }

  /** The manifest and the files it names. */
  function ContractPaths(dir: Path, manifestName: string, named: seq<string>): set<Path> {
    {dir + [manifestName]} + set name | name in named :: Resolve(Child(dir, name))
  }

  ghost predicate ImportsTools(
    load: string -> Option<Tree>, files: Files, dir: Path, raw: Tree, tools: string, b: Bundle)
  {
    && ToolsValue(raw, "file") == Some(Scalar(tools))
    && exists toolsRaw ::
         HoldsMapping(load, files, Resolve(Child(dir, tools)), b.toolsYaml, toolsRaw) && !NamesHandler(toolsRaw)
  }

  lemma MappingExactly(load: string -> Option<Tree>, files: Files, p: Path)
    ensures forall text, raw :: HoldsMapping(load, files, p, text, raw) <==>
              ReadText(files, p) == Some(text) && ReadMapping(load, files, p) == Some(raw)
  {
  }

  lemma ToolsTextExactly(load: string -> Option<Tree>, files: Files, p: Path, text: string)
    ensures ToolsText(load, files, Some(p)) == Some(text) <==>
            exists raw :: HoldsMapping(load, files, p, text, raw) && !NamesHandler(raw)
  {
    MappingExactly(load, files, p);
    forall raw ensures HasHandler(raw) <==> NamesHandler(raw) {
      HandlerExactly(raw);
    }
    if ToolsText(load, files, Some(p)) == Some(text) {
      assert HoldsMapping(load, files, p, text, ReadMapping(load, files, p).value);
    }
  }

  /** An import succeeds with a bundle exactly when it is this one. */
  lemma ImportExactly(
    load: string -> Option<Tree>, files: Files, dir: Path, manifestName: string, listing: seq<Path>, b: Bundle)
    requires forall p | p in listing :: Within(dir, p)
    ensures ImportBundle(load, files, dir, manifestName, listing) == Some(b) <==>
            Imports(load, files, dir, manifestName, listing, b)
  {
    if ImportBundle(load, files, dir, manifestName, listing) == Some(b) {
      ImportedHasParts(load, files, dir, manifestName, listing, b);
    }
    if Imports(load, files, dir, manifestName, listing, b) {
      PartsAreImported(load, files, dir, manifestName, listing, b);
    }
  }

  /** What the manifest refers to, without a tools file and with one. */
  lemma ReferencesWithout(dir: Path, manifestName: string, raw: Tree, policy: string)
    requires ValueAt(raw, Under("policy", "file")) == Some(Scalar(policy)) && !BindsTools(raw)
    ensures var refs := References(dir + [manifestName], Resolve(Child(dir, policy)), None);
            ReferencesOf(dir, dir + [manifestName], raw) == Some(refs) && refs.All() == ContractPaths(dir, manifestName, [policy])
  {
    PolicyFileExactly(raw, policy);
    ToolsFileExactly(raw);
  }

  lemma ReferencesWith(dir: Path, manifestName: string, raw: Tree, policy: string, tools: string)
    requires ValueAt(raw, Under("policy", "file")) == Some(Scalar(policy))
    requires BindsTools(raw) && ToolsValue(raw, "file") == Some(Scalar(tools))
    ensures var refs := References(dir + [manifestName], Resolve(Child(dir, policy)), Some(Resolve(Child(dir, tools))));
            && ReferencesOf(dir, dir + [manifestName], raw) == Some(refs)
            && refs.All() == ContractPaths(dir, manifestName, [policy, tools])
  {
    PolicyFileExactly(raw, policy);
    ToolsFileExactly(raw);
  }

  lemma ReferencesNeed(dir: Path, manifest: Path, raw: Tree) returns (policy: string, tools: string)
    requires ReferencesOf(dir, manifest, raw).Some?
    ensures ValueAt(raw, Under("policy", "file")) == Some(Scalar(policy))
    ensures BindsTools(raw) ==> ToolsValue(raw, "file") == Some(Scalar(tools))
  {
    policy := PolicyFile(raw).value;
    PolicyFileExactly(raw, policy);
    ToolsFileExactly(raw);
    tools := if ToolsFileOf(raw).ToolsFile? then ToolsFileOf(raw).value else "";
  }

  /** An import from what the manifest refers to. */
  ghost predicate ImportsFrom(
    load: string -> Option<Tree>, files: Files, dir: Path, refs: References, listing: seq<Path>, b: Bundle)
  {
    && Holds(files, refs.policy, b.policyYaml)
    && (if refs.tools.None? then b.toolsYaml == ""
        else exists raw :: HoldsMapping(load, files, refs.tools.value, b.toolsYaml, raw) && !NamesHandler(raw))
    && AreExtras(files, dir, refs.All(), listing, b.extraFiles)
  }

  lemma ImportsFromExactly(
    load: string -> Option<Tree>, files: Files, dir: Path, manifestName: string, listing: seq<Path>, b: Bundle, raw: Tree)
    requires forall p | p in listing :: Within(dir, p)
    requires HoldsMapping(load, files, dir + [manifestName], b.agentYaml, raw)
    ensures ImportBundle(load, files, dir, manifestName, listing) == Some(b) <==>
            && ReferencesOf(dir, dir + [manifestName], raw).Some?
            && ImportsFrom(load, files, dir, ReferencesOf(dir, dir + [manifestName], raw).value, listing, b)
  {
    MappingExactly(load, files, dir + [manifestName]);
    if ReferencesOf(dir, dir + [manifestName], raw).Some? {
      var refs := ReferencesOf(dir, dir + [manifestName], raw).value;
      if refs.tools.Some? {
        ToolsTextExactly(load, files, refs.tools.value, b.toolsYaml);
      }
      ExtrasExactly(files, dir, refs.All(), listing, b.extraFiles);
    }
  }

  lemma ExtrasExactly(files: Files, dir: Path, excluded: set<Path>, listing: seq<Path>, extras: seq<ExtraFile>)
    requires forall p | p in listing :: Within(dir, p)
    ensures extras == Collected(files, dir, excluded, listing) <==> AreExtras(files, dir, excluded, listing, extras)
  {
    var at := CollectedAreExtras(files, dir, excluded, listing);
    assert AreExtras(files, dir, excluded, listing, Collected(files, dir, excluded, listing));
    if AreExtras(files, dir, excluded, listing, extras) {
      ExtrasAreDetermined(files, dir, excluded, listing, extras, Collected(files, dir, excluded, listing));
    }
  }

  lemma ImportedHasParts(
    load: string -> Option<Tree>, files: Files, dir: Path, manifestName: string, listing: seq<Path>, b: Bundle)
    requires forall p | p in listing :: Within(dir, p)
    requires ImportBundle(load, files, dir, manifestName, listing) == Some(b)
    ensures Imports(load, files, dir, manifestName, listing, b)
  {
    var raw := ReadMapping(load, files, dir + [manifestName]).value;
    assert HoldsMapping(load, files, dir + [manifestName], b.agentYaml, raw);
    ImportsFromExactly(load, files, dir, manifestName, listing, b, raw);
    var policy, tools := ReferencesNeed(dir, dir + [manifestName], raw);
    if BindsTools(raw) {
      ReferencesWith(dir, manifestName, raw, policy, tools);
      assert ImportsTools(load, files, dir, raw, tools, b);
    } else {
      ReferencesWithout(dir, manifestName, raw, policy);
    }
  }

  lemma PartsAreImported(
    load: string -> Option<Tree>, files: Files, dir: Path, manifestName: string, listing: seq<Path>, b: Bundle)
    requires forall p | p in listing :: Within(dir, p)
    requires Imports(load, files, dir, manifestName, listing, b)
    ensures ImportBundle(load, files, dir, manifestName, listing) == Some(b)
  {
    MappingExactly(load, files, dir + [manifestName]);
    var raw := ReadMapping(load, files, dir + [manifestName]).value;
    var policy := ValueAt(raw, Under("policy", "file")).value.text;
    ImportsFromExactly(load, files, dir, manifestName, listing, b, raw);
    if BindsTools(raw) {
      ReferencesWith(dir, manifestName, raw, policy, ToolsValue(raw, "file").value.text);
    } else {
      ReferencesWithout(dir, manifestName, raw, policy);
    }
  }
}
