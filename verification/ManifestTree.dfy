/** Parsed YAML as a finite tree, and the search for shared model connections
    in it (proof_agent/configuration/local_store.py). Parsing itself is a
    parameter: a function from text to a tree. */
module ManifestTree {
  import opened Text

  datatype Tree =
    | Null
    | Flag(value: bool)
    | Number(n: int)
    | Scalar(text: string)
    | Sequence(items: seq<Tree>)
    | Mapping(entries: seq<Entry>)

  datatype Entry = Entry(key: string, value: Tree)

  /** mapping.get(key) */
  function Lookup(entries: seq<Entry>, key: string): Option<Tree> {
    if entries == [] then None
    else if entries[0].key == key then Some(entries[0].value)
    else Lookup(entries[1..], key)
  }

  function Get(t: Tree, key: string): Option<Tree> {
    if t.Mapping? then Lookup(t.entries, key) else None
  }

  /** Python truthiness of a parsed value. */
  predicate Truthy(t: Tree) {
    match t
    case Null => false
    case Flag(value) => value
    case Number(n) => n != 0
    case Scalar(text) => text != ""
    case Sequence(items) => items != []
    case Mapping(entries) => entries != []
  }

  function Values(entries: seq<Entry>): (values: seq<Tree>)
    ensures |values| == |entries|
    ensures forall i | 0 <= i < |entries| :: values[i] == entries[i].value
  {
    seq(|entries|, i requires 0 <= i < |entries| => entries[i].value)
  }

  // ----- positions -----

  datatype PathStep = KeyStep(key: string) | IndexStep(index: nat)

  function StepInto(v: Tree, s: PathStep): Option<Tree> {
    match s
    case KeyStep(key) => Get(v, key)
    case IndexStep(i) => if v.Sequence? && i < |v.items| then Some(v.items[i]) else None
  }

  /** The value at a path of keys and positions. */
  function ValueAt(v: Tree, path: seq<PathStep>): Option<Tree>
    decreases |path|
  {
    if path == [] then Some(v)
    else
      match StepInto(v, path[0])
      case None => None
      case Some(inner) => ValueAt(inner, path[1..])
  }

  // ----- the loader -----

  /** How much text a tree needs at least; a text counts its characters. */
  function Weight(t: Tree): nat {
    match t
    case Scalar(text) => 1 + |text|
    case Sequence(items) => 1 + WeightOfItems(items)
    case Mapping(entries) => WeightOfEntries(entries)
    case _ => 0
  }

  function WeightOfItems(items: seq<Tree>): nat {
    if items == [] then 0 else Weight(items[0]) + WeightOfItems(items[1..])
  }

  function WeightOfEntries(entries: seq<Entry>): nat {
    if entries == [] then 0 else 1 + Weight(entries[0].value) + WeightOfEntries(entries[1..])
  }

  lemma {:induction false} WeightOfValues(entries: seq<Entry>)
    ensures WeightOfItems(Values(entries)) + |entries| == WeightOfEntries(entries)
  {
    if entries != [] {
      assert Values(entries)[1..] == Values(entries[1..]);
      WeightOfValues(entries[1..]);
    }
  }

  /** yaml.safe_load(text) or {}; None is a parse error. */
  function LoadOrEmpty(load: string -> Option<Tree>, text: string): Option<Tree> {
    match load(text)
    case None => None
    case Some(t) => Some(if Truthy(t) then t else Mapping([]))
  }

  /** A parsed tree is smaller than its text, or is the text itself. */
  ghost predicate Shrinks(load: string -> Option<Tree>) {
    forall text ::
      LoadOrEmpty(load, text).Some? && LoadOrEmpty(load, text).value != Scalar(text) ==>
        Weight(LoadOrEmpty(load, text).value) < Weight(Scalar(text))
  }

  const NoDocuments: string -> Option<Tree> := (text: string) => None

  type Loader = load: string -> Option<Tree> | Shrinks(load) ghost witness NoDocuments

  // ----- _shared_model_connection_ids -----

  /** A mapping that selects a shared model connection, and the id it names. */
  function DeclaredId(t: Tree): Option<string> {
    if && Get(t, "model_source") == Some(Scalar("shared"))
       && Get(t, "connection_id").Some? && Get(t, "connection_id").value.Scalar?
    then Some(Get(t, "connection_id").value.text)
    else None
  }

  /** Below a node: its items, its values, or the document a text contains. */
  function Below(load: Loader, t: Tree): seq<Tree> {
    match t
    case Scalar(text) =>
      var loaded := LoadOrEmpty(load, text);
      if loaded.None? || loaded.value == t then [] else [loaded.value]
    case Sequence(items) => items
    case Mapping(entries) => Values(entries)
    case _ => []
  }

  lemma BelowIsLighter(load: Loader, t: Tree)
    ensures Below(load, t) != [] ==> WeightOfItems(Below(load, t)) < Weight(t)
  {
    match t
    case Mapping(entries) => WeightOfValues(entries);
    case Scalar(text) =>
      var loaded := LoadOrEmpty(load, text);
      if loaded.Some? && loaded.value != t {
        assert WeightOfItems([loaded.value]) == Weight(loaded.value) + WeightOfItems([]);
      }
    case _ =>
  }

  function SharedConnectionIds(load: Loader, t: Tree): seq<string>
    decreases Weight(t), 0, 0
  {
    BelowIsLighter(load, t);
    var own := if DeclaredId(t).Some? then [DeclaredId(t).value] else [];
    own + (if Below(load, t) == [] then [] else SharedConnectionIdsOfAll(load, Below(load, t)))
  }

  function SharedConnectionIdsOfAll(load: Loader, items: seq<Tree>): seq<string>
    decreases WeightOfItems(items), 1, |items|
  {
    if items == [] then []
    else SharedConnectionIds(load, items[0]) + SharedConnectionIdsOfAll(load, items[1..])
  }

  // ----- where an id is declared -----

  /** One step down: into an entry of a mapping, an item of a list, or the document
      a text contains. */
  datatype Hop = EntryHop(i: nat) | ItemHop(i: nat) | DocumentHop

  function Into(load: Loader, t: Tree, hop: Hop): Option<Tree> {
    match hop
    case EntryHop(i) => if t.Mapping? && i < |t.entries| then Some(t.entries[i].value) else None
    case ItemHop(i) => if t.Sequence? && i < |t.items| then Some(t.items[i]) else None
    case DocumentHop =>
      if t.Scalar? && load(t.text).Some? && Truthy(load(t.text).value) && load(t.text).value != t
      then load(t.text) else None
  }

  ghost predicate Leads(load: Loader, t: Tree, hops: seq<Hop>, end: Tree)
    decreases |hops|
  {
    if hops == [] then t == end
    else Into(load, t, hops[0]).Some? && Leads(load, Into(load, t, hops[0]).value, hops[1..], end)
  }

  /** A mapping that selects the shared connection. */
  predicate Selects(t: Tree, id: string) {
    && t.Mapping?
    && Get(t, "model_source") == Some(Scalar("shared"))
    && Get(t, "connection_id") == Some(Scalar(id))
  }

  /** Some chain of hops leads from the tree to a mapping that selects the id. */
  ghost predicate Declares(load: Loader, t: Tree, id: string) {
    exists hops, end :: Leads(load, t, hops, end) && Selects(end, id)
  }

  lemma LeadsInto(load: Loader, t: Tree, hop: Hop, hops: seq<Hop>, end: Tree)
    ensures Leads(load, t, [hop] + hops, end) <==>
            Into(load, t, hop).Some? && Leads(load, Into(load, t, hop).value, hops, end)
  {
    assert ([hop] + hops)[1..] == hops;
  }

  lemma DeclaredHere(load: Loader, t: Tree, id: string)
    requires Selects(t, id)
    ensures Declares(load, t, id)
  {
    assert Leads(load, t, [], t);
  }

  lemma DeclaredBelow(load: Loader, t: Tree, i: nat, id: string)
    requires i < |Below(load, t)| && Declares(load, Below(load, t)[i], id)
    ensures Declares(load, t, id)
  {
    var hops, end :| Leads(load, Below(load, t)[i], hops, end) && Selects(end, id);
    var hop := if t.Mapping? then EntryHop(i) else if t.Sequence? then ItemHop(i) else DocumentHop;
    if t.Scalar? && !Truthy(load(t.text).value) {
      NothingInEmpty(load, hops, end);
    }
    LeadsInto(load, t, hop, hops, end);
    assert Leads(load, t, [hop] + hops, end);
  }

  lemma NothingInEmpty(load: Loader, hops: seq<Hop>, end: Tree)
    requires Leads(load, Mapping([]), hops, end)
    ensures end == Mapping([])
  {
  }

  lemma DeclaredAbove(load: Loader, t: Tree, id: string)
    requires Declares(load, t, id) && !Selects(t, id)
    ensures exists i: nat :: i < |Below(load, t)| && Declares(load, Below(load, t)[i], id)
  {
    var hops: seq<Hop>, end :| Leads(load, t, hops, end) && Selects(end, id);
    assert hops == [hops[0]] + hops[1..];
    LeadsInto(load, t, hops[0], hops[1..], end);
    var i: nat := if hops[0].DocumentHop? then 0 else hops[0].i;
    assert Leads(load, Below(load, t)[i], hops[1..], end);
  }

  /** The collector finds exactly the ids declared somewhere: at any depth of
      mappings and lists, and inside texts that are themselves documents. */
  lemma {:induction false} SharedConnectionIdsAreTheDeclaredIds(load: Loader, t: Tree, id: string)
    ensures id in SharedConnectionIds(load, t) <==> Declares(load, t, id)
    decreases Weight(t), 0, 0
  {
    BelowIsLighter(load, t);
    var below := Below(load, t);
    if below != [] {
      IdsOfAllAreTheDeclaredIds(load, below, id);
    }
    if id in SharedConnectionIds(load, t) {
      if DeclaredId(t) == Some(id) {
        DeclaredHere(load, t, id);
      } else {
        var i: nat :| i < |below| && Declares(load, below[i], id);
        DeclaredBelow(load, t, i, id);
      }
    }
    if Declares(load, t, id) && !Selects(t, id) {
      DeclaredAbove(load, t, id);
    }
  }

  lemma {:induction false} IdsOfAllAreTheDeclaredIds(load: Loader, items: seq<Tree>, id: string)
    ensures id in SharedConnectionIdsOfAll(load, items) <==> exists i: nat :: i < |items| && Declares(load, items[i], id)
    decreases WeightOfItems(items), 1, |items|
  {
    if items != [] {
      SharedConnectionIdsAreTheDeclaredIds(load, items[0], id);
      IdsOfAllAreTheDeclaredIds(load, items[1..], id);
      if i: nat :| i < |items[1..]| && Declares(load, items[1..][i], id) {
        assert Declares(load, items[i + 1], id);
      }
      if i: nat :| i < |items| && Declares(load, items[i], id) {
        if i > 0 {
          assert Declares(load, items[1..][i - 1], id);
        }
      }
    }
  }

  /** The ids an agent manifest refers to. */
  function ManifestConnectionIds(load: Loader, agentYaml: string): seq<string> {
    SharedConnectionIds(load, Scalar(agentYaml))
  }

  /** An id is among those of a manifest that parses to a tree exactly when a chain
      of entries, items and embedded documents leads from the tree to a mapping
      that selects it; a manifest that does not parse, or is empty, has none. */
  lemma ManifestIdsExactly(load: Loader, agentYaml: string, id: string)
    ensures load(agentYaml).Some? && Truthy(load(agentYaml).value) ==>
              (id in ManifestConnectionIds(load, agentYaml) <==> Declares(load, load(agentYaml).value, id))
    ensures load(agentYaml).None? || !Truthy(load(agentYaml).value) ==> id !in ManifestConnectionIds(load, agentYaml)
  {
    var whole := Scalar(agentYaml);
    SharedConnectionIdsAreTheDeclaredIds(load, whole, id);
    if Declares(load, whole, id) {
      DeclaredInDocument(load, agentYaml, id);
    }
    if load(agentYaml).Some? && Truthy(load(agentYaml).value) && Declares(load, load(agentYaml).value, id) {
      if load(agentYaml).value != whole {
        DeclaredBelow(load, whole, 0, id);
      }
    }
  }

  lemma DeclaredInDocument(load: Loader, text: string, id: string)
    requires Declares(load, Scalar(text), id)
    ensures load(text).Some? && Truthy(load(text).value) && Declares(load, load(text).value, id)
  {
    var hops: seq<Hop>, end :| Leads(load, Scalar(text), hops, end) && Selects(end, id);
    assert hops == [hops[0]] + hops[1..];
    LeadsInto(load, Scalar(text), hops[0], hops[1..], end);
    assert Leads(load, load(text).value, hops[1..], end);
  }

  // ----- _mcp_tool_contracts -----

  /** The tool contracts of a tools.yaml that come from an MCP server. */
  function McpToolContracts(load: Loader, toolsYaml: string): Option<seq<Tree>> {
    match LoadOrEmpty(load, toolsYaml)
    case None => None
    case Some(raw) =>
      match Get(raw, "tools")
      case Some(Sequence(tools)) => Some(McpOnly(tools))
      case _ => Some([])
  }

  function McpOnly(tools: seq<Tree>): (mcp: seq<Tree>)
    ensures forall t :: t in mcp <==> t in tools && Get(t, "source") == Some(Scalar("mcp"))
  {
    if tools == [] then []
    else
      var rest := McpOnly(tools[1..]);
      if Get(tools[0], "source") == Some(Scalar("mcp")) then [tools[0]] + rest else rest
  }

  /** A text field of a contract, "" when missing or not text. */
  function TextField(t: Tree, key: string): string {
    match Get(t, key)
    case Some(Scalar(text)) => text
    case _ => ""
  }

  /** _mcp_contract_snapshot_digest */
  function SnapshotDigest(contract: Tree): string {
    match Get(contract, "mcp_contract_snapshot")
    case Some(snapshot) => Strip(TextField(snapshot, "digest"))
    case None => ""
  }

  /** The digest is empty exactly when the contract has no snapshot or one with a
      missing or blank digest. */
  lemma EmptyDigestExactly(contract: Tree)
    ensures SnapshotDigest(contract) == "" <==>
            || Get(contract, "mcp_contract_snapshot").None?
            || IsBlank(TextField(Get(contract, "mcp_contract_snapshot").value, "digest"))
  {
    var snapshot := Get(contract, "mcp_contract_snapshot");
    if snapshot.Some? {
      StripEmpty(TextField(snapshot.value, "digest"));
    }
  }
}
