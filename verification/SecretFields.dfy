/** The search for secret-bearing parameters in proof_agent/bootstrap/validation.py. */
module SecretFields {
  import opened Text
  import opened ManifestTree

  const FORBIDDEN_PARTS := [
    "api_key", "authorization", "bearer", "password", "secret", "access_token", "provider_api_key"
  ]

  /** _is_forbidden_knowledge_param, for any case folding. */
  predicate IsForbidden(lower: string -> string, key: string) {
    !EndsWith(lower(key), "_env") && exists i | 0 <= i < |FORBIDDEN_PARTS| :: Contains(lower(key), FORBIDDEN_PARTS[i])
  }

  ghost predicate HasPart(s: string, part: string) {
    exists front, rest :: s == front + part + rest
  }

  /** A key is forbidden exactly when, lowered, it has one of these words in it and
      is not the name of an environment variable. */
  lemma ForbiddenExactly(lower: string -> string, key: string)
    ensures IsForbidden(lower, key) <==>
            && !(exists front :: lower(key) == front + "_env")
            && exists part ::
                 && part in {"api_key", "authorization", "bearer", "password", "secret", "access_token", "provider_api_key"}
                 && HasPart(lower(key), part)
  {
    var low := lower(key);
    EndsExactly(low, "_env");
    forall part ensures Contains(low, part) <==> HasPart(low, part) {
      ContainsExactly(low, part);
    }
    if part :|
      && part in {"api_key", "authorization", "bearer", "password", "secret", "access_token", "provider_api_key"}
      && HasPart(low, part)
    {
      PartIsListed(part);
      var i :| 0 <= i < |FORBIDDEN_PARTS| && FORBIDDEN_PARTS[i] == part;
      assert Contains(low, FORBIDDEN_PARTS[i]);
    }
    if i :| 0 <= i < |FORBIDDEN_PARTS| && Contains(low, FORBIDDEN_PARTS[i]) {
      PartIsListed(FORBIDDEN_PARTS[i]);
      assert HasPart(low, FORBIDDEN_PARTS[i]);
    }
  }

  lemma PartIsListed(part: string)
    ensures part in {"api_key", "authorization", "bearer", "password", "secret", "access_token", "provider_api_key"} <==>
            exists i :: 0 <= i < |FORBIDDEN_PARTS| && FORBIDDEN_PARTS[i] == part
  {
    var fs := FORBIDDEN_PARTS;
    assert fs[0] == "api_key" && fs[1] == "authorization" && fs[2] == "bearer" && fs[3] == "password";
    assert fs[4] == "secret" && fs[5] == "access_token" && fs[6] == "provider_api_key";
  }

  lemma EndsExactly(s: string, suffix: string)
    ensures EndsWith(s, suffix) <==> exists front :: s == front + suffix
  {
    if EndsWith(s, suffix) {
      assert s == s[..|s| - |suffix|] + suffix;
    }
    if front :| s == front + suffix {
      TakeDrop(front, suffix);
    }
  }

  lemma ContainsExactly(s: string, part: string)
    ensures Contains(s, part) <==> HasPart(s, part)
  {
    if i :| 0 <= i <= |s| - |part| && OccursAt(s, part, i) {
      assert s == s[..i] + part + s[i + |part|..];
    }
    if front: string, rest: string :| s == front + part + rest {
      assert OccursAt(s, part, |front|);
    }
  }

  function KeyPath(prefix: string, key: string): string {
    prefix + "." + key
  }

  function IndexPath(prefix: string, i: nat): string {
    prefix + "[" + Decimal(i) + "]"
  }

  /** A path as the error message writes it. */
  function Rendered(prefix: string, path: seq<PathStep>): string
    decreases |path|
  {
    if path == [] then prefix
    else if path[0].KeyStep? then Rendered(KeyPath(prefix, path[0].key), path[1..])
    else Rendered(IndexPath(prefix, path[0].index), path[1..])
  }

  function SecretPaths(forbidden: string -> bool, v: Tree, prefix: string): seq<string> {
    match v
    case Mapping(entries) => SecretPathsOfEntries(forbidden, entries, prefix)
    case Sequence(items) => SecretPathsOfItems(forbidden, items, prefix)
    case _ => []
  }

  function SecretPathsOfEntries(forbidden: string -> bool, entries: seq<Entry>, prefix: string): seq<string> {
    if entries == [] then []
    else
      var n := |entries| - 1;
      SecretPathsOfEntries(forbidden, entries[..n], prefix) + SecretPathsOfEntry(forbidden, entries[n], prefix)
  }

  /** The key itself, then what is below it. */
  function SecretPathsOfEntry(forbidden: string -> bool, e: Entry, prefix: string): seq<string> {
    var path := KeyPath(prefix, e.key);
    (if forbidden(e.key) then [path] else []) + SecretPaths(forbidden, e.value, path)
  }

  function SecretPathsOfItems(forbidden: string -> bool, items: seq<Tree>, prefix: string): seq<string> {
    if items == [] then []
    else
      var n := |items| - 1;
      SecretPathsOfItems(forbidden, items[..n], prefix) + SecretPaths(forbidden, items[n], IndexPath(prefix, n))
  }

  /** _secret_bearing_field_paths */
  method SecretBearingFieldPaths(forbidden: string -> bool, value: Tree, prefix: string) returns (paths: seq<string>)
    ensures paths == SecretPaths(forbidden, value, prefix)
    decreases value
  {
    paths := [];
    if value.Mapping? {
      var i := 0;
      while i < |value.entries|
        invariant 0 <= i <= |value.entries|
        invariant paths == SecretPathsOfEntries(forbidden, value.entries[..i], prefix)
      {
        var entry := value.entries[i];
        var path := KeyPath(prefix, entry.key);
        assert value.entries[..i + 1][..i] == value.entries[..i];
        if forbidden(entry.key) {
          paths := paths + [path];
        }
        var below := SecretBearingFieldPaths(forbidden, entry.value, path);
        paths := paths + below;
        i := i + 1;
      }
      assert value.entries[..i] == value.entries;
    } else if value.Sequence? {
      var i := 0;
      while i < |value.items|
        invariant 0 <= i <= |value.items|
        invariant paths == SecretPathsOfItems(forbidden, value.items[..i], prefix)
      {
        assert value.items[..i + 1][..i] == value.items[..i];
        var below := SecretBearingFieldPaths(forbidden, value.items[i], IndexPath(prefix, i));
        paths := paths + below;
        i := i + 1;
      }
      assert value.items[..i] == value.items;
    }
  }

  /** A path to the value under a forbidden key. */
  predicate LeadsToSecret(forbidden: string -> bool, v: Tree, path: seq<PathStep>) {
    && path != []
    && path[|path| - 1].KeyStep? && forbidden(path[|path| - 1].key)
    && ValueAt(v, path).Some?
  }

  /** Mappings have each key once, at every depth. */
  predicate Proper(v: Tree) {
    match v
    case Mapping(entries) =>
      && (forall i, j | 0 <= i < j < |entries| :: entries[i].key != entries[j].key)
      && forall e | e in entries :: Proper(e.value)
    case Sequence(items) => forall t | t in items :: Proper(t)
    case _ => true
  }

  lemma {:induction false} LookupAt(entries: seq<Entry>, i: nat)
    requires i < |entries| && forall j, k | 0 <= j < k < |entries| :: entries[j].key != entries[k].key
    ensures Lookup(entries, entries[i].key) == Some(entries[i].value)
  {
    if i > 0 {
      LookupAt(entries[1..], i - 1);
    }
  }

  lemma {:induction false} LookupFinds(entries: seq<Entry>, key: string)
    requires Lookup(entries, key).Some?
    ensures exists i :: 0 <= i < |entries| && entries[i].key == key && entries[i].value == Lookup(entries, key).value
  {
    if entries[0].key != key {
      LookupFinds(entries[1..], key);
      var i :| 0 <= i < |entries[1..]| && entries[1..][i].key == key && entries[1..][i].value == Lookup(entries, key).value;
      assert entries[i + 1].key == key;
    }
  }

  /** The text renders the path of some secret. */
  ghost predicate RendersSecret(forbidden: string -> bool, v: Tree, prefix: string, text: string) {
    exists path :: LeadsToSecret(forbidden, v, path) && text == Rendered(prefix, path)
  }

  /** The path starts at the entry and leads to a secret in it. */
  predicate EntryLeads(forbidden: string -> bool, e: Entry, path: seq<PathStep>) {
    && path != [] && path[0] == KeyStep(e.key)
    && (if |path| == 1 then forbidden(e.key) else LeadsToSecret(forbidden, e.value, path[1..]))
  }

  ghost predicate RendersEntry(forbidden: string -> bool, e: Entry, prefix: string, text: string) {
    exists path :: EntryLeads(forbidden, e, path) && text == Rendered(prefix, path)
  }

  predicate ItemLeads(forbidden: string -> bool, t: Tree, i: nat, path: seq<PathStep>) {
    path != [] && path[0] == IndexStep(i) && LeadsToSecret(forbidden, t, path[1..])
  }

  ghost predicate RendersItem(forbidden: string -> bool, t: Tree, i: nat, prefix: string, text: string) {
    exists path :: ItemLeads(forbidden, t, i, path) && text == Rendered(prefix, path)
  }

  /** The collector returns exactly the rendered paths of the forbidden keys, at
      any depth of mappings and lists. */
  lemma {:induction false} SecretPathsAreTheSecrets(forbidden: string -> bool, v: Tree, prefix: string, text: string)
    requires Proper(v)
    ensures text in SecretPaths(forbidden, v, prefix) <==>
            exists path :: LeadsToSecret(forbidden, v, path) && text == Rendered(prefix, path)
    decreases v, 1, 0
  {
    if v.Mapping? {
      EntryPaths(forbidden, v, v.entries, prefix, text);
      MappingSecrets(forbidden, v, prefix, text);
    } else if v.Sequence? {
      ItemPaths(forbidden, v, v.items, prefix, text);
      SequenceSecrets(forbidden, v, prefix, text);
    } else {
      NoSecrets(forbidden, v);
    }
    assert RendersSecret(forbidden, v, prefix, text) <==>
           exists path :: LeadsToSecret(forbidden, v, path) && text == Rendered(prefix, path);
  }

  lemma NoSecrets(forbidden: string -> bool, v: Tree)
    requires !v.Mapping? && !v.Sequence?
    ensures forall path :: !LeadsToSecret(forbidden, v, path)
  {
    forall path: seq<PathStep> | path != [] ensures ValueAt(v, path).None? {
      assert StepInto(v, path[0]).None?;
    }
  }

  lemma MappingSecrets(forbidden: string -> bool, v: Tree, prefix: string, text: string)
    requires v.Mapping? && Proper(v)
    ensures RendersSecret(forbidden, v, prefix, text) <==>
            exists i :: 0 <= i < |v.entries| && RendersEntry(forbidden, v.entries[i], prefix, text)
  {
    if i :| 0 <= i < |v.entries| && RendersEntry(forbidden, v.entries[i], prefix, text) {
      var path :| EntryLeads(forbidden, v.entries[i], path) && text == Rendered(prefix, path);
      LookupAt(v.entries, i);
      EntryLeadsBelow(forbidden, v, v.entries[i], path);
    }
    if path: seq<PathStep> :| LeadsToSecret(forbidden, v, path) && text == Rendered(prefix, path) {
      var key := path[0].key;
      LookupFinds(v.entries, key);
      var i :| 0 <= i < |v.entries| && v.entries[i].key == key && v.entries[i].value == Lookup(v.entries, key).value;
      BelowEntryLeads(forbidden, v, v.entries[i], path);
      assert RendersEntry(forbidden, v.entries[i], prefix, text);
    }
  }

  lemma SequenceSecrets(forbidden: string -> bool, v: Tree, prefix: string, text: string)
    requires v.Sequence?
    ensures RendersSecret(forbidden, v, prefix, text) <==>
            exists i :: 0 <= i < |v.items| && RendersItem(forbidden, v.items[i], i, prefix, text)
  {
    if i :| 0 <= i < |v.items| && RendersItem(forbidden, v.items[i], i, prefix, text) {
      var path :| ItemLeads(forbidden, v.items[i], i, path) && text == Rendered(prefix, path);
      assert path == [path[0]] + path[1..];
      assert LeadsToSecret(forbidden, v, path);
    }
    if path: seq<PathStep> :| LeadsToSecret(forbidden, v, path) && text == Rendered(prefix, path) {
      var i := path[0].index;
      assert path == [path[0]] + path[1..];
      assert ItemLeads(forbidden, v.items[i], i, path);
      assert RendersItem(forbidden, v.items[i], i, prefix, text);
    }
  }

  lemma EntryLeadsBelow(forbidden: string -> bool, v: Tree, e: Entry, path: seq<PathStep>)
    requires v.Mapping? && Lookup(v.entries, e.key) == Some(e.value) && EntryLeads(forbidden, e, path)
    ensures LeadsToSecret(forbidden, v, path)
  {
    assert path == [path[0]] + path[1..];
    if |path| == 1 {
      assert path[1..] == [];
    }
  }

  lemma BelowEntryLeads(forbidden: string -> bool, v: Tree, e: Entry, path: seq<PathStep>)
    requires v.Mapping? && LeadsToSecret(forbidden, v, path)
    requires path[0].KeyStep? && path[0].key == e.key && Lookup(v.entries, e.key) == Some(e.value)
    ensures EntryLeads(forbidden, e, path)
  {
    assert path == [path[0]] + path[1..];
  }

  lemma {:induction false} EntriesMembers(forbidden: string -> bool, entries: seq<Entry>, prefix: string, text: string)
    ensures text in SecretPathsOfEntries(forbidden, entries, prefix) <==>
            exists i :: 0 <= i < |entries| && text in SecretPathsOfEntry(forbidden, entries[i], prefix)
    decreases |entries|
  {
    if entries != [] {
      var n := |entries| - 1;
      EntriesMembers(forbidden, entries[..n], prefix, text);
      assert forall i | 0 <= i < n :: entries[..n][i] == entries[i];
    }
  }

  lemma {:induction false} EntryPaths(forbidden: string -> bool, v: Tree, entries: seq<Entry>, prefix: string, text: string)
    requires forall e | e in entries :: e.value < v && Proper(e.value)
    ensures text in SecretPathsOfEntries(forbidden, entries, prefix) <==>
            exists i :: 0 <= i < |entries| && RendersEntry(forbidden, entries[i], prefix, text)
    decreases v, 0, 1
  {
    EntriesMembers(forbidden, entries, prefix, text);
    forall i | 0 <= i < |entries|
      ensures text in SecretPathsOfEntry(forbidden, entries[i], prefix) <==> RendersEntry(forbidden, entries[i], prefix, text)
    {
      assert entries[i] in entries;
      EntryOwnPaths(forbidden, v, entries[i], prefix, text);
    }
  }

  lemma {:induction false} EntryOwnPaths(forbidden: string -> bool, v: Tree, e: Entry, prefix: string, text: string)
    requires e.value < v && Proper(e.value)
    ensures text in SecretPathsOfEntry(forbidden, e, prefix) <==> RendersEntry(forbidden, e, prefix, text)
    decreases v, 0, 0
  {
    SecretPathsAreTheSecrets(forbidden, e.value, KeyPath(prefix, e.key), text);
    if forbidden(e.key) && text == KeyPath(prefix, e.key) {
      assert [KeyStep(e.key)][1..] == [];
      assert EntryLeads(forbidden, e, [KeyStep(e.key)]) && text == Rendered(prefix, [KeyStep(e.key)]);
    }
    if path :| LeadsToSecret(forbidden, e.value, path) && text == Rendered(KeyPath(prefix, e.key), path) {
      var whole := [KeyStep(e.key)] + path;
      assert whole[1..] == path;
      assert EntryLeads(forbidden, e, whole) && text == Rendered(prefix, whole);
    }
    if path: seq<PathStep> :| EntryLeads(forbidden, e, path) && text == Rendered(prefix, path) {
      assert text == Rendered(KeyPath(prefix, e.key), path[1..]);
      if |path| == 1 {
        assert path[1..] == [];
      }
    }
  }

  predicate FoundIn(forbidden: string -> bool, t: Tree, i: nat, prefix: string, text: string) {
    text in SecretPaths(forbidden, t, IndexPath(prefix, i))
  }

  lemma {:induction false} ItemsMembers(forbidden: string -> bool, items: seq<Tree>, prefix: string, text: string)
    ensures text in SecretPathsOfItems(forbidden, items, prefix) <==>
            exists i :: 0 <= i < |items| && FoundIn(forbidden, items[i], i, prefix, text)
    decreases |items|
  {
    if items != [] {
      var n := |items| - 1;
      ItemsMembers(forbidden, items[..n], prefix, text);
      assert forall i | 0 <= i < n :: items[..n][i] == items[i];
      var front, last := SecretPathsOfItems(forbidden, items[..n], prefix), SecretPaths(forbidden, items[n], IndexPath(prefix, n));
      assert text in front + last <==> text in front || FoundIn(forbidden, items[n], n, prefix, text);
    }
  }

  lemma {:induction false} ItemPaths(forbidden: string -> bool, v: Tree, items: seq<Tree>, prefix: string, text: string)
    requires forall t | t in items :: t < v && Proper(t)
    ensures text in SecretPathsOfItems(forbidden, items, prefix) <==>
            exists i :: 0 <= i < |items| && RendersItem(forbidden, items[i], i, prefix, text)
    decreases v, 0, 1
  {
    ItemsMembers(forbidden, items, prefix, text);
    forall i | 0 <= i < |items|
      ensures FoundIn(forbidden, items[i], i, prefix, text) <==> RendersItem(forbidden, items[i], i, prefix, text)
    {
      assert items[i] in items;
      ItemOwnPaths(forbidden, v, items[i], i, prefix, text);
    }
  }

  lemma {:induction false} ItemOwnPaths(forbidden: string -> bool, v: Tree, t: Tree, n: nat, prefix: string, text: string)
    requires t < v && Proper(t)
    ensures text in SecretPaths(forbidden, t, IndexPath(prefix, n)) <==> RendersItem(forbidden, t, n, prefix, text)
    decreases v, 0, 0
  {
    SecretPathsAreTheSecrets(forbidden, t, IndexPath(prefix, n), text);
    if path :| LeadsToSecret(forbidden, t, path) && text == Rendered(IndexPath(prefix, n), path) {
      var whole := [IndexStep(n)] + path;
      assert whole[1..] == path;
      assert ItemLeads(forbidden, t, n, whole) && text == Rendered(prefix, whole);
    }
  }

  function ForbiddenBy(lower: string -> string): string -> bool {
    key => IsForbidden(lower, key)
  }

  /** validate_secret_safe_params accepts exactly the parameters in which no key,
      however deep, is forbidden. */
  method ValidateSecretSafeParams(lower: string -> string, params: Tree, prefix: string) returns (ok: bool)
    requires Proper(params)
    ensures ok <==> forall path :: !LeadsToSecret(ForbiddenBy(lower), params, path)
  {
    var forbidden := ForbiddenBy(lower);
    var paths := SecretBearingFieldPaths(forbidden, params, prefix);
    ok := paths == [];
    if ok {
      forall path ensures !LeadsToSecret(forbidden, params, path) {
        SecretPathsAreTheSecrets(forbidden, params, prefix, Rendered(prefix, path));
      }
    } else {
      SecretPathsAreTheSecrets(forbidden, params, prefix, paths[0]);
    }
  }
}
