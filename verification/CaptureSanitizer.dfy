/** What a validation capture keeps of a payload
    (proof_agent/configuration/local_store.py). The case folding of keys is a
    parameter; nothing depends on which function it is. */
module CaptureSanitizer {
  import opened Text
  import opened ManifestTree

  const EXCLUDED_KEYS := {
    "chain_of_thought", "raw_chain_of_thought", "raw_prompt", "raw_context", "raw_evidence", "raw_evidence_content",
    "evidence_content", "raw_tool_payload", "raw_tool_payloads", "tool_payload", "tool_payloads",
    "provider_response", "provider_responses", "complete_provider_response", "complete_provider_responses",
    "runtime_state", "runtime_state_dict", "runtime_state_dicts"
  }

  const REDACTED_KEYS := {
    "api_key", "authorization", "credential", "credentials", "password", "secret", "secrets", "token"
  }

  const REDACTED := Scalar("[REDACTED]")

  /** What becomes of the entry under a key. */
  datatype Treatment = Exclude | Redact | Keep

  type Policy = string -> Treatment

  /** The treatment the module's key sets give, for any case folding. */
  function PolicyOf(lower: string -> string): Policy {
    key =>
      if lower(key) in EXCLUDED_KEYS then Exclude
      else if lower(key) in REDACTED_KEYS then Redact
      else Keep
  }

  function Sanitized(policy: Policy, v: Tree): Tree {
    match v
    case Mapping(entries) => Mapping(SanitizedEntries(policy, entries))
    case Sequence(items) => Sequence(SanitizedItems(policy, items))
    case _ => v
  }

  function SanitizedItems(policy: Policy, items: seq<Tree>): (clean: seq<Tree>)
    ensures |clean| == |items|
  {
    if items == [] then []
    else SanitizedItems(policy, items[..|items| - 1]) + [Sanitized(policy, items[|items| - 1])]
  }

  function SanitizedEntries(policy: Policy, entries: seq<Entry>): seq<Entry> {
    if entries == [] then []
    else
      SanitizedEntries(policy, entries[..|entries| - 1]) + SanitizedEntry(policy, entries[|entries| - 1])
  }

  function SanitizedEntry(policy: Policy, e: Entry): seq<Entry> {
    match policy(e.key)
    case Exclude => []
    case Redact => [Entry(e.key, REDACTED)]
    case Keep => [Entry(e.key, Sanitized(policy, e.value))]
  }

  /** _sanitize_validation_capture_payload */
  method SanitizePayload(policy: Policy, value: Tree) returns (clean: Tree)
    ensures clean == Sanitized(policy, value)
    decreases value
  {
    if value.Mapping? {
      var sanitized: seq<Entry> := [];
      var i := 0;
      while i < |value.entries|
        invariant 0 <= i <= |value.entries|
        invariant sanitized == SanitizedEntries(policy, value.entries[..i])
      {
        var entry := value.entries[i];
        assert value.entries[..i + 1][..i] == value.entries[..i];
        i := i + 1;
        if policy(entry.key).Exclude? {
          continue;
        }
        if policy(entry.key).Redact? {
          sanitized := sanitized + [Entry(entry.key, REDACTED)];
          continue;
        }
        var item := SanitizePayload(policy, entry.value);
        sanitized := sanitized + [Entry(entry.key, item)];
      }
      assert value.entries[..i] == value.entries;
      return Mapping(sanitized);
    }
    if value.Sequence? {
      var items: seq<Tree> := [];
      var i := 0;
      while i < |value.items|
        invariant 0 <= i <= |value.items|
        invariant items == SanitizedItems(policy, value.items[..i])
      {
        assert value.items[..i + 1][..i] == value.items[..i];
        var item := SanitizePayload(policy, value.items[i]);
        items := items + [item];
        i := i + 1;
      }
      assert value.items[..i] == value.items;
      return Sequence(items);
    }
    return value;
  }

  // ----- where everything goes -----

  /** What a path of the original leads to in the capture. */
  function Expected(policy: Policy, v: Tree, path: seq<PathStep>): Option<Tree>
    decreases |path|
  {
    if path == [] then Some(Sanitized(policy, v))
    else
      var treatment := if path[0].KeyStep? then policy(path[0].key) else Keep;
      match StepInto(v, path[0])
      case None => None
      case Some(inner) =>
        match treatment
        case Exclude => None
        case Redact => if |path| == 1 then Some(REDACTED) else None
        case Keep => Expected(policy, inner, path[1..])
  }

  /** No step of the path is a key of that treatment. */
  predicate Avoids(policy: Policy, path: seq<PathStep>, treatment: Treatment) {
    forall s | s in path && s.KeyStep? :: policy(s.key) != treatment
  }

  predicate EndsRedacted(policy: Policy, path: seq<PathStep>) {
    path != [] && path[|path| - 1].KeyStep? && policy(path[|path| - 1].key).Redact?
  }

  lemma {:induction false} LookupSanitized(policy: Policy, entries: seq<Entry>, key: string)
    ensures Lookup(SanitizedEntries(policy, entries), key) ==
            match Lookup(entries, key)
            case None => None
            case Some(v) =>
              match policy(key)
              case Exclude => None
              case Redact => Some(REDACTED)
              case Keep => Some(Sanitized(policy, v))
  {
    if entries != [] {
      var n := |entries| - 1;
      LookupSanitized(policy, entries[..n], key);
      LookupAppend(entries[..n], [entries[n]], key);
      assert entries == entries[..n] + [entries[n]];
      LookupAppend(SanitizedEntries(policy, entries[..n]), SanitizedEntry(policy, entries[n]), key);
      LookupOne(entries[n], key);
    }
  }

  lemma LookupOne(e: Entry, key: string)
    ensures Lookup([e], key) == if e.key == key then Some(e.value) else None
  {
  }

  lemma {:induction false} LookupAppend(a: seq<Entry>, b: seq<Entry>, key: string)
    ensures Lookup(a + b, key) == if Lookup(a, key).Some? then Lookup(a, key) else Lookup(b, key)
  {
    if a == [] {
      assert a + b == b;
    } else {
      assert (a + b)[1..] == a[1..] + b;
      LookupAppend(a[1..], b, key);
    }
  }

  lemma {:induction false} ItemsSanitized(policy: Policy, items: seq<Tree>, i: nat)
    requires i < |items|
    ensures SanitizedItems(policy, items)[i] == Sanitized(policy, items[i])
  {
    var n := |items| - 1;
    if i < n {
      ItemsSanitized(policy, items[..n], i);
    }
  }

  /** Path by path: excluded keys lead nowhere, a redacted key leads to the marker
      and no further, and every other path leads to what it led to. */
  lemma {:induction false} SanitizedAt(policy: Policy, v: Tree, path: seq<PathStep>)
    ensures ValueAt(Sanitized(policy, v), path) == Expected(policy, v, path)
    decreases |path|
  {
    if path != [] {
      var s := path[0];
      if s.KeyStep? && v.Mapping? {
        LookupSanitized(policy, v.entries, s.key);
        if |path| > 1 {
          assert REDACTED.Scalar?;
        }
      }
      if s.IndexStep? && v.Sequence? && s.index < |v.items| {
        ItemsSanitized(policy, v.items, s.index);
      }
      if StepInto(v, s).Some? {
        SanitizedAt(policy, StepInto(v, s).value, path[1..]);
      }
    }
  }

  /** Nothing excluded is left at any depth, nothing is left below a redacted key
      but the marker, and all the rest is there. */
  lemma {:induction false} CaptureIsSafeAndComplete(policy: Policy, v: Tree, path: seq<PathStep>)
    ensures !Avoids(policy, path, Exclude) ==> ValueAt(Sanitized(policy, v), path).None?
    ensures EndsRedacted(policy, path) && ValueAt(Sanitized(policy, v), path).Some? ==>
              ValueAt(Sanitized(policy, v), path) == Some(REDACTED)
    ensures Avoids(policy, path, Exclude) && Avoids(policy, path, Redact) ==>
              ValueAt(Sanitized(policy, v), path) ==
              match ValueAt(v, path) case None => None case Some(inner) => Some(Sanitized(policy, inner))
    decreases |path|
  {
    SanitizedAt(policy, v, path);
    if path != [] {
      assert path == [path[0]] + path[1..];
      if StepInto(v, path[0]).Some? {
        var inner := StepInto(v, path[0]).value;
        CaptureIsSafeAndComplete(policy, inner, path[1..]);
        SanitizedAt(policy, inner, path[1..]);
      }
    }
  }

  function KeysOf(entries: seq<Entry>): (keys: seq<string>)
    ensures |keys| == |entries| && forall i | 0 <= i < |entries| :: keys[i] == entries[i].key
  {
    seq(|entries|, i requires 0 <= i < |entries| => entries[i].key)
  }

  function WithoutExcluded(policy: Policy, keys: seq<string>): seq<string> {
    if keys == [] then []
    else
      WithoutExcluded(policy, keys[..|keys| - 1]) + if policy(keys[|keys| - 1]).Exclude? then [] else [keys[|keys| - 1]]
  }

  /** The keys that stay keep their order. */
  lemma {:induction false} KeyOrderKept(policy: Policy, entries: seq<Entry>)
    ensures KeysOf(SanitizedEntries(policy, entries)) == WithoutExcluded(policy, KeysOf(entries))
  {
    if entries != [] {
      var n := |entries| - 1;
      KeyOrderKept(policy, entries[..n]);
      assert KeysOf(entries)[..n] == KeysOf(entries[..n]);
      var front, last := SanitizedEntries(policy, entries[..n]), SanitizedEntry(policy, entries[n]);
      assert KeysOf(front + last) == KeysOf(front) + KeysOf(last);
    }
  }

  // ----- once is enough -----

  /** Sanitising a capture again changes nothing. */
  lemma {:induction false} SanitizedTwice(policy: Policy, v: Tree)
    ensures Sanitized(policy, Sanitized(policy, v)) == Sanitized(policy, v)
    decreases v, 1, 0
  {
    match v
    case Mapping(entries) => EntriesTwice(policy, v, entries);
    case Sequence(items) => ItemsTwice(policy, v, items);
    case _ =>
  }

  lemma {:induction false} EntriesTwice(policy: Policy, v: Tree, entries: seq<Entry>)
    requires forall e | e in entries :: e.value < v
    ensures SanitizedEntries(policy, SanitizedEntries(policy, entries)) == SanitizedEntries(policy, entries)
    decreases v, 0, |entries|
  {
    if entries != [] {
      var n := |entries| - 1;
      assert entries[n] in entries && forall e | e in entries[..n] :: e in entries;
      EntriesTwice(policy, v, entries[..n]);
      SanitizedTwice(policy, entries[n].value);
      EntryTwice(policy, entries[n]);
      var front, last := SanitizedEntries(policy, entries[..n]), SanitizedEntry(policy, entries[n]);
      assert SanitizedEntries(policy, entries) == front + last;
      JoinTwice(policy, front, last);
    }
  }

  lemma JoinTwice(policy: Policy, front: seq<Entry>, last: seq<Entry>)
    requires SanitizedEntries(policy, front) == front
    requires |last| <= 1 && (last != [] ==> SanitizedEntry(policy, last[0]) == last)
    ensures SanitizedEntries(policy, front + last) == front + last
  {
    EntriesAppend(policy, front, last);
  }

  lemma EntryTwice(policy: Policy, e: Entry)
    requires Sanitized(policy, Sanitized(policy, e.value)) == Sanitized(policy, e.value)
    ensures var clean := SanitizedEntry(policy, e);
            |clean| <= 1 && (clean != [] ==> SanitizedEntry(policy, clean[0]) == clean)
  {
  }

  lemma EntriesAppend(policy: Policy, front: seq<Entry>, last: seq<Entry>)
    requires |last| <= 1
    ensures SanitizedEntries(policy, front + last) ==
            SanitizedEntries(policy, front) + if last == [] then [] else SanitizedEntry(policy, last[0])
  {
    if last == [] {
      assert front + last == front;
    } else {
      assert (front + last)[..|front|] == front;
    }
  }

  lemma {:induction false} ItemsTwice(policy: Policy, v: Tree, items: seq<Tree>)
    requires forall i | i in items :: i < v
    ensures SanitizedItems(policy, SanitizedItems(policy, items)) == SanitizedItems(policy, items)
    decreases v, 0, |items|
  {
    if items != [] {
      var n := |items| - 1;
      assert items[n] in items && forall i | i in items[..n] :: i in items;
      ItemsTwice(policy, v, items[..n]);
      SanitizedTwice(policy, items[n]);
      var front := SanitizedItems(policy, items[..n]);
      assert (front + [Sanitized(policy, items[n])])[..n] == front;
    }
  }

  // ----- the keys themselves -----

  lemma PolicyMeaning(lower: string -> string, key: string)
    ensures PolicyOf(lower)(key).Exclude? <==> lower(key) in EXCLUDED_KEYS
    ensures PolicyOf(lower)(key).Redact? <==> lower(key) in REDACTED_KEYS
  {
    if lower(key) in EXCLUDED_KEYS && lower(key) in REDACTED_KEYS {
      SetsAreDisjoint(lower(key));
    }
  }

  lemma SetsAreDisjoint(key: string)
    ensures !(key in EXCLUDED_KEYS && key in REDACTED_KEYS)
  {
  }

  predicate PassesKey(lower: string -> string, path: seq<PathStep>, keys: set<string>) {
    exists i | 0 <= i < |path| :: path[i].KeyStep? && lower(path[i].key) in keys
  }

  /** For the key sets of the module and any case folding: a path through an
      excluded key leads nowhere, one that ends in a redacted key leads to the
      marker if anywhere, and a path through neither leads to the capture of what
      it led to. */
  lemma CaptureOfKeySets(lower: string -> string, v: Tree, path: seq<PathStep>)
    ensures var clean := Sanitized(PolicyOf(lower), v);
            && (PassesKey(lower, path, EXCLUDED_KEYS) ==> ValueAt(clean, path).None?)
            && (path != [] && PassesKey(lower, path[|path| - 1..], REDACTED_KEYS) && ValueAt(clean, path).Some? ==>
                  ValueAt(clean, path) == Some(REDACTED))
            && (!PassesKey(lower, path, EXCLUDED_KEYS) && !PassesKey(lower, path, REDACTED_KEYS) ==>
                  ValueAt(clean, path) ==
                  match ValueAt(v, path) case None => None case Some(inner) => Some(Sanitized(PolicyOf(lower), inner)))
  {
    var policy := PolicyOf(lower);
    CaptureIsSafeAndComplete(policy, v, path);
    forall key {
      PolicyMeaning(lower, key);
    }
    PassesMeansAvoids(policy, lower, path, Exclude, EXCLUDED_KEYS);
    PassesMeansAvoids(policy, lower, path, Redact, REDACTED_KEYS);
  }

  lemma PassesMeansAvoids(
    policy: Policy, lower: string -> string, path: seq<PathStep>, treatment: Treatment, keys: set<string>)
    requires forall key :: policy(key) == treatment <==> lower(key) in keys
    ensures PassesKey(lower, path, keys) <==> !Avoids(policy, path, treatment)
  {
    if i :| 0 <= i < |path| && path[i].KeyStep? && lower(path[i].key) in keys {
      assert path[i] in path;
    }
  }
}
