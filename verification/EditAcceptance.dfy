/** When the two document normalisations go ahead, and with which edits
    (docker/production-local/disable_draft_memory.py, normalize_draft_contract_paths.py):
    what they look for in the parsed document, entry by entry. */
module EditAcceptance {
  import opened Text
  import opened DocumentEdits

  predicate IsNamed(e: NodeEntry, name: string) {
    e.key.ScalarNode? && e.key.value == name
  }

  /** Entry i has the name, and no other entry of the mapping has it. */
  predicate OnlyEntry(n: Node, name: string, i: nat) {
    && n.MappingNode? && i < |n.entries|
    && forall j | 0 <= j < |n.entries| :: IsNamed(n.entries[j], name) <==> j == i
  }

  ghost predicate HasEntry(n: Node, name: string, e: NodeEntry) {
    exists i: nat :: OnlyEntry(n, name, i) && n.entries[i] == e
  }

  predicate LacksEntry(n: Node, name: string) {
    n.MappingNode? && forall j | 0 <= j < |n.entries| :: !IsNamed(n.entries[j], name)
  }

  lemma {:induction false} MatchingNone(entries: seq<NodeEntry>, name: string)
    ensures Matching(entries, name) == [] <==> LacksEntry(MappingNode(entries), name)
  {
    if entries != [] {
      MatchingNone(entries[1..], name);
      assert forall j | 0 < j < |entries| :: entries[j] == entries[1..][j - 1];
    }
  }

  lemma {:induction false} MatchingOne(entries: seq<NodeEntry>, name: string, e: NodeEntry)
    ensures Matching(entries, name) == [e] <==> HasEntry(MappingNode(entries), name, e)
  {
    if entries != [] {
      var rest := entries[1..];
      if IsNamed(entries[0], name) {
        MatchingNone(rest, name);
        FirstEntry(entries, name, e);
      } else {
        MatchingOne(rest, name, e);
        LaterEntry(entries, name, e);
      }
    }
  }

  lemma FirstEntry(entries: seq<NodeEntry>, name: string, e: NodeEntry)
    requires entries != [] && IsNamed(entries[0], name)
    ensures HasEntry(MappingNode(entries), name, e) <==> e == entries[0] && LacksEntry(MappingNode(entries[1..]), name)
  {
    var n := MappingNode(entries);
    assert forall j | 0 < j < |entries| :: entries[j] == entries[1..][j - 1];
    if e == entries[0] && LacksEntry(MappingNode(entries[1..]), name) {
      assert OnlyEntry(n, name, 0);
    }
  }

  lemma LaterEntry(entries: seq<NodeEntry>, name: string, e: NodeEntry)
    requires entries != [] && !IsNamed(entries[0], name)
    ensures HasEntry(MappingNode(entries), name, e) <==> HasEntry(MappingNode(entries[1..]), name, e)
  {
    var n, rest := MappingNode(entries), MappingNode(entries[1..]);
    assert forall j | 0 < j < |entries| :: entries[j] == entries[1..][j - 1];
    if i: nat :| OnlyEntry(n, name, i) && n.entries[i] == e {
      assert OnlyEntry(rest, name, i - 1);
    }
    if i: nat :| OnlyEntry(rest, name, i) && rest.entries[i] == e {
      assert OnlyEntry(n, name, i + 1);
    }
  }

  lemma EntryExactly(n: Node, name: string, e: NodeEntry)
    ensures MappingEntry(n, name) == Some(e) <==> HasEntry(n, name, e)
  {
    if n.MappingNode? {
      MatchingOne(n.entries, name, e);
      assert n == MappingNode(n.entries);
    }
  }

  /** A chain of entries, each the only one of its name, leads to the node. */
  ghost predicate LeadsTo(n: Node, path: seq<string>, end: Node)
    decreases |path|
  {
    if path == [] then n == end
    else exists e :: HasEntry(n, path[0], e) && LeadsTo(e.value, path[1..], end)
  }

  lemma {:induction false} WalkExactly(n: Node, path: seq<string>, end: Node)
    ensures Walk(n, path) == Some(end) <==> LeadsTo(n, path, end)
    decreases |path|
  {
    if path != [] {
      forall e ensures MappingEntry(n, path[0]) == Some(e) <==> HasEntry(n, path[0], e) {
        EntryExactly(n, path[0], e);
      }
      if MappingEntry(n, path[0]).Some? {
        WalkExactly(MappingEntry(n, path[0]).value.value, path[1..], end);
      }
    }
  }

  /** The document composes, and its nodes lead to this one. */
  ghost predicate Holds(yaml: Yaml, document: string, path: seq<string>, end: Node) {
    yaml.compose(document).Some? && LeadsTo(yaml.compose(document).value, path, end)
  }

  lemma HoldsExactly(yaml: Yaml, document: string, path: seq<string>)
    ensures forall end :: WalkFromRoot(yaml, document, path) == Some(end) <==> Holds(yaml, document, path, end)
  {
    forall end ensures WalkFromRoot(yaml, document, path) == Some(end) <==> Holds(yaml, document, path, end) {
      if yaml.compose(document).Some? {
        WalkExactly(yaml.compose(document).value, path, end);
      }
    }
  }

  /** A boolean written as this text. */
  predicate IsFlag(n: Node, text: string) {
    n.ScalarNode? && n.tag == "tag:yaml.org,2002:bool" && n.value == text
  }

  lemma FlagExactly(n: Node)
    ensures StrictBoolean(n) == Some(true) <==> IsFlag(n, "true")
    ensures StrictBoolean(n) == Some(false) <==> IsFlag(n, "false")
  {
    var yes, no := "true", "false";
    assert yes[0] != no[0];
  }

  // ----- the line of an entry -----

  /** Up to the next line feed, or the end of the document, only blanks, or blanks
      and a comment. */
  predicate LineEndsFrom(document: string, from: nat, eol: nat) {
    && from <= eol <= |document|
    && (eol < |document| ==> document[eol] == '\n')
    && (forall k | from <= k < eol :: document[k] != '\n')
    && (Blank(document, from, eol) || exists c | from <= c < eol :: document[c] == '#' && Blank(document, from, c))
  }

  /** The entry lies on one line of its own, from start to end. */
  ghost predicate OnItsLine(document: string, e: NodeEntry, start: nat, end: nat) {
    && e.key.ScalarNode? && e.value.ScalarNode? && e.key.start.line == e.value.end.line
    && start <= e.key.start.index <= |document| && (start == 0 || document[start - 1] == '\n')
    && (forall k | start <= k < e.key.start.index :: document[k] != '\n')
    && Blank(document, start, e.key.start.index)
    && exists eol: nat :: LineEndsFrom(document, e.value.end.index, eol) && end == if eol < |document| then eol + 1 else eol
  }

  lemma {:induction false} LineStartIsTheOne(document: string, i: nat, start: nat)
    requires start <= i <= |document| && (start == 0 || document[start - 1] == '\n')
    requires forall k | start <= k < i :: document[k] != '\n'
    ensures LineStart(document, i) == start
  {
    if start < i {
      LineStartIsTheOne(document, i - 1, start);
    }
  }

  lemma FindIsTheOne(document: string, from: nat, eol: nat)
    requires from <= eol <= |document| && (eol < |document| ==> document[eol] == '\n')
    requires forall k | from <= k < eol :: document[k] != '\n'
    ensures Find(document, '\n', from) == eol
  {
  }

  lemma BlankExactly(document: string, from: nat, to: nat)
    requires from <= to <= |document|
    ensures Strip(document[from..to]) == "" <==> Blank(document, from, to)
  {
    StripEmpty(document[from..to]);
    if Blank(document, from, to) {
      assert forall i | 0 <= i < to - from :: document[from..to][i] == document[from + i];
    }
    if Strip(document[from..to]) == "" {
      BlankStrip(document, from, to);
    }
  }

  lemma CommentExactly(document: string, from: nat, to: nat)
    requires from <= to <= |document| && !Blank(document, from, to)
    ensures Strip(document[from..to]) != ""
    ensures Strip(document[from..to])[0] == '#' <==> exists c | from <= c < to :: document[c] == '#' && Blank(document, from, c)
  {
    var at :| from <= at < to && !IsSpace(document[at]);
    FirstVisible(document, from, at);
    var c :| from <= c <= at && Blank(document, from, c) && !IsSpace(document[c]);
    var line := document[from..to];
    assert forall i | 0 <= i <= c - from :: line[i] == document[from + i];
    StripHead(line, c - from);
    if d :| from <= d < to && document[d] == '#' && Blank(document, from, d) {
      assert !IsSpace('#');
      assert c == d;
    }
  }

  lemma SuffixExactly(document: string, from: nat, eol: nat)
    requires from <= eol <= |document|
    ensures var suffix := Strip(document[from..eol]);
            suffix == "" || suffix[0] == '#' <==>
            Blank(document, from, eol) || exists c | from <= c < eol :: document[c] == '#' && Blank(document, from, c)
  {
    BlankExactly(document, from, eol);
    if !Blank(document, from, eol) {
      CommentExactly(document, from, eol);
    }
  }

  lemma SpanExactly(document: string, e: NodeEntry, start: nat, end: nat)
    requires e.key.ScalarNode? && e.key.start.index <= |document|
    requires e.value.ScalarNode? && e.value.end.index <= |document|
    ensures EntrySpan(document, e.key, e.value) == Some((start, end)) <==> OnItsLine(document, e, start, end)
  {
    var lineStart := LineStart(document, e.key.start.index);
    var newline := Find(document, '\n', e.value.end.index);
    BlankExactly(document, lineStart, e.key.start.index);
    SuffixExactly(document, e.value.end.index, newline);
    if OnItsLine(document, e, start, end) {
      LineStartIsTheOne(document, e.key.start.index, start);
      var eol: nat :| LineEndsFrom(document, e.value.end.index, eol) && end == if eol < |document| then eol + 1 else eol;
      FindIsTheOne(document, e.value.end.index, eol);
    }
    if EntrySpan(document, e.key, e.value) == Some((start, end)) {
      assert LineEndsFrom(document, e.value.end.index, newline);
    }
  }

  // ----- turning memory off -----

  ghost predicate ToolsFlagIs(yaml: Yaml, document: string, text: string) {
    exists tools :: Holds(yaml, document, ["capabilities", "tools", "enabled"], tools) && IsFlag(tools, text)
  }

  /** What _normalize_memory_mapping asks for: a document that is a mapping, tools
      off, memory on without scopes, and its provider on a line of its own. */
  ghost predicate MemoryEditable(
    yaml: Yaml, document: string, memory: Node, enabled: NodeEntry, provider: NodeEntry, start: nat, end: nat)
  {
    && yaml.load(document).Some? && yaml.load(document).value.Dict?
    && ToolsFlagIs(yaml, document, "false")
    && Holds(yaml, document, ["capabilities", "memory"], memory)
    && HasEntry(memory, "enabled", enabled) && IsFlag(enabled.value, "true")
    && LacksEntry(memory, "scopes")
    && HasEntry(memory, "provider", provider) && OnItsLine(document, provider, start, end)
  }

  /** The edits are made exactly then, and they are to write "false" over the enabled
      value and to take out the provider's line. */
  lemma MemoryEditsExactly(yaml: Yaml, document: string, edits: seq<Edit>)
    ensures MemoryEdits(yaml, document) == Ok(edits) <==>
            exists memory, enabled, provider, start, end ::
              && MemoryEditable(yaml, document, memory, enabled, provider, start, end)
              && edits == [Edit(enabled.value.start.index, enabled.value.end.index, "false"), Edit(start, end, "")]
  {
    HoldsExactly(yaml, document, ["capabilities", "tools", "enabled"]);
    HoldsExactly(yaml, document, ["capabilities", "memory"]);
    var tools := WalkFromRoot(yaml, document, TOOLS_ENABLED);
    if tools.Some? {
      FlagExactly(tools.value);
    }
    if MemoryEdits(yaml, document) == Ok(edits) {
      MemoryEditsFound(yaml, document, edits);
    }
    if memory, enabled, provider, start: nat, end: nat :|
      && MemoryEditable(yaml, document, memory, enabled, provider, start, end)
      && edits == [Edit(enabled.value.start.index, enabled.value.end.index, "false"), Edit(start, end, "")]
    {
      EditableMapping(document, memory, enabled, provider, start, end);
    }
  }

  lemma MemoryEditsFound(yaml: Yaml, document: string, edits: seq<Edit>)
    requires MemoryEdits(yaml, document) == Ok(edits)
    ensures exists memory, enabled, provider, start, end ::
              && MemoryEditable(yaml, document, memory, enabled, provider, start, end)
              && edits == [Edit(enabled.value.start.index, enabled.value.end.index, "false"), Edit(start, end, "")]
  {
    HoldsExactly(yaml, document, ["capabilities", "tools", "enabled"]);
    HoldsExactly(yaml, document, ["capabilities", "memory"]);
    FlagExactly(WalkFromRoot(yaml, document, TOOLS_ENABLED).value);
    var memory := WalkFromRoot(yaml, document, MEMORY).value;
    var enabled, provider := ScalarEntry(memory, "enabled").value, ScalarEntry(memory, "provider").value;
    FlagExactly(enabled.value);
    EntryExactly(memory, "enabled", enabled);
    EntryExactly(memory, "provider", provider);
    MatchingNone(memory.entries, "scopes");
    EntryIsFit(document, memory, "provider");
    var (start, end) := EntrySpan(document, provider.key, provider.value).value;
    SpanExactly(document, provider, start, end);
    assert MemoryEditable(yaml, document, memory, enabled, provider, start, end);
  }

  lemma EditableMapping(document: string, memory: Node, enabled: NodeEntry, provider: NodeEntry, start: nat, end: nat)
    requires WellMarked(document, memory)
    requires HasEntry(memory, "enabled", enabled) && IsFlag(enabled.value, "true")
    requires LacksEntry(memory, "scopes")
    requires HasEntry(memory, "provider", provider) && OnItsLine(document, provider, start, end)
    ensures ScalarBoolean(memory, "enabled") == Some(true)
    ensures MappingEdits(document, memory) ==
            Some([Edit(enabled.value.start.index, enabled.value.end.index, "false"), Edit(start, end, "")])
  {
    FlagExactly(enabled.value);
    EntryExactly(memory, "enabled", enabled);
    EntryExactly(memory, "provider", provider);
    MatchingNone(memory.entries, "scopes");
    EntryIsFit(document, memory, "provider");
    SpanExactly(document, provider, start, end);
  }

  ghost predicate MemoryFlagIs(yaml: Yaml, document: string, text: string) {
    exists memory, enabled ::
      && Holds(yaml, document, ["capabilities", "memory"], memory)
      && HasEntry(memory, "enabled", enabled) && IsFlag(enabled.value, text)
  }

  lemma FlagsExactly(yaml: Yaml, document: string, flag: bool)
    ensures var text := if flag then "true" else "false";
            var tools, memory := WalkFromRoot(yaml, document, TOOLS_ENABLED), WalkFromRoot(yaml, document, MEMORY);
            && (ToolsFlagIs(yaml, document, text) <==> tools.Some? && StrictBoolean(tools.value) == Some(flag))
            && (MemoryFlagIs(yaml, document, text) <==> memory.Some? && ScalarBoolean(memory.value, "enabled") == Some(flag))
  {
    HoldsExactly(yaml, document, ["capabilities", "tools", "enabled"]);
    HoldsExactly(yaml, document, ["capabilities", "memory"]);
    var tools, memory := WalkFromRoot(yaml, document, TOOLS_ENABLED), WalkFromRoot(yaml, document, MEMORY);
    if tools.Some? {
      FlagExactly(tools.value);
    }
    if memory.Some? {
      EnabledExactly(memory.value);
    }
  }

  /** The two refusals that name their reason. */
  lemma MemoryRefusalsExactly(yaml: Yaml, document: string)
    ensures MemoryEdits(yaml, document) == Err(ToolsMustBeDisabled) <==>
            && yaml.load(document).Some? && ToolsFlagIs(yaml, document, "true")
            && (MemoryFlagIs(yaml, document, "true") || MemoryFlagIs(yaml, document, "false"))
    ensures MemoryEdits(yaml, document) == Err(MemoryAlreadyDisabled) <==>
            && yaml.load(document).Some? && ToolsFlagIs(yaml, document, "false") && MemoryFlagIs(yaml, document, "false")
  {
    FlagsExactly(yaml, document, true);
    FlagsExactly(yaml, document, false);
  }

  lemma EnabledExactly(memory: Node)
    ensures forall flag :: ScalarBoolean(memory, "enabled") == Some(flag) <==>
              exists e :: HasEntry(memory, "enabled", e) && IsFlag(e.value, if flag then "true" else "false")
  {
    forall e ensures MappingEntry(memory, "enabled") == Some(e) <==> HasEntry(memory, "enabled", e) {
      EntryExactly(memory, "enabled", e);
    }
    if ScalarEntry(memory, "enabled").Some? {
      FlagExactly(ScalarEntry(memory, "enabled").value.value);
    }
  }

  // ----- the audit paths -----

  ghost predicate AuditHolds(yaml: Yaml, document: string, trace: NodeEntry, receipt: NodeEntry) {
    && yaml.load(document).Some? && yaml.load(document).value.Dict?
    && exists audit ::
         && Holds(yaml, document, ["audit"], audit)
         && HasEntry(audit, "trace_path", trace) && trace.value.ScalarNode?
         && HasEntry(audit, "receipt_path", receipt) && receipt.value.ScalarNode?
  }

  lemma AuditExactly(yaml: Yaml, document: string, trace: NodeEntry, receipt: NodeEntry)
    ensures AuditHolds(yaml, document, trace, receipt) <==>
            && yaml.load(document).Some? && yaml.load(document).value.Dict?
            && WalkFromRoot(yaml, document, AUDIT).Some?
            && ScalarEntry(WalkFromRoot(yaml, document, AUDIT).value, "trace_path") == Some(trace)
            && ScalarEntry(WalkFromRoot(yaml, document, AUDIT).value, "receipt_path") == Some(receipt)
  {
    HoldsExactly(yaml, document, ["audit"]);
    if WalkFromRoot(yaml, document, AUDIT).Some? {
      var audit := WalkFromRoot(yaml, document, AUDIT).value;
      EntryExactly(audit, "trace_path", trace);
      EntryExactly(audit, "receipt_path", receipt);
    }
  }

  /** Both paths are the legacy ones, and each is replaced by its own new path; a
      document that has the new ones is refused as done. */
  lemma AuditEditsExactly(yaml: Yaml, document: string, edits: seq<Edit>)
    ensures AuditEdits(yaml, document) == Ok(edits) <==>
            exists trace, receipt ::
              && AuditHolds(yaml, document, trace, receipt)
              && trace.value.value == "../../runs/latest/trace.jsonl"
              && receipt.value.value == "../../runs/latest/governance_receipt.md"
              && edits == [Edit(trace.value.start.index, trace.value.end.index, "./trace.jsonl"),
                           Edit(receipt.value.start.index, receipt.value.end.index, "./governance_receipt.md")]
    ensures AuditEdits(yaml, document) == Err(PathsAlreadyNormalized) <==>
            exists trace, receipt ::
              && AuditHolds(yaml, document, trace, receipt)
              && trace.value.value == "./trace.jsonl" && receipt.value.value == "./governance_receipt.md"
  {
    forall trace, receipt {
      AuditExactly(yaml, document, trace, receipt);
    }
    assert "../../runs/latest/trace.jsonl"[1] != "./trace.jsonl"[1];
    if AuditEdits(yaml, document).Ok? || AuditEdits(yaml, document) == Err(PathsAlreadyNormalized) {
      var audit := WalkFromRoot(yaml, document, AUDIT).value;
      assert AuditHolds(yaml, document, ScalarEntry(audit, "trace_path").value, ScalarEntry(audit, "receipt_path").value);
    }
  }

  /** The value the candidate has to parse to: both paths are new, everything else is
      as before. */
  lemma OnlyAuditPathsChange(before: Value, path: seq<string>)
    ensures WithAuditPaths(before).Some? <==> At(before, ["audit"]).Some? && At(before, ["audit"]).value.Dict?
    ensures WithAuditPaths(before).Some? ==>
              var after := WithAuditPaths(before).value;
              && At(after, ["audit", "trace_path"]) == Some(Words("./trace.jsonl"))
              && At(after, ["audit", "receipt_path"]) == Some(Words("./governance_receipt.md"))
              && (!(path <= ["audit"]) && !(["audit", "trace_path"] <= path) && !(["audit", "receipt_path"] <= path) ==>
                    At(after, path) == At(before, path))
  {
    var audit := "audit";
    AtCons(before, audit, []);
    assert [audit] + [] == [audit];
    if WithAuditPaths(before).Some? {
      var after := WithAuditPaths(before).value;
      AtPair(after, audit, "trace_path");
      AtPair(after, audit, "receipt_path");
      assert "trace_path"[0] != "receipt_path"[0];
      if path != [] && path[0] == audit && |path| > 1 {
        assert path == [audit] + ([path[1]] + path[2..]);
        assert path[..2] == [audit, path[1]];
        AtCons(after, audit, [path[1]] + path[2..]);
        AtCons(before, audit, [path[1]] + path[2..]);
        AtCons(after.members[audit], path[1], path[2..]);
        AtCons(before.members[audit], path[1], path[2..]);
      } else if path != [] {
        assert path == [path[0]] ==> (path[0] == audit ==> path == [audit]);
      }
    }
  }

  lemma AtPair(v: Value, a: string, b: string)
    ensures At(v, [a, b]) ==
            if v.Dict? && a in v.members && v.members[a].Dict? && b in v.members[a].members
            then Some(v.members[a].members[b]) else None
  {
    assert [a, b] == [a] + ([b] + []);
    AtCons(v, a, [b] + []);
    if v.Dict? && a in v.members {
      AtCons(v.members[a], b, []);
    }
  }

  /** Memory can be turned off in a parsed document exactly when it is a mapping
      there and names a provider. */
  lemma MemoryIsThere(before: Value)
    ensures WithMemoryDisabled(before).Some? <==>
            && At(before, ["capabilities", "memory"]).Some? && At(before, ["capabilities", "memory"]).value.Dict?
            && At(before, ["capabilities", "memory"] + ["provider"]).Some?
  {
    AtPair(before, "capabilities", "memory");
    AtThree(before, "capabilities", "memory", "provider");
  }
}
