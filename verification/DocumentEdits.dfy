/** Offset edits of a YAML document: docker/production-local/disable_draft_memory.py
    and docker/production-local/normalize_draft_contract_paths.py. The YAML parser
    is a parameter with the properties of its position marks that the edits rely
    on. */
module DocumentEdits {
  import opened Text

  // ----- edits -----

  /** Replace document[start..end] by text. */
  datatype Edit = Edit(start: nat, end: nat, text: string)

  /** s[:n] and s[n:], which never fail. */
  function Take(s: string, n: nat): string {
    if n <= |s| then s[..n] else s
  }

  function Drop(s: string, n: nat): string {
    if n <= |s| then s[n..] else ""
  }

  function Splice(s: string, e: Edit): string {
    Take(s, e.start) + e.text + Drop(s, e.end)
  }

  function SpliceAll(s: string, edits: seq<Edit>): string
    decreases |edits|
  {
    if edits == [] then s else SpliceAll(Splice(s, edits[0]), edits[1..])
  }

  /** sorted(edits, reverse=True) */
  predicate NotBefore(a: Edit, b: Edit) {
    a.start > b.start || (a.start == b.start && a.end >= b.end)
  }

  function Insert(e: Edit, sorted: seq<Edit>): seq<Edit> {
    if sorted == [] || NotBefore(e, sorted[0]) then [e] + sorted else [sorted[0]] + Insert(e, sorted[1..])
  }

  function Descending(edits: seq<Edit>): seq<Edit> {
    if edits == [] then [] else Insert(edits[0], Descending(edits[1..]))
  }

  predicate Apart(a: Edit, b: Edit) {
    a.end <= b.start || b.end <= a.start
  }

  /** Edits of non-empty stretches of a document, no two of them overlapping. */
  predicate Separate(edits: seq<Edit>, length: nat) {
    && (forall i | 0 <= i < |edits| :: edits[i].start < edits[i].end <= length)
    && forall i, j | 0 <= i < j < |edits| :: Apart(edits[i], edits[j])
  }

  /** Each edit lies before the one in front of it. */
  predicate Backwards(edits: seq<Edit>, length: nat) {
    && (forall i | 0 <= i < |edits| :: edits[i].start <= edits[i].end <= length)
    && forall i, j | 0 <= i < j < |edits| :: edits[j].end <= edits[i].start
  }

  lemma {:induction false} InsertKeeps(e: Edit, sorted: seq<Edit>)
    ensures multiset(Insert(e, sorted)) == multiset(sorted) + multiset{e}
  {
    if sorted != [] {
      assert sorted == [sorted[0]] + sorted[1..];
      if !NotBefore(e, sorted[0]) {
        InsertKeeps(e, sorted[1..]);
      }
    }
  }

  lemma {:induction false} InsertBackwards(e: Edit, sorted: seq<Edit>, length: nat)
    requires Backwards(sorted, length) && e.start < e.end <= length
    requires forall i | 0 <= i < |sorted| :: Apart(e, sorted[i]) && sorted[i].start < sorted[i].end
    ensures Backwards(Insert(e, sorted), length)
  {
    if sorted == [] || NotBefore(e, sorted[0]) {
      ConsBackwards(e, sorted, length);
    } else {
      var rest := Insert(e, sorted[1..]);
      InsertBackwards(e, sorted[1..], length);
      InsertKeeps(e, sorted[1..]);
      forall j | 0 <= j < |rest| ensures rest[j].end <= sorted[0].start {
        assert rest[j] in multiset(rest);
        assert rest[j] == e || rest[j] in sorted[1..];
      }
      ConsBackwards(sorted[0], rest, length);
    }
  }

  lemma ConsBackwards(e: Edit, rest: seq<Edit>, length: nat)
    requires Backwards(rest, length) && e.start <= e.end <= length
    requires forall i | 0 <= i < |rest| :: rest[i].end <= e.start
    ensures Backwards([e] + rest, length)
  {
  }

  lemma {:induction false} DescendingIsBackwards(edits: seq<Edit>, length: nat)
    requires Separate(edits, length)
    ensures Backwards(Descending(edits), length)
    ensures multiset(Descending(edits)) == multiset(edits)
  {
    if edits != [] {
      var rest := edits[1..];
      assert edits == [edits[0]] + rest;
      DescendingIsBackwards(rest, length);
      ApartFromRest(edits, Descending(rest), length);
      InsertBackwards(edits[0], Descending(rest), length);
      InsertKeeps(edits[0], Descending(rest));
    }
  }

  lemma ApartFromRest(edits: seq<Edit>, sorted: seq<Edit>, length: nat)
    requires Separate(edits, length) && edits != [] && multiset(sorted) == multiset(edits[1..])
    ensures forall i | 0 <= i < |sorted| :: Apart(edits[0], sorted[i]) && sorted[i].start < sorted[i].end
  {
    forall i | 0 <= i < |sorted| ensures Apart(edits[0], sorted[i]) && sorted[i].start < sorted[i].end {
      assert sorted[i] in multiset(sorted);
      var j :| 0 <= j < |edits[1..]| && edits[1..][j] == sorted[i];
      assert edits[j + 1] == sorted[i];
    }
  }

  /** The first n characters of a document with all the edits made in them at
      once: every offset refers to the document as it was. */
  function Substituted(s: string, edits: seq<Edit>, n: nat): string
    requires n <= |s| && Backwards(edits, n)
    decreases |edits|
  {
    if edits == [] then s[..n]
    else
      var last := edits[0];
      RestIsBackwards(edits, n);
      Substituted(s, edits[1..], last.start) + last.text + s[last.end..n]
  }

  lemma RestIsBackwards(edits: seq<Edit>, n: nat)
    requires Backwards(edits, n) && edits != []
    ensures Backwards(edits[1..], edits[0].start)
  {
  }

  /** Splicing from the back is substituting everywhere at once. */
  lemma {:induction false} SpliceAllIsSubstitution(s: string, edits: seq<Edit>, n: nat, tail: string)
    requires n <= |s| && Backwards(edits, n)
    ensures SpliceAll(s[..n] + tail, edits) == Substituted(s, edits, n) + tail
    decreases |edits|
  {
    if edits != [] {
      var e := edits[0];
      RestIsBackwards(edits, n);
      SpliceOne(s, e, n, tail);
      SpliceAllIsSubstitution(s, edits[1..], e.start, e.text + s[e.end..n] + tail);
      Regroup(Substituted(s, edits[1..], e.start), e.text, s[e.end..n], tail);
    }
  }

  lemma Regroup(a: string, b: string, c: string, d: string)
    ensures a + b + c + d == a + (b + c + d)
  {
  }

  lemma SpliceOne(s: string, e: Edit, n: nat, tail: string)
    requires e.start <= e.end <= n <= |s|
    ensures Splice(s[..n] + tail, e) == s[..e.start] + (e.text + s[e.end..n] + tail)
  {
    var whole := s[..n] + tail;
    assert whole[..e.start] == s[..e.start];
    assert whole[e.end..] == s[e.end..n] + tail;
  }

  /** How far the edits before an offset move it. */
  function Shift(edits: seq<Edit>, k: nat): int {
    if edits == [] then 0
    else
      var own := if edits[0].end <= k then |edits[0].text| - (edits[0].end - edits[0].start) else 0;
      Shift(edits[1..], k) + own
  }

  predicate Inside(e: Edit, k: nat) {
    e.start <= k < e.end
  }

  lemma {:induction false} SubstitutedLength(s: string, edits: seq<Edit>, n: nat)
    requires n <= |s| && Backwards(edits, n)
    ensures |Substituted(s, edits, n)| == n + Shift(edits, n)
    ensures forall k | n <= k :: Shift(edits, k) == Shift(edits, n)
    decreases |edits|
  {
    if edits != [] {
      RestIsBackwards(edits, n);
      SubstitutedLength(s, edits[1..], edits[0].start);
    }
  }

  /** Every character outside the edited stretches is kept, moved only by the
      edits before it. */
  lemma {:induction false} SubstitutedKeeps(s: string, edits: seq<Edit>, n: nat, k: nat)
    requires k < n <= |s| && Backwards(edits, n)
    requires forall i | 0 <= i < |edits| :: !Inside(edits[i], k)
    ensures 0 <= k + Shift(edits, k) < |Substituted(s, edits, n)|
    ensures Substituted(s, edits, n)[k + Shift(edits, k)] == s[k]
    decreases |edits|
  {
    if edits != [] {
      var e, rest := edits[0], edits[1..];
      RestIsBackwards(edits, n);
      SubstitutedLength(s, rest, e.start);
      var front := Substituted(s, rest, e.start);
      var whole := Substituted(s, edits, n);
      assert !Inside(e, k);
      if k < e.start {
        SubstitutedKeeps(s, rest, e.start, k);
        assert whole[k + Shift(edits, k)] == front[k + Shift(rest, k)];
      } else {
        var at := k + Shift(edits, k);
        assert Shift(rest, k) == Shift(rest, e.start);
        assert at == |front| + |e.text| + (k - e.end);
        assert whole == (front + e.text) + s[e.end..n];
        assert whole[at] == s[e.end..n][k - e.end];
      }
    }
  }

  /** The loop of both normalisers. */
  method ApplyEdits(document: string, edits: seq<Edit>) returns (candidate: string)
    ensures candidate == SpliceAll(document, Descending(edits))
    ensures Separate(edits, |document|) ==>
              Backwards(Descending(edits), |document|)
              && candidate == Substituted(document, Descending(edits), |document|)
  {
    candidate := document;
    var sorted := Descending(edits);
    var i := 0;
    while i < |sorted|
      invariant 0 <= i <= |sorted|
      invariant SpliceAll(candidate, sorted[i..]) == SpliceAll(document, sorted)
    {
      assert sorted[i..][1..] == sorted[i + 1..];
      candidate := Take(candidate, sorted[i].start) + sorted[i].text + Drop(candidate, sorted[i].end);
      i := i + 1;
    }
    if Separate(edits, |document|) {
      DescendingIsBackwards(edits, |document|);
      SpliceAllIsSubstitution(document, sorted, |document|, "");
      assert document[..|document|] + "" == document;
      assert Substituted(document, sorted, |document|) + "" == Substituted(document, sorted, |document|);
    }
  }

  // ----- nodes and their marks -----

  /** A position: offset and line. */
  datatype Mark = Mark(index: nat, line: nat)

  datatype Node =
    | ScalarNode(tag: string, value: string, start: Mark, end: Mark)
    | MappingNode(entries: seq<NodeEntry>)
    | OtherNode

  datatype NodeEntry = NodeEntry(key: Node, value: Node)

  /** The characters at which YAML starts a new line. */
  predicate IsBreak(document: string, i: nat)
    requires i < |document|
  {
    || document[i] == '\n'
    || (document[i] == '\r' && !(i + 1 < |document| && document[i + 1] == '\n'))
    || IsOtherBreak(document[i])
  }

  predicate IsOtherBreak(c: char) {
    c as int == 0x85 || c as int == 0x2028 || c as int == 0x2029
  }

  function LineOf(document: string, i: nat): (line: nat)
    requires i <= |document|
  {
    if i == 0 then 0 else LineOf(document, i - 1) + if IsBreak(document, i - 1) then 1 else 0
  }

  lemma {:induction false} LineOfGrows(document: string, i: nat, j: nat)
    requires i <= j <= |document|
    ensures LineOf(document, i) <= LineOf(document, j)
    ensures LineOf(document, i) == LineOf(document, j) ==> forall k | i <= k < j :: !IsBreak(document, k)
  {
    if i < j {
      LineOfGrows(document, i, j - 1);
    }
  }

  predicate MarkFits(document: string, m: Mark) {
    m.index <= |document| && m.line == LineOf(document, m.index)
  }

  /** A scalar with a value starts at a character that is neither blank nor the
      start of a comment, and ends behind one that is not blank or behind a line
      break. */
  predicate ScalarFits(document: string, n: Node)
    requires n.ScalarNode?
  {
    && MarkFits(document, n.start) && MarkFits(document, n.end)
    && n.start.index <= n.end.index
    && (n.value != "" ==>
          && n.start.index < n.end.index
          && !IsSpace(document[n.start.index]) && document[n.start.index] != '#'
          && (!IsSpace(document[n.end.index - 1]) || IsBreak(document, n.end.index - 1)))
  }

  predicate Blank(document: string, a: nat, b: nat)
    requires a <= b <= |document|
  {
    forall i | a <= i < b :: IsSpace(document[i])
  }

  /** A later node: not before, and not in a comment that starts in between. */
  ghost predicate Follows(document: string, a: nat, b: nat) {
    && a <= b <= |document|
    && forall i | a <= i < b && document[i] == '#' && Blank(document, a, i) ::
         exists j :: i < j < b && IsBreak(document, j)
  }

  /** What the parser's marks mean, for a document without anchors. */
  ghost predicate WellMarked(document: string, n: Node) {
    match n
    case ScalarNode(_, _, _, _) => ScalarFits(document, n)
    case OtherNode => true
    case MappingNode(entries) =>
      && (forall i | 0 <= i < |entries| :: WellMarked(document, entries[i].key) && WellMarked(document, entries[i].value))
      && (forall i | 0 <= i < |entries| :: KeyFirst(entries[i]))
      && (forall i, j | 0 <= i < j < |entries| :: InOrder(document, entries[i].value, entries[j].key))
  }

  predicate KeyFirst(e: NodeEntry) {
    e.key.ScalarNode? && e.value.ScalarNode? ==> e.key.end.index <= e.value.start.index
  }

  ghost predicate InOrder(document: string, a: Node, b: Node) {
    a.ScalarNode? && b.ScalarNode? ==> Follows(document, a.end.index, b.start.index)
  }

  // ----- looking values up -----

  function Matching(entries: seq<NodeEntry>, name: string): (matches: seq<NodeEntry>)
    ensures forall e | e in matches :: e in entries && e.key.ScalarNode? && e.key.value == name
  {
    if entries == [] then []
    else if entries[0].key.ScalarNode? && entries[0].key.value == name then [entries[0]] + Matching(entries[1..], name)
    else Matching(entries[1..], name)
  }

  /** _mapping_entry: None when the key is missing or given twice. */
  function MappingEntry(mapping: Node, name: string): (entry: Option<NodeEntry>)
    ensures entry.Some? ==>
              && mapping.MappingNode? && entry.value in mapping.entries
              && entry.value.key.ScalarNode? && entry.value.key.value == name
  {
    if !mapping.MappingNode? || |Matching(mapping.entries, name)| != 1 then None
    else Some(Matching(mapping.entries, name)[0])
  }

  function Walk(n: Node, path: seq<string>): Option<Node>
    decreases |path|
  {
    if path == [] then Some(n)
    else
      match MappingEntry(n, path[0])
      case None => None
      case Some(entry) => Walk(entry.value, path[1..])
  }

  /** _mapping_value */
  method MappingValue(root: Node, path: seq<string>) returns (value: Option<Node>)
    ensures value == Walk(root, path)
  {
    var current := root;
    var i := 0;
    while i < |path|
      invariant 0 <= i <= |path|
      invariant Walk(current, path[i..]) == Walk(root, path)
    {
      var entry := MappingEntry(current, path[i]);
      assert path[i..][1..] == path[i + 1..];
      if entry.None? {
        return None;
      }
      current := entry.value.value;
      i := i + 1;
    }
    return Some(current);
  }

  lemma {:induction false} WalkKeepsMarks(document: string, n: Node, path: seq<string>)
    requires WellMarked(document, n) && Walk(n, path).Some?
    ensures WellMarked(document, Walk(n, path).value)
    decreases |path|
  {
    if path != [] {
      var entry := MappingEntry(n, path[0]).value;
      var i :| 0 <= i < |n.entries| && n.entries[i] == entry;
      WalkKeepsMarks(document, entry.value, path[1..]);
    }
  }

  lemma {:induction false} WalkExtended(n: Node, path: seq<string>, name: string)
    ensures Walk(n, path + [name]) ==
            match Walk(n, path)
            case None => None
            case Some(inner) => match MappingEntry(inner, name) case None => None case Some(e) => Some(e.value)
    decreases |path|
  {
    if path == [] {
      assert path + [name] == [name] && [name][1..] == [];
    } else {
      assert (path + [name])[1..] == path[1..] + [name];
      var entry := MappingEntry(n, path[0]);
      if entry.Some? {
        WalkExtended(entry.value.value, path[1..], name);
      }
    }
  }

  // ----- _single_line_entry_span -----

  /** document.rfind("\n", 0, i) + 1 */
  function LineStart(document: string, i: nat): (start: nat)
    requires i <= |document|
    ensures start <= i && (start == 0 || document[start - 1] == '\n')
    ensures forall k | start <= k < i :: document[k] != '\n'
  {
    if i == 0 || document[i - 1] == '\n' then i else LineStart(document, i - 1)
  }

  function EntrySpan(document: string, key: Node, value: Node): Option<(nat, nat)>
    requires key.ScalarNode? && key.start.index <= |document|
    requires value.ScalarNode? && value.end.index <= |document|
  {
    var lineStart := LineStart(document, key.start.index);
    var newline := Find(document, '\n', value.end.index);
    var suffix := Strip(document[value.end.index..newline]);
    if key.start.line != value.end.line then None
    else if Strip(document[lineStart..key.start.index]) != "" then None
    else if suffix != "" && suffix[0] != '#' then None
    else Some((lineStart, if newline == |document| then |document| else newline + 1))
  }

  /** A stretch that starts a line, ends with its line feed or the document, and
      holds no other line feed. */
  predicate WholeLine(document: string, start: nat, end: nat) {
    && start < end <= |document|
    && (start == 0 || document[start - 1] == '\n')
    && (end == |document| || document[end - 1] == '\n')
    && forall k | start <= k < end - 1 :: document[k] != '\n'
  }

  /** The span is exactly one whole line, with the entry in it, nothing but blanks
      before the entry, and behind it only blanks or a comment. */
  lemma SpanIsOneLine(document: string, key: Node, value: Node)
    requires key.ScalarNode? && ScalarFits(document, key) && key.value != ""
    requires value.ScalarNode? && ScalarFits(document, value) && key.end.index <= value.start.index
    requires EntrySpan(document, key, value).Some?
    ensures var (start, end) := EntrySpan(document, key, value).value;
            && WholeLine(document, start, end)
            && start <= key.start.index <= value.end.index <= end
            && Blank(document, start, key.start.index)
            && (forall c | value.end.index <= c < end && Blank(document, value.end.index, c) && !IsSpace(document[c]) ::
                  document[c] == '#')
  {
    var lineStart := LineStart(document, key.start.index);
    var newline := Find(document, '\n', value.end.index);
    NoBreakOnLine(document, key.start.index, value.end.index);
    BlankStrip(document, lineStart, key.start.index);
    SuffixIsComment(document, value.end.index, newline);
  }

  lemma NoBreakOnLine(document: string, i: nat, j: nat)
    requires i <= j <= |document| && LineOf(document, i) == LineOf(document, j)
    ensures forall k | i <= k < j :: document[k] != '\n'
  {
    LineOfGrows(document, i, j);
    forall k | i <= k < j ensures document[k] != '\n' {
      assert !IsBreak(document, k);
    }
  }

  lemma BlankStrip(document: string, from: nat, to: nat)
    requires from <= to <= |document| && Strip(document[from..to]) == ""
    ensures Blank(document, from, to)
  {
    StripEmpty(document[from..to]);
    forall i | from <= i < to ensures IsSpace(document[i]) {
      assert document[from..to][i - from] == document[i];
    }
  }

  lemma SuffixIsComment(document: string, from: nat, newline: nat)
    requires from <= newline <= |document|
    requires newline < |document| ==> document[newline] == '\n'
    requires var suffix := Strip(document[from..newline]); suffix == "" || suffix[0] == '#'
    ensures forall c | from <= c < |document| && c <= newline && Blank(document, from, c) && !IsSpace(document[c]) ::
              document[c] == '#'
  {
    forall c | from <= c < |document| && c <= newline && Blank(document, from, c) && !IsSpace(document[c])
      ensures document[c] == '#'
    {
      var suffix := document[from..newline];
      assert forall i | 0 <= i < c - from :: suffix[i] == document[from + i];
      StripHead(suffix, c - from);
    }
  }

  /** Stripping exposes the first character that is not blank. */
  lemma {:induction false} StripHead(s: string, k: nat)
    requires k < |s| && !IsSpace(s[k]) && forall i | 0 <= i < k :: IsSpace(s[i])
    ensures Strip(s) != "" && Strip(s)[0] == s[k]
    decreases k
  {
    if k == 0 {
      StripRightKeepsHead(s);
    } else {
      StripHead(s[1..], k - 1);
    }
  }

  // ----- the two edits of a memory normalisation -----

  datatype Value =
    | Null
    | Bool(flag: bool)
    | Number(digits: string)
    | Words(text: string)
    | List(items: seq<Value>)
    | Dict(members: map<string, Value>)

  /** yaml.compose; None is a YAMLError or an empty document. */
  ghost predicate ComposesWellMarked(compose: string -> Option<Node>) {
    forall document :: compose(document).Some? ==> WellMarked(document, compose(document).value)
  }

  const NoNodes: string -> Option<Node> := (document: string) => None

  type Composer = f: string -> Option<Node> | ComposesWellMarked(f) ghost witness NoNodes

  /** load is yaml.safe_load; None is a YAMLError. */
  datatype Yaml = Yaml(compose: Composer, load: string -> Option<Value>)

  datatype Error = ContractInvalid | ToolsMustBeDisabled | MemoryAlreadyDisabled | PathsNotNormalizable | PathsAlreadyNormalized

  const BOOLEAN_TAG := "tag:yaml.org,2002:bool"

  /** _strict_boolean */
  function StrictBoolean(n: Node): Option<bool> {
    if n.ScalarNode? && n.tag == BOOLEAN_TAG && n.value == "true" then Some(true)
    else if n.ScalarNode? && n.tag == BOOLEAN_TAG && n.value == "false" then Some(false)
    else None
  }

  const MEMORY := ["capabilities", "memory"]
  const TOOLS_ENABLED := ["capabilities", "tools", "enabled"]

  /** The scalar entry of a name, if there is exactly one. */
  function ScalarEntry(mapping: Node, name: string): (entry: Option<NodeEntry>)
    ensures entry.Some? ==> entry == MappingEntry(mapping, name) && entry.value.value.ScalarNode?
  {
    match MappingEntry(mapping, name)
    case None => None
    case Some(e) => if e.value.ScalarNode? then Some(e) else None
  }

  lemma EntryIsFit(document: string, mapping: Node, name: string)
    requires WellMarked(document, mapping) && ScalarEntry(mapping, name).Some? && name != ""
    ensures EntryFits(document, ScalarEntry(mapping, name).value)
  {
    var e := ScalarEntry(mapping, name).value;
    var i :| 0 <= i < |mapping.entries| && mapping.entries[i] == e;
    EntryIsMarked(document, mapping, i);
  }

  ghost predicate EntryFits(document: string, e: NodeEntry) {
    && e.key.ScalarNode? && ScalarFits(document, e.key) && e.key.value != ""
    && e.value.ScalarNode? && ScalarFits(document, e.value)
    && e.key.end.index <= e.value.start.index
  }

  function ScalarBoolean(mapping: Node, name: string): Option<bool> {
    match ScalarEntry(mapping, name)
    case None => None
    case Some(e) => StrictBoolean(e.value)
  }

  /** The edits of an enabled memory mapping: no scopes, and a provider on a line
      of its own. */
  function MappingEdits(document: string, mapping: Node): Option<seq<Edit>>
    requires WellMarked(document, mapping) && ScalarEntry(mapping, "enabled").Some?
  {
    var provider := ScalarEntry(mapping, "provider");
    if |Matching(mapping.entries, "scopes")| != 0 || provider.None? then None
    else
      EntryIsFit(document, mapping, "provider");
      var span := EntrySpan(document, provider.value.key, provider.value.value);
      if span.None? then None else Some(EditsFor(ScalarEntry(mapping, "enabled").value.value, span.value))
  }

  function EditsFor(enabled: Node, span: (nat, nat)): seq<Edit>
    requires enabled.ScalarNode?
  {
    [Edit(enabled.start.index, enabled.end.index, "false"), Edit(span.0, span.1, "")]
  }

  function WalkFromRoot(yaml: Yaml, document: string, path: seq<string>): (n: Option<Node>)
    ensures n.Some? ==> WellMarked(document, n.value)
  {
    var root := yaml.compose(document);
    if root.None? || Walk(root.value, path).None? then None
    else
      WalkKeepsMarks(document, root.value, path);
      Walk(root.value, path)
  }

  /** The guards of _normalize_memory_mapping, and the edits they let through. */
  function MemoryEdits(yaml: Yaml, document: string): Result<seq<Edit>, Error> {
    var tools := WalkFromRoot(yaml, document, TOOLS_ENABLED);
    var mapping := WalkFromRoot(yaml, document, MEMORY);
    var before := yaml.load(document);
    if before.None? || tools.None? || StrictBoolean(tools.value).None? then Err(ContractInvalid)
    else if mapping.None? || ScalarBoolean(mapping.value, "enabled").None? then Err(ContractInvalid)
    else if StrictBoolean(tools.value).value then Err(ToolsMustBeDisabled)
    else if !ScalarBoolean(mapping.value, "enabled").value then Err(MemoryAlreadyDisabled)
    else
      match MappingEdits(document, mapping.value)
      case None => Err(ContractInvalid)
      case Some(edits) => if before.value.Dict? then Ok(edits) else Err(ContractInvalid)
  }

  ghost predicate LineFeedWithin(document: string, from: int, to: int) {
    exists k :: 0 <= k < |document| && from <= k < to && document[k] == '\n'
  }

  /** Between the two entries there is a line feed; a line feed that is the last
      character of an earlier value counts. */
  ghost predicate OnOtherLine(document: string, enabled: Node, provider: NodeEntry)
    requires enabled.ScalarNode? && provider.key.ScalarNode? && provider.value.ScalarNode?
  {
    || LineFeedWithin(document, enabled.end.index - 1, provider.key.start.index)
    || LineFeedWithin(document, provider.value.end.index, enabled.start.index)
  }

  /** The enabled value and the provider line do not overlap exactly when a line
      feed lies between the two entries. */
  lemma MemoryEditsAreSeparate(yaml: Yaml, document: string)
    requires MemoryEdits(yaml, document).Ok?
    ensures var mapping := WalkFromRoot(yaml, document, MEMORY).value;
            Separate(MemoryEdits(yaml, document).value, |document|) <==>
            OnOtherLine(document, ScalarEntry(mapping, "enabled").value.value, ScalarEntry(mapping, "provider").value)
  {
    MappingEditsAreSeparate(document, WalkFromRoot(yaml, document, MEMORY).value);
  }

  lemma MappingEditsAreSeparate(document: string, mapping: Node)
    requires WellMarked(document, mapping)
    requires ScalarBoolean(mapping, "enabled").Some? && MappingEdits(document, mapping).Some?
    ensures Separate(MappingEdits(document, mapping).value, |document|) <==>
            OnOtherLine(document, ScalarEntry(mapping, "enabled").value.value, ScalarEntry(mapping, "provider").value)
  {
    var enabled, provider := ScalarEntry(mapping, "enabled").value, ScalarEntry(mapping, "provider").value;
    assert enabled.key.value[0] != provider.key.value[0];
    EntriesAreOrdered(document, mapping, enabled, provider);
    SpanIsOneLine(document, provider.key, provider.value);
    var span := EntrySpan(document, provider.key, provider.value).value;
    if enabled.value.end.index <= provider.key.start.index {
      EarlierIsApart(document, enabled.value, provider);
    } else {
      LaterIsApart(document, enabled.value, provider);
    }
    SeparatePair(document, enabled.value, span);
  }

  lemma SeparatePair(document: string, enabled: Node, span: (nat, nat))
    requires enabled.ScalarNode? && enabled.start.index < enabled.end.index <= |document|
    requires span.0 < span.1 <= |document|
    ensures Separate(EditsFor(enabled, span), |document|) <==>
            enabled.end.index <= span.0 || span.1 <= enabled.start.index
  {
    var edits := EditsFor(enabled, span);
    assert Apart(edits[0], edits[1]) <==> enabled.end.index <= span.0 || span.1 <= enabled.start.index;
  }

  lemma EarlierIsApart(document: string, earlier: Node, entry: NodeEntry)
    requires earlier.ScalarNode? && ScalarFits(document, earlier) && earlier.value != ""
    requires EntryFits(document, entry) && EntrySpan(document, entry.key, entry.value).Some?
    requires earlier.end.index <= entry.key.start.index
    ensures earlier.end.index <= EntrySpan(document, entry.key, entry.value).value.0 <==> OnOtherLine(document, earlier, entry)
    ensures earlier.start.index < EntrySpan(document, entry.key, entry.value).value.1
  {
    SpanIsOneLine(document, entry.key, entry.value);
    var start := LineStart(document, entry.key.start.index);
    if earlier.end.index <= start {
      assert document[start - 1] == '\n';
    }
  }

  lemma LaterIsApart(document: string, later: Node, entry: NodeEntry)
    requires later.ScalarNode? && ScalarFits(document, later) && later.value != ""
    requires EntryFits(document, entry) && EntrySpan(document, entry.key, entry.value).Some?
    requires entry.value.end.index <= later.start.index
    ensures EntrySpan(document, entry.key, entry.value).value.1 <= later.start.index <==> OnOtherLine(document, later, entry)
    ensures later.end.index > EntrySpan(document, entry.key, entry.value).value.0
  {
    SpanIsOneLine(document, entry.key, entry.value);
    var newline := Find(document, '\n', entry.value.end.index);
    if newline < later.start.index {
      assert document[newline] == '\n';
    }
  }

  lemma EntriesAreOrdered(document: string, mapping: Node, other: NodeEntry, entry: NodeEntry)
    requires mapping.MappingNode? && WellMarked(document, mapping)
    requires other in mapping.entries && entry in mapping.entries && other != entry
    requires other.key.ScalarNode? && other.key.value != "" && other.value.ScalarNode? && other.value.value != ""
    requires entry.key.ScalarNode? && entry.key.value != "" && entry.value.ScalarNode?
    ensures EntryFits(document, entry) && EntryFits(document, other)
    ensures other.value.end.index <= entry.key.start.index || Follows(document, entry.value.end.index, other.key.start.index)
  {
    var i :| 0 <= i < |mapping.entries| && mapping.entries[i] == other;
    var j :| 0 <= j < |mapping.entries| && mapping.entries[j] == entry;
    EntryIsMarked(document, mapping, i);
    EntryIsMarked(document, mapping, j);
    if i < j {
      assert InOrder(document, other.value, entry.key);
    } else {
      assert InOrder(document, entry.value, other.key);
    }
  }

  /** Every line break of YAML in the document is a line feed, alone or behind a
      carriage return. */
  ghost predicate LinesEndWithLineFeeds(document: string) {
    forall i | 0 <= i < |document| && IsBreak(document, i) :: document[i] == '\n'
  }

  /** In a document with ordinary line ends, with or without carriage returns, the
      edits never overlap. */
  lemma LineFeedsKeepEditsSeparate(yaml: Yaml, document: string)
    requires MemoryEdits(yaml, document).Ok? && LinesEndWithLineFeeds(document)
    ensures Separate(MemoryEdits(yaml, document).value, |document|)
  {
    var mapping := WalkFromRoot(yaml, document, MEMORY).value;
    var enabled, provider := ScalarEntry(mapping, "enabled").value, ScalarEntry(mapping, "provider").value;
    assert enabled.key.value[0] != provider.key.value[0];
    MemoryEditsAreSeparate(yaml, document);
    EntriesAreOrdered(document, mapping, enabled, provider);
    LineFeedBetween(document, enabled, provider);
  }

  lemma LineFeedBetween(document: string, other: NodeEntry, entry: NodeEntry)
    requires LinesEndWithLineFeeds(document) && EntryFits(document, entry) && EntryFits(document, other)
    requires other.value.value != "" && EntrySpan(document, entry.key, entry.value).Some?
    requires other.value.end.index <= entry.key.start.index || Follows(document, entry.value.end.index, other.key.start.index)
    ensures OnOtherLine(document, other.value, entry)
  {
    SpanIsOneLine(document, entry.key, entry.value);
    var span := EntrySpan(document, entry.key, entry.value).value;
    if other.value.end.index <= entry.key.start.index {
      BlanksKeepOut(document, span.0, entry.key.start.index, other.value.end.index - 1, span.1);
      EarlierIsApart(document, other.value, entry);
    } else {
      CommentKeepsOut(document, span.0, entry.value.end.index, other.key.start.index, span.1);
      LaterIsApart(document, other.value, entry);
    }
  }

  lemma EntryIsMarked(document: string, mapping: Node, i: nat)
    requires mapping.MappingNode? && WellMarked(document, mapping) && i < |mapping.entries|
    requires var e := mapping.entries[i]; e.key.ScalarNode? && e.value.ScalarNode? && e.key.value != ""
    ensures EntryFits(document, mapping.entries[i])
  {
    assert KeyFirst(mapping.entries[i]);
    assert WellMarked(document, mapping.entries[i].key) && WellMarked(document, mapping.entries[i].value);
  }

  /** Nothing visible ends between the start of a line and its first entry. */
  lemma BlanksKeepOut(document: string, start: nat, at: nat, last: nat, end: nat)
    requires LinesEndWithLineFeeds(document) && WholeLine(document, start, end) && start <= at < end
    requires Blank(document, start, at) && last < at
    requires !IsSpace(document[last]) || IsBreak(document, last)
    ensures last < start
  {
  }

  /** Nothing starts behind an entry that only blanks or a comment follow. */
  lemma CommentKeepsOut(document: string, start: nat, from: nat, at: nat, end: nat)
    requires LinesEndWithLineFeeds(document) && WholeLine(document, start, end) && start <= from <= end
    requires forall c | from <= c < end && Blank(document, from, c) && !IsSpace(document[c]) :: document[c] == '#'
    requires Follows(document, from, at) && at < |document| && !IsSpace(document[at]) && document[at] != '#'
    ensures end <= at
  {
    if at < end {
      FirstVisible(document, from, at);
      var c :| from <= c <= at && Blank(document, from, c) && !IsSpace(document[c]);
      NoBreakWithin(document, start, c, at, end);
    }
  }

  lemma NoBreakWithin(document: string, start: nat, c: nat, at: nat, end: nat)
    requires LinesEndWithLineFeeds(document) && WholeLine(document, start, end) && start <= c <= at < end
    ensures forall j | c < j < at :: !IsBreak(document, j)
  {
  }

  lemma {:induction false} FirstVisible(document: string, from: nat, at: nat)
    requires from <= at < |document| && !IsSpace(document[at])
    ensures exists c :: from <= c <= at && Blank(document, from, c) && !IsSpace(document[c])
    decreases at - from
  {
    if !IsSpace(document[from]) {
      assert Blank(document, from, from);
    } else {
      FirstVisible(document, from + 1, at);
      var c :| from + 1 <= c <= at && Blank(document, from + 1, c) && !IsSpace(document[c]);
      assert Blank(document, from, c);
    }
  }

  // A document whose guards pass and whose edits overlap: the carriage return
  // ends the comment for YAML but not the line the span takes.

  const FIRST_LINE := "{capabilities: " + "{tools: " + "{enabled: false}, " + "memory: {"
  const MIXED := FIRST_LINE + "\n" + "provider: x #" + "\r" + ", enabled: true}}}"

  function Plain(tag: string, value: string, start: nat, end: nat, line: nat): Node {
    ScalarNode(tag, value, Mark(start, line), Mark(end, line))
  }

  const MIXED_PROVIDER := NodeEntry(Plain("", "provider", 51, 59, 1), Plain("", "x", 61, 62, 1))
  const MIXED_ENABLED := NodeEntry(Plain("", "enabled", 67, 74, 2), Plain(BOOLEAN_TAG, "true", 76, 80, 2))
  const MIXED_MEMORY := MappingNode([MIXED_PROVIDER, MIXED_ENABLED])
  const MIXED_TOOLS := MappingNode([NodeEntry(Plain("", "enabled", 24, 31, 0), Plain(BOOLEAN_TAG, "false", 33, 38, 0))])
  const MIXED_CAPABILITIES := MappingNode([
    NodeEntry(Plain("", "tools", 16, 21, 0), MIXED_TOOLS), NodeEntry(Plain("", "memory", 41, 47, 0), MIXED_MEMORY)])
  const MIXED_ROOT := MappingNode([NodeEntry(Plain("", "capabilities", 1, 13, 0), MIXED_CAPABILITIES)])

  /** The composer that knows one document only. */
  function ComposeOne(document: string, root: Node): (compose: string -> Option<Node>)
    ensures compose(document) == Some(root)
    ensures WellMarked(document, root) ==> ComposesWellMarked(compose)
  {
    text => if text == document then Some(root) else None
  }

  function LoadMixed(document: string): Option<Value> {
    var memory := Dict(map["provider" := Words("x"), "enabled" := Bool(true)]);
    var tools := Dict(map["enabled" := Bool(false)]);
    Some(Dict(map["capabilities" := Dict(map["tools" := tools, "memory" := memory])]))
  }

  /** The edits really can overlap: this document passes every guard. */
  lemma CarriageReturnHidesEntry()
    ensures exists yaml: Yaml, document ::
              && MemoryEdits(yaml, document).Ok?
              && !Separate(MemoryEdits(yaml, document).value, |document|)
  {
    MixedIsMarked();
    MixedWalks();
    MixedEditsOf(MIXED, ComposeOne(MIXED, MIXED_ROOT));
  }

  lemma MixedEditsOf(document: string, compose: Composer)
    requires document == MIXED && compose(document) == Some(MIXED_ROOT) && |MIXED| == 83
    requires Walk(MIXED_ROOT, TOOLS_ENABLED) == Some(MIXED_TOOLS.entries[0].value)
    requires Walk(MIXED_ROOT, MEMORY) == Some(MIXED_MEMORY)
    requires MappingEntry(MIXED_MEMORY, "enabled") == Some(MIXED_ENABLED)
    requires MappingEntry(MIXED_MEMORY, "provider") == Some(MIXED_PROVIDER)
    requires Matching(MIXED_MEMORY.entries, "scopes") == []
    requires EntrySpan(MIXED, MIXED_PROVIDER.key, MIXED_PROVIDER.value) == Some((51, 83))
    ensures exists yaml: Yaml ::
              MemoryEdits(yaml, document).Ok? && !Separate(MemoryEdits(yaml, document).value, |document|)
  {
    MixedEdits(Yaml(compose, LoadMixed));
  }

  lemma MixedIsMarked()
    ensures |MIXED| == 83 && WellMarked(MIXED, MIXED_ROOT)
    ensures EntrySpan(MIXED, MIXED_PROVIDER.key, MIXED_PROVIDER.value) == Some((51, 83))
  {
    MixedCharacters(MIXED, FIRST_LINE);
    MixedLines(MIXED);
    MixedMarks(MIXED);
    MixedSpan(MIXED);
  }

  lemma MixedEdits(yaml: Yaml)
    requires yaml.compose(MIXED) == Some(MIXED_ROOT) && yaml.load(MIXED) == LoadMixed(MIXED) && |MIXED| == 83
    requires Walk(MIXED_ROOT, TOOLS_ENABLED) == Some(MIXED_TOOLS.entries[0].value)
    requires Walk(MIXED_ROOT, MEMORY) == Some(MIXED_MEMORY)
    requires MappingEntry(MIXED_MEMORY, "enabled") == Some(MIXED_ENABLED)
    requires MappingEntry(MIXED_MEMORY, "provider") == Some(MIXED_PROVIDER)
    requires Matching(MIXED_MEMORY.entries, "scopes") == []
    requires EntrySpan(MIXED, MIXED_PROVIDER.key, MIXED_PROVIDER.value) == Some((51, 83))
    ensures MemoryEdits(yaml, MIXED).Ok? && !Separate(MemoryEdits(yaml, MIXED).value, |MIXED|)
  {
    SeparatePair(MIXED, MIXED_ENABLED.value, (51, 83));
    IsBoolean(MIXED_ENABLED.value);
    IsBoolean(MIXED_TOOLS.entries[0].value);
    WalkKeepsMarks(MIXED, MIXED_ROOT, MEMORY);
    EditsOfMapping(MIXED, MIXED_MEMORY, MIXED_ENABLED, MIXED_PROVIDER, (51, 83));
    EditsOfDocument(yaml, MIXED, MIXED_ROOT, MIXED_TOOLS.entries[0].value, MIXED_MEMORY);
  }

  lemma IsBoolean(n: Node)
    requires n.ScalarNode? && n.tag == BOOLEAN_TAG && n.value in {"true", "false"}
    ensures StrictBoolean(n) == Some(n.value == "true")
  {
  }

  lemma EditsOfMapping(document: string, mapping: Node, enabled: NodeEntry, provider: NodeEntry, span: (nat, nat))
    requires WellMarked(document, mapping) && enabled.value.ScalarNode?
    requires MappingEntry(mapping, "enabled") == Some(enabled) && MappingEntry(mapping, "provider") == Some(provider)
    requires EntryFits(document, provider) && EntrySpan(document, provider.key, provider.value) == Some(span)
    requires Matching(mapping.entries, "scopes") == []
    ensures ScalarEntry(mapping, "enabled") == Some(enabled)
    ensures MappingEdits(document, mapping) == Some(EditsFor(enabled.value, span))
  {
  }

  lemma EditsOfDocument(yaml: Yaml, document: string, root: Node, tools: Node, mapping: Node)
    requires yaml.compose(document) == Some(root) && yaml.load(document).Some? && yaml.load(document).value.Dict?
    requires Walk(root, TOOLS_ENABLED) == Some(tools) && StrictBoolean(tools) == Some(false)
    requires Walk(root, MEMORY) == Some(mapping) && WellMarked(document, mapping)
    requires ScalarBoolean(mapping, "enabled") == Some(true) && MappingEdits(document, mapping).Some?
    ensures MemoryEdits(yaml, document) == Ok(MappingEdits(document, mapping).value)
  {
  }

  lemma MixedWalks()
    ensures Walk(MIXED_ROOT, TOOLS_ENABLED) == Some(MIXED_TOOLS.entries[0].value)
    ensures Walk(MIXED_ROOT, MEMORY) == Some(MIXED_MEMORY)
    ensures MappingEntry(MIXED_MEMORY, "enabled") == Some(MIXED_ENABLED)
    ensures MappingEntry(MIXED_MEMORY, "provider") == Some(MIXED_PROVIDER)
    ensures Matching(MIXED_MEMORY.entries, "scopes") == []
  {
    OnlyEntry(MIXED_ROOT.entries[0]);
    OnlyEntry(MIXED_TOOLS.entries[0]);
    assert "tools"[0] != "memory"[0] && "provider"[0] != "enabled"[0] && "scopes"[0] != "enabled"[0] && "scopes"[0] != "provider"[0];
    TwoEntries(MIXED_CAPABILITIES.entries[0], MIXED_CAPABILITIES.entries[1]);
    TwoEntries(MIXED_PROVIDER, MIXED_ENABLED);
    NoEntry(MIXED_PROVIDER, MIXED_ENABLED, "scopes");
    assert TOOLS_ENABLED[1..] == ["tools", "enabled"] && ["tools", "enabled"][1..] == ["enabled"] && ["enabled"][1..] == [];
    assert MEMORY[1..] == ["memory"] && ["memory"][1..] == [];
  }

  lemma OnlyEntry(e: NodeEntry)
    requires e.key.ScalarNode?
    ensures MappingEntry(MappingNode([e]), e.key.value) == Some(e)
  {
    assert [e][1..] == [];
    assert Matching([e], e.key.value) == [e] + Matching([], e.key.value);
  }

  lemma TwoEntries(e: NodeEntry, f: NodeEntry)
    requires e.key.ScalarNode? && f.key.ScalarNode? && e.key.value != f.key.value
    ensures MappingEntry(MappingNode([e, f]), e.key.value) == Some(e)
    ensures MappingEntry(MappingNode([e, f]), f.key.value) == Some(f)
  {
    assert [e, f][1..] == [f] && [f][1..] == [];
    assert Matching([f], f.key.value) == [f] + Matching([], f.key.value);
    assert Matching([f], e.key.value) == Matching([], e.key.value);
  }

  lemma NoEntry(e: NodeEntry, f: NodeEntry, name: string)
    requires e.key.ScalarNode? && f.key.ScalarNode? && e.key.value != name && f.key.value != name
    ensures Matching([e, f], name) == []
  {
    assert [e, f][1..] == [f] && [f][1..] == [];
    assert Matching([f], name) == Matching([], name);
  }

  predicate Ordinary(c: char) {
    c != '\n' && c != '\r' && !IsOtherBreak(c)
  }

  predicate AllOrdinary(s: string) {
    forall i | 0 <= i < |s| :: Ordinary(s[i])
  }

  /** The characters the marks speak of. */
  predicate MixedShape(d: string) {
    && |d| == 83 && d[50] == '\n' && d[64] == '\r' && d[65] == ','
    && (forall k | 0 <= k < 83 && k != 50 && k != 64 :: Ordinary(d[k]))
    && d[1] == 'c' && d[12] == 's' && d[16] == 't' && d[20] == 's' && d[24] == 'e' && d[30] == 'd'
    && d[33] == 'f' && d[37] == 'e' && d[41] == 'm' && d[46] == 'y'
    && d[51] == 'p' && d[58] == 'r' && d[61] == 'x' && d[62] == ' ' && d[63] == '#'
    && d[67] == 'e' && d[73] == 'd' && d[76] == 't' && d[79] == 'e'
  }

  lemma MixedCharacters(d: string, first: string)
    requires first == FIRST_LINE && d == first + "\n" + "provider: x #" + "\r" + ", enabled: true}}}"
    ensures MixedShape(d)
  {
    var second, third := "provider: x #", ", enabled: true}}}";
    FirstLine(first);
    assert |second| == 13 && |third| == 18;
    assert AllOrdinary(second) && AllOrdinary(third);
    assert forall k | 0 <= k < 50 :: d[k] == first[k];
    assert forall k | 51 <= k < 64 :: d[k] == second[k - 51];
    assert forall k | 65 <= k < 83 :: d[k] == third[k - 65];
  }

  lemma FirstLine(first: string)
    requires first == FIRST_LINE
    ensures |first| == 50 && AllOrdinary(first)
    ensures first[1] == 'c' && first[12] == 's' && first[16] == 't' && first[20] == 's' && first[24] == 'e' && first[30] == 'd'
    ensures first[33] == 'f' && first[37] == 'e' && first[41] == 'm' && first[46] == 'y'
  {
    var a, b, c, d := "{capabilities: ", "{tools: ", "{enabled: false}, ", "memory: {";
    LinePieces(a, b, c, d);
    assert first == a + b + c + d;
    Joined(a, b, c, d);
  }

  lemma LinePieces(a: string, b: string, c: string, d: string)
    requires a == "{capabilities: " && b == "{tools: " && c == "{enabled: false}, " && d == "memory: {"
    ensures |a| == 15 && |b| == 8 && |c| == 18 && |d| == 9
    ensures AllOrdinary(a) && AllOrdinary(b) && AllOrdinary(c) && AllOrdinary(d)
    ensures a[1] == 'c' && a[12] == 's' && b[1] == 't' && b[5] == 's' && c[1] == 'e' && c[7] == 'd' && c[10] == 'f'
    ensures c[14] == 'e' && d[0] == 'm' && d[5] == 'y'
  {
  }

  lemma Joined(a: string, b: string, c: string, d: string)
    requires |a| == 15 && |b| == 8 && |c| == 18 && |d| == 9
    ensures forall k | 0 <= k < 15 :: (a + b + c + d)[k] == a[k]
    ensures forall k | 15 <= k < 23 :: (a + b + c + d)[k] == b[k - 15]
    ensures forall k | 23 <= k < 41 :: (a + b + c + d)[k] == c[k - 23]
    ensures forall k | 41 <= k < 50 :: (a + b + c + d)[k] == d[k - 41]
  {
  }

  lemma MixedSpan(d: string)
    requires MixedShape(d)
    ensures EntrySpan(d, MIXED_PROVIDER.key, MIXED_PROVIDER.value) == Some((51, 83))
  {
    assert d[51..51] == "";
    assert Find(d, '\n', 62) == 83;
    var suffix := d[62..83];
    assert suffix[0] == ' ' && suffix[1] == '#';
    StripHead(suffix, 1);
  }

  lemma MixedMarks(d: string)
    requires MixedShape(d)
    requires forall k | 0 <= k <= 50 :: LineOf(d, k) == 0
    requires forall k | 51 <= k <= 64 :: LineOf(d, k) == 1
    requires forall k | 65 <= k <= 83 :: LineOf(d, k) == 2
    ensures WellMarked(d, MIXED_ROOT)
  {
    assert IsBreak(d, 64);
    assert Follows(d, 62, 67);
    assert ScalarFits(d, MIXED_PROVIDER.key) && ScalarFits(d, MIXED_PROVIDER.value);
    assert ScalarFits(d, MIXED_ENABLED.key) && ScalarFits(d, MIXED_ENABLED.value);
    PairIsMarked(d, MIXED_PROVIDER, MIXED_ENABLED);
    OneIsMarked(d, MIXED_TOOLS.entries[0]);
    PairIsMarked(d, MIXED_CAPABILITIES.entries[0], MIXED_CAPABILITIES.entries[1]);
    OneIsMarked(d, MIXED_ROOT.entries[0]);
  }

  lemma OneIsMarked(d: string, e: NodeEntry)
    requires WellMarked(d, e.key) && WellMarked(d, e.value) && KeyFirst(e)
    ensures WellMarked(d, MappingNode([e]))
  {
  }

  lemma PairIsMarked(d: string, e: NodeEntry, f: NodeEntry)
    requires WellMarked(d, e.key) && WellMarked(d, e.value) && KeyFirst(e)
    requires WellMarked(d, f.key) && WellMarked(d, f.value) && KeyFirst(f)
    requires InOrder(d, e.value, f.key)
    ensures WellMarked(d, MappingNode([e, f]))
  {
  }

  lemma MixedLines(d: string)
    requires MixedShape(d)
    ensures forall k | 0 <= k <= 50 :: LineOf(d, k) == 0
    ensures forall k | 51 <= k <= 64 :: LineOf(d, k) == 1
    ensures forall k | 65 <= k <= 83 :: LineOf(d, k) == 2
  {
    assert IsBreak(d, 50) && IsBreak(d, 64);
    assert LineOf(d, 0) == 0;
    forall k | 0 <= k <= 50 ensures LineOf(d, k) == 0 {
      LineOfFlat(d, 0, k);
    }
    forall k | 51 <= k <= 64 ensures LineOf(d, k) == 1 {
      LineOfFlat(d, 51, k);
    }
    forall k | 65 <= k <= 83 ensures LineOf(d, k) == 2 {
      LineOfFlat(d, 65, k);
    }
  }

  lemma {:induction false} LineOfFlat(document: string, i: nat, j: nat)
    requires i <= j <= |document| && forall k | i <= k < j :: !IsBreak(document, k)
    ensures LineOf(document, i) == LineOf(document, j)
  {
    if i < j {
      LineOfFlat(document, i, j - 1);
    }
  }

  // ----- the normalised contracts -----

  /** The value a path of keys leads to. */
  function At(v: Value, path: seq<string>): Option<Value>
    decreases |path|
  {
    if path == [] then Some(v)
    else if v.Dict? && path[0] in v.members then At(v.members[path[0]], path[1..])
    else None
  }

  /** expected["capabilities"]["memory"], changed; None is a KeyError or
      TypeError. */
  function WithMemoryDisabled(before: Value): Option<Value> {
    if !(before.Dict? && MEMORY[0] in before.members) then None
    else
      var capabilities := before.members[MEMORY[0]];
      if !(capabilities.Dict? && MEMORY[1] in capabilities.members) then None
      else
        var memory := capabilities.members[MEMORY[1]];
        if !(memory.Dict? && "provider" in memory.members) then None
        else
          var changed := Dict(memory.members["enabled" := Bool(false)] - {"provider"});
          Some(Dict(before.members[MEMORY[0] := Dict(capabilities.members[MEMORY[1] := changed])]))
  }

  /** Memory is off and its provider gone; everything else is as before. */
  lemma OnlyMemoryChanges(before: Value, after: Value, path: seq<string>)
    requires WithMemoryDisabled(before) == Some(after)
    ensures At(after, MEMORY + ["enabled"]) == Some(Bool(false))
    ensures At(after, MEMORY + ["provider"]) == None && At(before, MEMORY + ["provider"]).Some?
    ensures !(path <= MEMORY) && !(MEMORY + ["enabled"] <= path) && !(MEMORY + ["provider"] <= path) ==>
              At(after, path) == At(before, path)
  {
    var c, m := MEMORY[0], MEMORY[1];
    AtThree(after, c, m, "enabled");
    AtThree(after, c, m, "provider");
    AtThree(before, c, m, "provider");
    if path != [] && path[0] == c {
      CapabilitiesOtherwiseSame(before.members[c], after.members[c], path[1..]);
      if |path| > 1 && path[1] == m {
        assert path[..2] == MEMORY;
        assert |path| > 2 ==> path[..3] == MEMORY + [path[2]];
      } else {
        assert path == [c] ==> path == MEMORY[..1];
      }
    }
  }

  lemma CapabilitiesOtherwiseSame(before: Value, after: Value, path: seq<string>)
    requires before.Dict? && MEMORY[1] in before.members && before.members[MEMORY[1]].Dict?
    requires var memory := before.members[MEMORY[1]].members["enabled" := Bool(false)] - {"provider"};
             after == Dict(before.members[MEMORY[1] := Dict(memory)])
    ensures path != [] && path[0] != MEMORY[1] ==> At(after, path) == At(before, path)
    ensures |path| > 1 && path[0] == MEMORY[1] && path[1] != "enabled" && path[1] != "provider" ==>
              At(after, path) == At(before, path)
  {
    if |path| > 1 && path[0] == MEMORY[1] {
      var inner := path[1..];
      assert At(after, path) == At(after.members[MEMORY[1]], inner);
      assert At(before, path) == At(before.members[MEMORY[1]], inner);
    }
  }

  lemma AtCons(v: Value, key: string, rest: seq<string>)
    ensures At(v, [key] + rest) == if v.Dict? && key in v.members then At(v.members[key], rest) else None
  {
    assert ([key] + rest)[1..] == rest;
  }

  lemma AtThree(v: Value, a: string, b: string, c: string)
    ensures At(v, [a, b] + [c]) ==
            if v.Dict? && a in v.members && v.members[a].Dict? && b in v.members[a].members
               && v.members[a].members[b].Dict? && c in v.members[a].members[b].members
            then Some(v.members[a].members[b].members[c]) else None
  {
    assert [a, b] + [c] == [a] + ([b] + ([c] + []));
    AtCons(v, a, [b] + ([c] + []));
    if v.Dict? && a in v.members {
      var inner := v.members[a];
      AtCons(inner, b, [c] + []);
      if inner.Dict? && b in inner.members {
        AtCons(inner.members[b], c, []);
      }
    }
  }

  /** _normalize_memory_mapping: a candidate is returned only when it parses to
      the old value with exactly the memory capability changed, and then it is
      the old text with exactly the two edits made. */
  method NormalizeMemoryMapping(yaml: Yaml, document: string) returns (r: Result<string, Error>)
    ensures MemoryEdits(yaml, document).Err? ==> r == Err(MemoryEdits(yaml, document).error)
    ensures MemoryEdits(yaml, document).Ok? ==>
              var candidate := SpliceAll(document, Descending(MemoryEdits(yaml, document).value));
              var expected := WithMemoryDisabled(yaml.load(document).value);
              r == if expected.Some? && yaml.load(candidate) == expected then Ok(candidate) else Err(ContractInvalid)
    ensures r.Ok? && Separate(MemoryEdits(yaml, document).value, |document|) ==>
              var sorted := Descending(MemoryEdits(yaml, document).value);
              Backwards(sorted, |document|) && r.value == Substituted(document, sorted, |document|)
    ensures MemoryEdits(yaml, document).Ok? && LinesEndWithLineFeeds(document) ==>
              Separate(MemoryEdits(yaml, document).value, |document|)
  {
    var edits := MemoryEdits(yaml, document);
    if edits.Err? {
      return Err(edits.error);
    }
    var before := yaml.load(document).value;
    var candidate := ApplyEdits(document, edits.value);
    if LinesEndWithLineFeeds(document) {
      LineFeedsKeepEditsSeparate(yaml, document);
    }
    var expected := WithMemoryDisabled(before);
    if expected.None? || yaml.load(candidate) != expected {
      return Err(ContractInvalid);
    }
    return Ok(candidate);
  }

  const AUDIT := ["audit"]
  const LEGACY_TRACE_PATH := "../../runs/latest/trace.jsonl"
  const LEGACY_RECEIPT_PATH := "../../runs/latest/governance_receipt.md"
  const NORMALIZED_TRACE_PATH := "./trace.jsonl"
  const NORMALIZED_RECEIPT_PATH := "./governance_receipt.md"

  /** The guards of _normalize_audit_paths, and the edits they let through. */
  function AuditEdits(yaml: Yaml, document: string): Result<seq<Edit>, Error> {
    var audit := WalkFromRoot(yaml, document, AUDIT);
    var before := yaml.load(document);
    if before.None? || audit.None? then Err(PathsNotNormalizable)
    else if ScalarEntry(audit.value, "trace_path").None? || ScalarEntry(audit.value, "receipt_path").None? then
      Err(PathsNotNormalizable)
    else if !before.value.Dict? then Err(PathsNotNormalizable)
    else
      var trace := ScalarEntry(audit.value, "trace_path").value.value;
      var receipt := ScalarEntry(audit.value, "receipt_path").value.value;
      if trace.value == NORMALIZED_TRACE_PATH && receipt.value == NORMALIZED_RECEIPT_PATH then Err(PathsAlreadyNormalized)
      else if trace.value != LEGACY_TRACE_PATH || receipt.value != LEGACY_RECEIPT_PATH then Err(PathsNotNormalizable)
      else Ok([ScalarEdit(trace, NORMALIZED_TRACE_PATH), ScalarEdit(receipt, NORMALIZED_RECEIPT_PATH)])
  }

  function ScalarEdit(n: Node, text: string): Edit
    requires n.ScalarNode?
  {
    Edit(n.start.index, n.end.index, text)
  }

  /** Two values of one mapping never overlap, whatever ends the lines. */
  lemma ValuesAreApart(document: string, mapping: Node, a: NodeEntry, b: NodeEntry, x: string, y: string)
    requires mapping.MappingNode? && WellMarked(document, mapping) && a in mapping.entries && b in mapping.entries && a != b
    requires a.key.ScalarNode? && a.key.value != "" && a.value.ScalarNode? && a.value.value != ""
    requires b.key.ScalarNode? && b.key.value != "" && b.value.ScalarNode? && b.value.value != ""
    ensures Separate([ScalarEdit(a.value, x), ScalarEdit(b.value, y)], |document|)
  {
    var i :| 0 <= i < |mapping.entries| && mapping.entries[i] == a;
    var j :| 0 <= j < |mapping.entries| && mapping.entries[j] == b;
    EntryIsMarked(document, mapping, i);
    EntryIsMarked(document, mapping, j);
    if i < j {
      assert InOrder(document, a.value, b.key);
    } else {
      assert InOrder(document, b.value, a.key);
    }
  }

  lemma AuditEditsAreSeparate(yaml: Yaml, document: string)
    requires AuditEdits(yaml, document).Ok?
    ensures Separate(AuditEdits(yaml, document).value, |document|)
  {
    var audit := WalkFromRoot(yaml, document, AUDIT).value;
    assert "trace_path"[0] != "receipt_path"[0];
    ValuesAreApart(document, audit, ScalarEntry(audit, "trace_path").value, ScalarEntry(audit, "receipt_path").value,
      NORMALIZED_TRACE_PATH, NORMALIZED_RECEIPT_PATH);
  }

  function WithAuditPaths(before: Value): Option<Value> {
    if before.Dict? && AUDIT[0] in before.members && before.members[AUDIT[0]].Dict? then
      var audit := before.members[AUDIT[0]].members;
      var changed := audit["trace_path" := Words(NORMALIZED_TRACE_PATH)]["receipt_path" := Words(NORMALIZED_RECEIPT_PATH)];
      Some(Dict(before.members[AUDIT[0] := Dict(changed)]))
    else None
  }

  /** _normalize_audit_paths */
  method NormalizeAuditPaths(yaml: Yaml, document: string) returns (r: Result<string, Error>)
    ensures AuditEdits(yaml, document).Err? ==> r == Err(AuditEdits(yaml, document).error)
    ensures AuditEdits(yaml, document).Ok? ==>
              var sorted := Descending(AuditEdits(yaml, document).value);
              var expected := WithAuditPaths(yaml.load(document).value);
              && Backwards(sorted, |document|)
              && var candidate := Substituted(document, sorted, |document|);
              r == if expected.Some? && yaml.load(candidate) == expected then Ok(candidate) else Err(PathsNotNormalizable)
  {
    var edits := AuditEdits(yaml, document);
    if edits.Err? {
      return Err(edits.error);
    }
    AuditEditsAreSeparate(yaml, document);
    var candidate := ApplyEdits(document, edits.value);
    var expected := WithAuditPaths(yaml.load(document).value);
    if expected.None? || yaml.load(candidate) != expected {
      return Err(PathsNotNormalizable);
    }
    return Ok(candidate);
  }
}
