/** Which spellings of an artifact URI the canonical form tells apart
    (proof_agent/contracts/knowledge_index.py): the case of the scheme and of the
    authority, and an explicit default port. */
module UriEquivalence {
  import opened Text
  import opened PercentEncoding
  import opened ArtifactUri

  // ----- texts that differ in case only -----

  predicate IsLetter(c: char) {
    'A' <= c <= 'Z' || 'a' <= c <= 'z'
  }

  predicate SameButCase(a: string, b: string) {
    Lower(a) == Lower(b)
  }

  lemma CharacterAt(a: string, b: string, i: nat)
    requires SameButCase(a, b) && i < |a|
    ensures |a| == |b| && LowerChar(a[i]) == LowerChar(b[i])
    ensures a[i] == b[i] || (IsLetter(a[i]) && IsLetter(b[i]))
  {
    assert Lower(a)[i] == LowerChar(a[i]) && Lower(b)[i] == LowerChar(b[i]);
    assert |Lower(a)| == |a| && |Lower(b)| == |b|;
  }

  lemma CharactersMatch(a: string, b: string)
    requires SameButCase(a, b)
    ensures |a| == |b|
    ensures forall i | 0 <= i < |a| :: a[i] == b[i] || (IsLetter(a[i]) && IsLetter(b[i]))
  {
    assert |Lower(a)| == |a| && |Lower(b)| == |b|;
    forall i | 0 <= i < |a| ensures a[i] == b[i] || (IsLetter(a[i]) && IsLetter(b[i])) {
      CharacterAt(a, b, i);
    }
  }

  lemma SliceMatches(a: string, b: string, i: nat, j: nat)
    requires SameButCase(a, b) && i <= j <= |a|
    ensures |a| == |b| && SameButCase(a[i..j], b[i..j])
  {
    CharactersMatch(a, b);
    assert Lower(a[i..j]) == Lower(a)[i..j];
    assert Lower(b[i..j]) == Lower(b)[i..j];
  }

  lemma PlaceMatches(a: string, b: string, c: char)
    requires SameButCase(a, b) && !IsLetter(c)
    ensures Find(a, c, 0) == Find(b, c, 0) && (c in a <==> c in b)
  {
    CharactersMatch(a, b);
    LowerKeepsOthers(a, c);
    LowerKeepsOthers(b, c);
    var i, j := Find(a, c, 0), Find(b, c, 0);
    assert i < |a| ==> b[i] == c;
    assert j < |b| ==> a[j] == c;
  }

  lemma PartsMatch(a: string, b: string, c: char)
    requires SameButCase(a, b) && !IsLetter(c)
    ensures SameButCase(Before(a, c), Before(b, c)) && SameButCase(After(a, c), After(b, c))
    ensures c in a <==> c in b
  {
    PlaceMatches(a, b, c);
    CharactersMatch(a, b);
    var i := Find(a, c, 0);
    SliceMatches(a, b, 0, i);
    assert a[..i] == a[0..i] && b[..i] == b[0..i];
    if i < |a| {
      SliceMatches(a, b, i + 1, |a|);
      assert a[i + 1..] == a[i + 1..|a|] && b[i + 1..] == b[i + 1..|a|];
    }
  }

  lemma NoLettersIsSame(a: string, b: string)
    requires SameButCase(a, b) && forall c | c in a :: !IsLetter(c)
    ensures a == b
  {
    CharactersMatch(a, b);
    forall i | 0 <= i < |a| ensures a[i] == b[i] {
      assert a[i] in a;
    }
  }

  // ----- the character checks -----

  lemma SequenceLengthMatches(a: string, b: string)
    requires SameButCase(a, b) && a != ""
    ensures b != "" && SequenceLength(a) == SequenceLength(b)
  {
    CharactersMatch(a, b);
  }

  lemma {:induction false} Utf8Matches(a: string, b: string)
    requires SameButCase(a, b)
    ensures ValidUtf8(a) <==> ValidUtf8(b)
    decreases |a|
  {
    CharactersMatch(a, b);
    if a != "" {
      SequenceLengthMatches(a, b);
      var n := SequenceLength(a);
      SliceMatches(a, b, n, |a|);
      assert a[n..] == a[n..|a|] && b[n..] == b[n..|a|];
      if n > 0 {
        Utf8Matches(a[n..], b[n..]);
      }
    }
  }

  /** Escapes that pass the check have no case to differ in. */
  lemma EscapeMatches(a: string, b: string)
    requires SameButCase(a, b) && a != "" && PercentChecked(a) && PercentChecked(b)
    ensures b != "" && (EscapeAt(a, 0) <==> EscapeAt(b, 0))
    ensures EscapeAt(a, 0) ==> Escaped(a, 0) == Escaped(b, 0)
    ensures SameButCase(AfterToken(a), AfterToken(b))
  {
    CharactersMatch(a, b);
    CheckedRest(a);
    CheckedRest(b);
    if a[0] == '%' {
      CharacterAt(a, b, 1);
      CharacterAt(a, b, 2);
    }
    var k := if EscapeAt(a, 0) then 3 else 1;
    SliceMatches(a, b, k, |a|);
    assert a[k..] == a[k..|a|] && b[k..] == b[k..|a|];
  }

  lemma {:induction false} DecodeMatches(a: string, b: string)
    requires SameButCase(a, b) && PercentChecked(a) && PercentChecked(b)
    ensures SameButCase(Decode(a), Decode(b))
    decreases |a|
  {
    CharactersMatch(a, b);
    if a == "" {
      assert a == b;
    } else {
      EscapeMatches(a, b);
      CheckedRest(a);
      CheckedRest(b);
      DecodeMatches(AfterToken(a), AfterToken(b));
      CharacterAt(a, b, 0);
      var x := if EscapeAt(a, 0) then Escaped(a, 0) else a[0];
      var y := if EscapeAt(b, 0) then Escaped(b, 0) else b[0];
      LowerAppend([x], Decode(AfterToken(a)));
      LowerAppend([y], Decode(AfterToken(b)));
    }
  }

  predicate CaseBlind(allows: char -> bool) {
    forall c | IsLetter(c) :: allows(c)
  }

  lemma AllMatch(a: string, b: string, allows: char -> bool)
    requires SameButCase(a, b) && CaseBlind(allows)
    ensures (forall c | c in a :: allows(c)) <==> (forall c | c in b :: allows(c))
  {
    CharactersMatch(a, b);
    assert forall i | 0 <= i < |a| :: a[i] in a && b[i] in b;
  }

  /** Apart from the digits of the escapes, the character checks are blind to
      case. */
  lemma UriCharactersMatch(a: string, b: string)
    requires SameButCase(a, b) && (PercentChecked(a) <==> PercentChecked(b))
    ensures UriCharactersOk(a) <==> UriCharactersOk(b)
  {
    AllMatch(a, b, PlainCharacter);
    if PercentChecked(a) {
      DecodeMatches(a, b);
      Utf8Matches(Decode(a), Decode(b));
      AllMatch(Decode(a), Decode(b), c => !IsControl(c) && c != '\\');
    }
  }

  // ----- authorities -----

  /** The text of a bracketed host that urllib takes for an address of a future
      version: it starts with a lower-case "v". */
  predicate MarkedFuture(netloc: string) {
    var raw := SplitHost(netloc).host;
    '[' in netloc && raw != "" && raw[0] == 'v'
  }

  predicate SameSpelling(a: string, b: string) {
    (PercentChecked(a) <==> PercentChecked(b)) && (MarkedFuture(a) <==> MarkedFuture(b))
  }

  lemma HostsMatch(a: string, b: string)
    requires SameButCase(a, b)
    ensures SameButCase(SplitHost(a).host, SplitHost(b).host)
    ensures SameButCase(SplitHost(a).portText, SplitHost(b).portText)
    ensures '[' in a <==> '[' in b
  {
    PartsMatch(a, b, '[');
    if '[' in a {
      var x, y := After(a, '['), After(b, '[');
      PartsMatch(x, y, ']');
      PartsMatch(After(x, ']'), After(y, ']'), ':');
    } else {
      PartsMatch(a, b, ':');
    }
  }

  lemma PortsMatch(a: string, b: string)
    requires SameButCase(a, b)
    ensures PortOf(a) == PortOf(b)
  {
    CharactersMatch(a, b);
    AllMatch(a, b, c => IsDigit(c) || IsLetter(c));
    if AllDigits(a) {
      NoLettersIsSame(a, b);
    } else if AllDigits(b) {
      NoLettersIsSame(b, a);
    }
  }

  lemma HostnamesMatch(a: string, b: string)
    requires SameButCase(a, b)
    ensures SameButCase(Hostname(a), Hostname(b)) && ('%' in a <==> '%' in b)
    ensures '%' !in a ==> Hostname(a) == Hostname(b) && '%' !in Hostname(a)
    ensures '%' in a ==> '%' in Hostname(a) && '%' in Hostname(b) && Before(Hostname(a), '%') == Before(Hostname(b), '%')
  {
    PartsMatch(a, b, '%');
    if '%' in a {
      HostnameWithZone(a);
      HostnameWithZone(b);
      var low := Lower(Before(a, '%'));
      LowerKeepsOthers(Before(a, '%'), '%');
      PartitionWhole(a, '%');
      PartitionAt(low, '%', After(a, '%'));
      PartitionAt(low, '%', After(b, '%'));
      LowerAppend(low + ['%'], After(a, '%'));
      LowerAppend(low + ['%'], After(b, '%'));
    } else {
      HostnameWithoutZone(a);
      HostnameWithoutZone(b);
      LowerKeepsOthers(a, '%');
    }
  }

  /** Hosts that are one text, or that differ in the case of a zone only. */
  predicate SameHost(a: string, b: string) {
    && SameButCase(a, b)
    && (a == b || ('%' in a && '%' in b && Before(a, '%') == Before(b, '%')))
  }

  lemma LiteralsMatch(f: Compressor, a: string, b: string)
    requires SameHost(a, b)
    ensures Literal(f, a).Some? <==> Literal(f, b).Some?
    ensures Literal(f, a).Some? ==> Lower(Literal(f, a).value) == Lower(Literal(f, b).value)
  {
    if '%' in a && a != b {
      PartsMatch(a, b, '%');
      var x, y := After(a, '%'), After(b, '%');
      PlaceMatches(x, y, '%');
      CharactersMatch(x, y);
      if Literal(f, a).Some? {
        var address := f(Before(a, '%')).value;
        LowerAppend(address + "%", x);
        LowerAppend(address + "%", y);
      }
    }
  }

  lemma CanonicalHostsMatch(f: Compressor, a: string, b: string)
    requires SameHost(a, b)
    ensures CanonicalHost(f, a) == CanonicalHost(f, b)
  {
    if a != b {
      LiteralsMatch(f, a, b);
      CharactersMatch(a, b);
      DottedCharacters(a);
      DottedCharacters(b);
    }
  }

  lemma FutureAddressesMatch(a: string, b: string)
    requires SameButCase(a, b) && a != "" && a[0] == 'v' && b != "" && b[0] == 'v'
    ensures IsFutureAddress(a) <==> IsFutureAddress(b)
  {
    CharactersMatch(a, b);
    PlaceMatches(a, b, '.');
    var dot := Find(a, '.', 0);
    if 1 <= dot {
      SliceMatches(a, b, 1, dot);
      HexMatches(a[1..dot], b[1..dot]);
    }
  }

  lemma HexMatches(a: string, b: string)
    requires SameButCase(a, b)
    ensures (forall c | c in a :: IsHex(c)) <==> (forall c | c in b :: IsHex(c))
  {
    CharactersMatch(a, b);
    forall i | 0 <= i < |a| ensures IsHex(a[i]) <==> IsHex(b[i]) {
      CharacterAt(a, b, i);
    }
    assert forall i | 0 <= i < |a| :: a[i] in a && b[i] in b;
  }

  lemma BracketsMatch(f: Compressor, a: string, b: string)
    requires SameButCase(a, b) && (MarkedFuture(a) <==> MarkedFuture(b))
    ensures BracketsOk(f, a) <==> BracketsOk(f, b)
  {
    PlaceMatches(a, b, '[');
    PlaceMatches(a, b, ']');
    HostsMatch(a, b);
    var x, y := SplitHost(a).host, SplitHost(b).host;
    CharactersMatch(x, y);
    if MarkedFuture(a) {
      FutureAddressesMatch(x, y);
    } else {
      HostnamesMatch(x, y);
      LiteralsMatch(f, Hostname(x), Hostname(y));
    }
  }

  /** Without its mark, an address of a future version is none: no IPv6 address
      starts with "V". */
  lemma UnmarkedIsRefused(f: Compressor, a: string, b: string)
    requires SameButCase(a, b) && MarkedFuture(a) && !MarkedFuture(b)
    ensures !BracketsOk(f, b)
  {
    HostsMatch(a, b);
    var x, y := SplitHost(a).host, SplitHost(b).host;
    CharacterAt(x, y, 0);
    LoweredHead(y);
    NoAddressWithV(f, Hostname(y));
  }

  lemma LoweredHead(raw: string)
    requires raw != "" && raw[0] == 'V'
    ensures Hostname(raw) != "" && Hostname(raw)[0] == 'v'
  {
    var i := Find(raw, '%', 0);
    assert Lower(raw[..i])[0] == LowerChar(raw[..i][0]);
  }

  lemma NoAddressWithV(f: Compressor, host: string)
    requires host != "" && host[0] == 'v'
    ensures Literal(f, host).None?
  {
    var address := Before(host, '%');
    PartitionWhole(host, '%');
    assert host[0] in host && address[0] in address && !WrittenCharacter(host[0]) && address[0] == host[0];
    if f(host).Some? {
      Compressed(f, host);
    } else if f(address).Some? {
      Compressed(f, address);
    }
  }

  lemma BucketsMatch(f: Compressor, a: string, b: string)
    requires SameButCase(a, b)
    ensures BucketForm(f, a, Hostname(SplitHost(a).host)) == BucketForm(f, b, Hostname(SplitHost(b).host))
  {
    CharactersMatch(a, b);
    HostsMatch(a, b);
    var x, y := SplitHost(a).host, SplitHost(b).host;
    HostnamesMatch(x, y);
    CanonicalHostsMatch(f, Hostname(x), Hostname(y));
    if '%' in x {
      ZonedIsNoBucket(f, a);
      ZonedIsNoBucket(f, b);
    }
  }

  lemma ZonedIsNoBucket(f: Compressor, netloc: string)
    requires '%' in SplitHost(netloc).host && '%' in Hostname(SplitHost(netloc).host)
    ensures BucketForm(f, netloc, Hostname(SplitHost(netloc).host)) == None
  {
    var raw := SplitHost(netloc).host;
    if '[' in netloc {
      PartitionWhole(netloc, '[');
      assert |Hostname(raw)| == |raw| < |netloc|;
    } else {
      PartitionWhole(netloc, ':');
      ZonedIsNoName(f, raw);
    }
  }

  lemma ZonedIsNoName(f: Compressor, raw: string)
    requires '%' in raw && ':' !in raw
    ensures CanonicalHost(f, Hostname(raw)) == None
  {
    var host := Hostname(raw);
    HostnameWithZone(raw);
    DottedCharacters(host);
    LowerKeepsOthers(Before(raw, '%'), ':');
    PartitionWhole(raw, '%');
    assert ':' !in host;
    NoLiteral(f, host);
  }

  lemma FilesMatch(a: string, b: string, port: Option<nat>)
    requires SameButCase(a, b)
    ensures FileForm(a, Hostname(SplitHost(a).host), port) == FileForm(b, Hostname(SplitHost(b).host), port)
  {
    CharactersMatch(a, b);
    HostsMatch(a, b);
    ColonsMatch(a, b);
    var x, y := SplitHost(a).host, SplitHost(b).host;
    HostnamesAreSame(x, y);
    LocalhostIsPlain();
    SameFileForm(a, b, Hostname(x), Hostname(y), port);
  }

  lemma SameFileForm(a: string, b: string, x: string, y: string, port: Option<nat>)
    requires (a == "" <==> b == "") && (EndsInColon(a) <==> EndsInColon(b))
    requires SameHost(x, y) && '%' !in LOCALHOST
    ensures FileForm(a, x, port) == FileForm(b, y, port)
  {
  }

  lemma NetworksMatch(f: Compressor, scheme: Scheme, a: string, b: string, port: Option<nat>)
    requires SameButCase(a, b)
    ensures NetworkForm(f, scheme, a, Hostname(SplitHost(a).host), port) ==
            NetworkForm(f, scheme, b, Hostname(SplitHost(b).host), port)
  {
    HostsMatch(a, b);
    ColonsMatch(a, b);
    var x, y := SplitHost(a).host, SplitHost(b).host;
    HostnamesAreSame(x, y);
    CanonicalHostsMatch(f, Hostname(x), Hostname(y));
    SameNetworkForm(f, scheme, a, b, Hostname(x), Hostname(y), port);
  }

  lemma ColonsMatch(a: string, b: string)
    requires SameButCase(a, b)
    ensures EndsInColon(a) <==> EndsInColon(b)
  {
    CharactersMatch(a, b);
  }

  lemma HostnamesAreSame(a: string, b: string)
    requires SameButCase(a, b)
    ensures SameHost(Hostname(a), Hostname(b))
  {
    HostnamesMatch(a, b);
  }

  lemma SameNetworkForm(f: Compressor, scheme: Scheme, a: string, b: string, x: string, y: string, port: Option<nat>)
    requires (EndsInColon(a) <==> EndsInColon(b)) && CanonicalHost(f, x) == CanonicalHost(f, y)
    ensures NetworkForm(f, scheme, a, x, port) == NetworkForm(f, scheme, b, y, port)
  {
  }

  lemma FormsMatch(f: Compressor, scheme: Scheme, a: string, b: string, port: Option<nat>)
    requires SameButCase(a, b)
    ensures SchemeForm(f, scheme, a, Hostname(SplitHost(a).host), port) ==
            SchemeForm(f, scheme, b, Hostname(SplitHost(b).host), port)
  {
    match scheme
    case S3 => BucketsMatch(f, a, b);
    case File => FilesMatch(a, b, port);
    case _ => NetworksMatch(f, scheme, a, b, port);
  }

  /** For every scheme, the canonical authority is blind to case, the mark of a
      future address excepted. */
  lemma AuthoritiesMatch(f: Compressor, scheme: Scheme, a: string, b: string)
    requires SameButCase(a, b) && (MarkedFuture(a) <==> MarkedFuture(b))
    ensures CanonicalAuthority(f, scheme, a) == CanonicalAuthority(f, scheme, b)
  {
    BracketsMatch(f, a, b);
    HostsMatch(a, b);
    PortsMatch(SplitHost(a).portText, SplitHost(b).portText);
    PlaceMatches(a, b, '@');
    var port := PortOf(SplitHost(a).portText);
    if port.Some? {
      FormsMatch(f, scheme, a, b, port.value);
      AuthorityFrom(f, scheme, a, Hostname(SplitHost(a).host), port.value);
      AuthorityFrom(f, scheme, b, Hostname(SplitHost(b).host), port.value);
    } else {
      NoPortNoAuthority(f, scheme, a);
      NoPortNoAuthority(f, scheme, b);
    }
  }

  lemma NoPortNoAuthority(f: Compressor, scheme: Scheme, netloc: string)
    requires PortOf(SplitHost(netloc).portText).None?
    ensures CanonicalAuthority(f, scheme, netloc).None?
  {
  }

  // ----- whole URIs -----

  /** The URI of one of the four schemes is accepted exactly when its parts are. */
  lemma AcceptedIff(f: Compressor, value: string)
    requires Parse(value).Some? && SchemeOf(Parse(value).value.schemeText).Some?
    ensures var p := Parse(value).value;
            var scheme := SchemeOf(p.schemeText).value;
            var authority := CanonicalAuthority(f, scheme, p.netloc);
            Canonicalize(f, value) ==
            if UriCharactersOk(p.netloc) && UriCharactersOk(p.path) && CanonicalPath(p.path) && authority.Some?
               && '?' !in p.netloc && '#' !in p.netloc && '?' !in p.path && '#' !in p.path
            then Some(Render(p.schemeText, authority.value, p.path)) else None
  {
    var p := Parse(value).value;
    ParseParts(value);
    var head, rest := Before(value, ':'), p.netloc + p.path;
    SchemeIsPlain(head);
    UnescapedIsOk(head);
    WholeIsOk(head, rest);
    UriCharactersAppend(p.netloc, p.path);
    DelimitersInside(value, head, p.netloc, p.path, '?');
    DelimitersInside(value, head, p.netloc, p.path, '#');
  }

  lemma SchemeIsPlain(head: string)
    requires SchemeOf(Lower(head)).Some?
    ensures '%' !in head && '?' !in head && '#' !in head && forall c | c in head :: PlainCharacter(c)
  {
    var name := Lower(head);
    SchemeNames(SchemeOf(name).value);
    SchemeCharacters(SchemeOf(name).value);
    forall i | 0 <= i < |head| ensures SchemeCharacter(LowerChar(head[i])) {
      assert name[i] in name;
    }
  }

  lemma DelimitersInside(value: string, head: string, netloc: string, path: string, c: char)
    requires value == head + [':'] + ("//" + (netloc + path)) && c !in head && c != ':' && c != '/'
    ensures c in value <==> c in netloc || c in path
  {
    assert forall x | x in netloc || x in path :: x in netloc + path;
    assert forall x | x in netloc + path :: x in "//" + (netloc + path);
  }

  /** Two URIs of any scheme that differ only in the case of the scheme and of the
      authority have one result, accepted or refused, when their escapes and the
      mark of a future address are spelt alike; when they are not, at most one of
      the two is accepted. */
  lemma CaseDoesNotMatter(f: Compressor, u: string, v: string)
    requires Parse(u).Some? && Parse(v).Some?
    requires Parse(u).value.schemeText == Parse(v).value.schemeText && Parse(u).value.path == Parse(v).value.path
    requires SameButCase(Parse(u).value.netloc, Parse(v).value.netloc)
    ensures var same := SameSpelling(Parse(u).value.netloc, Parse(v).value.netloc);
            && (same ==> Canonicalize(f, u) == Canonicalize(f, v))
            && (Canonicalize(f, u).Some? || Canonicalize(f, v).Some? ==> (Canonicalize(f, u) == Canonicalize(f, v) <==> same))
  {
    var p, q := Parse(u).value, Parse(v).value;
    if SchemeOf(p.schemeText).Some? {
      var scheme := SchemeOf(p.schemeText).value;
      AcceptedIff(f, u);
      AcceptedIff(f, v);
      if SameSpelling(p.netloc, q.netloc) {
        AuthoritiesMatch(f, scheme, p.netloc, q.netloc);
        UriCharactersMatch(p.netloc, q.netloc);
        PlaceMatches(p.netloc, q.netloc, '?');
        PlaceMatches(p.netloc, q.netloc, '#');
      } else if PercentChecked(p.netloc) <==> PercentChecked(q.netloc) {
        if MarkedFuture(p.netloc) {
          UnmarkedIsRefused(f, p.netloc, q.netloc);
        } else {
          UnmarkedIsRefused(f, q.netloc, p.netloc);
        }
      }
    }
  }

  // ----- the default port -----

  /** The authority is a host without a colon behind it. */
  predicate HasNoPort(netloc: string) {
    if '[' in netloc then ']' in After(netloc, '[') && ':' !in After(After(netloc, '['), ']')
    else ':' !in netloc
  }

  predicate IsDefaultPort(text: string) {
    AllDigits(text) && NumberOf(text) == 443
  }

  lemma AfterAppend(a: string, c: char, b: string)
    requires c in a
    ensures Before(a + b, c) == Before(a, c) && After(a + b, c) == After(a, c) + b
  {
    PartitionIn(a, c);
    PartitionAt(Before(a, c), c, After(a, c) + b);
    Reassociate(Before(a, c) + [c], After(a, c), b);
  }

  lemma Reassociate(x: string, y: string, z: string)
    ensures x + y + z == x + (y + z)
  {
  }

  lemma PortAdded(netloc: string, text: string)
    requires HasNoPort(netloc) && AllDigits(text) && text != ""
    ensures SplitHost(netloc).portText == ""
    ensures SplitHost(netloc + (":" + text)) == HostInfo(SplitHost(netloc).host, text)
    ensures !EndsInColon(netloc) && !EndsInColon(netloc + (":" + text))
    ensures forall c | c == '[' || c == ']' || c == '@' :: c in netloc + (":" + text) <==> c in netloc
  {
    var whole := netloc + (":" + text);
    ColonDigits(text);
    assert whole[|whole| - 1] == (":" + text)[|text|];
    if '[' in netloc {
      BracketedPort(netloc, text);
    } else {
      PartitionNowhere(netloc, ':');
      assert netloc != "" ==> netloc[|netloc| - 1] in netloc;
      assert whole == netloc + [':'] + text;
      PartitionAt(netloc, ':', text);
    }
  }

  lemma BracketedPort(netloc: string, text: string)
    requires '[' in netloc && HasNoPort(netloc)
    ensures SplitHost(netloc).portText == "" && !EndsInColon(netloc)
    ensures '[' in netloc + (":" + text)
    ensures SplitHost(netloc + (":" + text)) == HostInfo(SplitHost(netloc).host, text)
  {
    var inner := After(netloc, '[');
    var tail := After(inner, ']');
    AfterAppend(netloc, '[', ":" + text);
    AfterAppend(inner, ']', ":" + text);
    TailPort(tail, text);
    LastBehind(netloc, '[');
    LastBehind(inner, ']');
    assert tail != "" ==> tail[|tail| - 1] in tail;
  }

  lemma TailPort(tail: string, text: string)
    requires ':' !in tail
    ensures After(tail, ':') == "" && After(tail + (":" + text), ':') == text
  {
    assert tail + (":" + text) == tail + [':'] + text;
    PartitionAt(tail, ':', text);
    PartitionNowhere(tail, ':');
  }

  lemma LastBehind(s: string, c: char)
    requires c in s && c != ':'
    ensures EndsInColon(s) <==> EndsInColon(After(s, c))
  {
    PlaceOf(s, c);
  }

  lemma PlaceOf(s: string, c: char)
    requires c in s
    ensures Find(s, c, 0) < |s|
  {
    var i :| 0 <= i < |s| && s[i] == c;
  }

  lemma DefaultPortAuthority(f: Compressor, netloc: string, text: string)
    requires HasNoPort(netloc) && IsDefaultPort(text)
    ensures CanonicalAuthority(f, Https, netloc + (":" + text)) == CanonicalAuthority(f, Https, netloc)
  {
    var whole := netloc + (":" + text);
    PortAdded(netloc, text);
    var host := SplitHost(netloc).host;
    SameBrackets(f, whole, netloc);
    AuthorityFrom(f, Https, whole, Hostname(host), Some(443));
    AuthorityFrom(f, Https, netloc, Hostname(host), None);
    SameNetwork(f, whole, netloc, Hostname(host));
  }

  lemma SameBrackets(f: Compressor, a: string, b: string)
    requires SplitHost(a).host == SplitHost(b).host && ('[' in a <==> '[' in b) && (']' in a <==> ']' in b)
    ensures BracketsOk(f, a) <==> BracketsOk(f, b)
  {
  }

  lemma SameNetwork(f: Compressor, a: string, b: string, host: string)
    requires !EndsInColon(a) && !EndsInColon(b)
    ensures NetworkForm(f, Https, a, host, Some(443)) == NetworkForm(f, Https, b, host, None)
  {
  }

  lemma DefaultPortCharacters(netloc: string, text: string)
    requires AllDigits(text) && text != ""
    ensures UriCharactersOk(netloc + (":" + text)) <==> UriCharactersOk(netloc)
    ensures forall c | c == '?' || c == '#' :: c in netloc + (":" + text) <==> c in netloc
  {
    ColonDigits(text);
    UnescapedIsOk(":" + text);
    UriCharactersAppend(netloc, ":" + text);
  }

  /** Section 6.2.3 of RFC 3986: over https an explicit 443, written with any
      number of leading zeros, changes no result. */
  lemma DefaultPortDoesNotMatter(f: Compressor, u: string, v: string, text: string)
    requires Parse(u).Some? && Parse(v).Some? && HasNoPort(Parse(u).value.netloc) && IsDefaultPort(text)
    requires Parse(u).value.schemeText == Parse(v).value.schemeText == Https.Name()
    requires Parse(v).value.netloc == Parse(u).value.netloc + (":" + text) && Parse(u).value.path == Parse(v).value.path
    ensures Canonicalize(f, u) == Canonicalize(f, v)
  {
    SchemeNames(Https);
    AcceptedIff(f, u);
    AcceptedIff(f, v);
    DefaultPortAuthority(f, Parse(u).value.netloc, text);
    DefaultPortCharacters(Parse(u).value.netloc, text);
  }

  /** Both together, and exactly: the case of scheme and authority and an explicit
      default port make no difference, escapes and mark excepted. */
  lemma CaseAndDefaultPortDoNotMatter(f: Compressor, u: string, v: string, netloc: string, text: string)
    requires Parse(u).Some? && Parse(v).Some? && HasNoPort(Parse(u).value.netloc) && IsDefaultPort(text)
    requires Parse(u).value.schemeText == Parse(v).value.schemeText == Https.Name()
    requires SameButCase(Parse(u).value.netloc, netloc) && Parse(v).value.netloc == netloc + (":" + text)
    requires Parse(u).value.path == Parse(v).value.path
    ensures var same := SameSpelling(Parse(u).value.netloc, netloc);
            && (same ==> Canonicalize(f, u) == Canonicalize(f, v))
            && (Canonicalize(f, u).Some? || Canonicalize(f, v).Some? ==> (Canonicalize(f, u) == Canonicalize(f, v) <==> same))
  {
    var p, q := Parse(u).value, Parse(v).value;
    NoPortMatches(p.netloc, netloc);
    ParseParts(u);
    ParseParts(v);
    var w := Render(Https.Name(), netloc, p.path);
    assert forall c | c in netloc :: c in q.netloc;
    SchemeNames(Https);
    ParseRender(Https.Name(), netloc, p.path);
    CaseDoesNotMatter(f, u, w);
    DefaultPortDoesNotMatter(f, w, v, text);
  }

  lemma NoPortMatches(a: string, b: string)
    requires SameButCase(a, b) && HasNoPort(a)
    ensures HasNoPort(b)
  {
    PlaceMatches(a, b, ':');
    PartsMatch(a, b, '[');
    var x, y := After(a, '['), After(b, '[');
    PartsMatch(x, y, ']');
    PlaceMatches(After(x, ']'), After(y, ']'), ':');
  }

  // ----- the mark is needed -----

  /** The mark does decide: of these two spellings of one address the first is
      accepted and the second is refused. */
  lemma FutureAddressNeedsLowerCase(f: Compressor)
    ensures Canonicalize(f, Render(Https.Name(), "[" + "v1.abc" + "]", "/x")) == Some(Render(Https.Name(), "v1.abc", "/x"))
    ensures Canonicalize(f, Render(Https.Name(), "[" + "V1.abc" + "]", "/x")) == None
  {
    FutureSpellings(f, "v1.abc", "V1.abc", "/x");
  }

  lemma FutureSpellings(f: Compressor, h: string, g: string, path: string)
    requires h == "v1.abc" && g == "V1.abc" && path == "/x"
    ensures Canonicalize(f, Render(Https.Name(), "[" + h + "]", path)) == Some(Render(Https.Name(), h, path))
    ensures Canonicalize(f, Render(Https.Name(), "[" + g + "]", path)) == None
  {
    MarkedSpelling(f, h, path);
    UnmarkedSpelling(f, g, path);
  }

  lemma MarkedSpelling(f: Compressor, h: string, path: string)
    requires h == "v1.abc" && path == "/x"
    ensures Canonicalize(f, Render(Https.Name(), "[" + h + "]", path)) == Some(Render(Https.Name(), h, path))
  {
    FutureName(h);
    SimplePath();
    MarkedFutureAccepted(f, h, path);
  }

  lemma UnmarkedSpelling(f: Compressor, g: string, path: string)
    requires g == "V1.abc" && path == "/x"
    ensures Canonicalize(f, Render(Https.Name(), "[" + g + "]", path)) == None
  {
    assert g[0] == 'V';
    UnmarkedFutureRefused(f, g, path);
  }

  lemma FutureName(h: string)
    requires h == "v1.abc"
    ensures IsFutureAddress(h) && IsRegisteredName(h) && Lower(h) == h
  {
    assert h == "v1" + ['.'] + "abc";
    PartitionAt("v1", '.', "abc");
    SplitAppend("v1", "abc", '.');
    SplitPlain("v1", '.');
    SplitPlain("abc", '.');
  }

  lemma FutureParts(h: string)
    requires AllGood(h) && '%' !in h && ']' !in h
    ensures var netloc := "[" + h + "]";
            && SplitHost(netloc) == HostInfo(h, "") && '[' in netloc && ']' in netloc && !EndsInColon(netloc)
  {
    BracketedSplits(h, "");
    assert "[" + h + "]" + "" == "[" + h + "]";
    PartitionNowhere("", ':');
  }

  lemma FutureCharacters(h: string)
    requires AllGood(h) && '%' !in h
    ensures UriCharactersOk("[" + h + "]") && AllGood("[" + h + "]")
  {
    var netloc := "[" + h + "]";
    assert forall c | c in netloc :: c == '[' || c == ']' || c in h;
    UnescapedIsOk(netloc);
  }

  lemma MarkedAuthority(f: Compressor, netloc: string, h: string)
    requires SplitHost(netloc) == HostInfo(h, "") && '[' in netloc && ']' in netloc && '@' !in netloc && !EndsInColon(netloc)
    requires IsFutureAddress(h) && Hostname(h) == h && CanonicalHost(f, h) == Some(h) && ':' !in h
    ensures CanonicalAuthority(f, Https, netloc) == Some(h)
  {
    assert BracketsOk(f, netloc);
    PlainNetwork(f, netloc, h);
  }

  lemma PlainNetwork(f: Compressor, netloc: string, h: string)
    requires !EndsInColon(netloc) && CanonicalHost(f, h) == Some(h) && ':' !in h
    ensures NetworkForm(f, Https, netloc, h, None) == Some(h)
  {
    assert Bracketed(h) + Suffix(None) == h;
  }

  /** Every address of a future version that is a lower-case registered name is
      accepted, and loses its brackets. */
  lemma MarkedFutureAccepted(f: Compressor, h: string, path: string)
    requires IsFutureAddress(h) && IsRegisteredName(h) && Lower(h) == h
    requires CanonicalPath(path) && UriCharactersOk(path) && '?' !in path && '#' !in path
    ensures Canonicalize(f, Render(Https.Name(), "[" + h + "]", path)) == Some(Render(Https.Name(), h, path))
  {
    var netloc := "[" + h + "]";
    NameIsPlain(h);
    FutureParts(h);
    FutureCharacters(h);
    HostnameWithoutZone(h);
    assert h[0] in h;
    NameIsCanonical(f, h);
    MarkedAuthority(f, netloc, h);
    SchemeNames(Https);
    ParseRender(Https.Name(), netloc, path);
    AcceptedIff(f, Render(Https.Name(), netloc, path));
  }

  lemma UnmarkedFutureRefused(f: Compressor, g: string, path: string)
    requires g != "" && g[0] == 'V' && ']' !in g && '/' !in g && (path == "" || path[0] == '/')
    ensures Canonicalize(f, Render(Https.Name(), "[" + g + "]", path)) == None
  {
    var netloc := "[" + g + "]";
    UnmarkedBrackets(f, g);
    SchemeNames(Https);
    ParseRender(Https.Name(), netloc, path);
    AcceptedIff(f, Render(Https.Name(), netloc, path));
  }

  lemma UnmarkedBrackets(f: Compressor, g: string)
    requires g != "" && g[0] == 'V' && ']' !in g
    ensures !BracketsOk(f, "[" + g + "]")
  {
    BracketedSplits(g, "");
    assert "[" + g + "]" + "" == "[" + g + "]";
    LoweredHead(g);
    NoAddressWithV(f, Hostname(g));
  }

  // ----- the case of escapes is needed too -----

  /** So does the case of an escape: with any address, the zone "%2A" is accepted
      and the zone "%2a" is refused. */
  lemma EscapesNeedUpperCase(f: Compressor, address: string)
    requires f(address) == Some(address)
    ensures Canonicalize(f, Render(Https.Name(), "[" + address + "%2A]", "/x")).Some?
    ensures Canonicalize(f, Render(Https.Name(), "[" + address + "%2a]", "/x")) == None
  {
    SpoiltZone(f, address);
    LowerZoneRefused(f, Https.Name(), address, "/x");
  }

  lemma LowerZoneRefused(f: Compressor, scheme: string, address: string, path: string)
    ensures Canonicalize(f, Render(scheme, "[" + address + "%2a]", path)) == None
  {
    var front, zone := scheme + "://" + "[" + address, "%2a]";
    assert Render(scheme, "[" + address + zone, path) == front + (zone + path);
    assert (zone + path)[0] == '%' && (zone + path)[2] == 'a';
    LowerEscapeRefused(f, front, zone + path);
  }

  lemma LowerEscapeRefused(f: Compressor, front: string, rest: string)
    requires |rest| > 2 && rest[0] == '%' && !IsUpperHex(rest[2])
    ensures Canonicalize(f, front + rest) == None
  {
    var value := front + rest;
    assert value[|front|] == '%' && value[|front| + 2] == rest[2];
    assert !GoodEscape(value, |front|);
  }
}
