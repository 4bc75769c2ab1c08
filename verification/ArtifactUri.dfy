/** Canonical artifact URIs (proof_agent/contracts/knowledge_index.py): the
    character checks, the authority of each scheme, and what the canonical text
    says about the resource. */
module ArtifactUri {
  import opened Text
  import opened PercentEncoding

  // ----- UTF-8 -----

  predicate Within(c: char, low: int, high: int) {
    low <= c as int <= high
  }

  predicate Continues(s: string, i: nat) {
    i < |s| && Within(s[i], 0x80, 0xBF)
  }

  /** The length of the well-formed sequence a text of bytes starts with, by the
      table in section 4 of RFC 3629; 0 when there is none. */
  function SequenceLength(s: string): (n: nat)
    requires s != ""
    ensures n <= 4 && n <= |s|
    ensures forall i | 0 < i < n :: s[i] as int >= 0x80
    ensures n == 1 <==> s[0] as int < 0x80
  {
    var b := s[0];
    if b as int < 0x80 then 1
    else if Within(b, 0xC2, 0xDF) && Continues(s, 1) then 2
    else if Within(b, 0xE0, 0xEF) && Continues(s, 1) && Continues(s, 2)
            && (b as int == 0xE0 ==> s[1] as int >= 0xA0) && (b as int == 0xED ==> s[1] as int < 0xA0) then 3
    else if Within(b, 0xF0, 0xF4) && Continues(s, 1) && Continues(s, 2) && Continues(s, 3)
            && (b as int == 0xF0 ==> s[1] as int >= 0x90) && (b as int == 0xF4 ==> s[1] as int < 0x90) then 4
    else 0
  }

  predicate ValidUtf8(s: string) {
    s == "" || (SequenceLength(s) > 0 && ValidUtf8(s[SequenceLength(s)..]))
  }

  /** No sequence runs over an ASCII character. */
  lemma {:induction false} Utf8Append(a: string, b: string)
    requires b == "" || b[0] as int < 0x80
    ensures ValidUtf8(a + b) <==> ValidUtf8(a) && ValidUtf8(b)
  {
    if a == "" {
      assert a + b == b;
    } else {
      var n := SequenceLength(a + b);
      assert b != "" ==> (a + b)[|a|] == b[0];
      assert SequenceLength(a) == n;
      if n > 0 {
        assert (a + b)[n..] == a[n..] + b;
        Utf8Append(a[n..], b);
      }
    }
  }

  lemma {:induction false} AsciiIsValid(s: string)
    requires forall c | c in s :: c as int < 0x80
    ensures ValidUtf8(s)
  {
    if s != "" {
      assert s[0] in s && forall c | c in s[1..] :: c in s;
      AsciiIsValid(s[1..]);
    }
  }

  // ----- _validate_uri_characters -----

  predicate IsControl(c: char) {
    c as int < 32 || c as int == 127
  }

  predicate PlainCharacter(c: char) {
    c as int < 128 && !IsControl(c) && !IsSpace(c) && c != '\\'
  }

  predicate DecodedOk(bytes: string) {
    ValidUtf8(bytes) && forall b | b in bytes :: !IsControl(b) && b != '\\'
  }

  predicate UriCharactersOk(s: string) {
    && (forall c | c in s :: PlainCharacter(c))
    && PercentChecked(s)
    && DecodedOk(Decode(s))
  }

  /** No escape and no byte sequence runs over a character that is neither "%"
      nor a hexadecimal digit. */
  predicate Boundary(s: string) {
    s == "" || (s[0] != '%' && !IsHex(s[0]))
  }

  lemma {:induction false} DecodeAppend(a: string, b: string)
    requires PercentChecked(a)
    ensures Decode(a + b) == Decode(a) + Decode(b)
  {
    if a == "" {
      assert a + b == b;
    } else {
      CheckedRest(a);
      DecodeAppend(AfterToken(a), b);
      DecodeFirst(a, b);
      DecodeFirst(a, "");
      assert a + "" == a;
      assert AfterToken(a) + "" == AfterToken(a);
    }
  }

  /** The first token decodes on its own. */
  lemma DecodeFirst(a: string, b: string)
    requires a != "" && (a[0] == '%' ==> EscapeAt(a, 0))
    ensures Decode(a + b) == [if EscapeAt(a, 0) then Escaped(a, 0) else a[0]] + Decode(AfterToken(a) + b)
  {
    if EscapeAt(a, 0) {
      assert (a + b)[3..] == a[3..] + b;
    } else {
      assert (a + b)[1..] == a[1..] + b;
    }
  }

  lemma CheckedAppend(a: string, b: string)
    requires Boundary(b)
    ensures PercentChecked(a + b) <==> PercentChecked(a) && PercentChecked(b)
  {
    if PercentChecked(a + b) {
      forall i | 0 <= i < |a| && a[i] == '%' ensures GoodEscape(a, i) {
        assert GoodEscape(a + b, i);
      }
      CheckedSuffix(a + b, |a|);
      assert (a + b)[|a|..] == b;
    }
    if PercentChecked(a) && PercentChecked(b) {
      forall i | 0 <= i < |a + b| && (a + b)[i] == '%' ensures GoodEscape(a + b, i) {
        if i < |a| {
          assert GoodEscape(a, i);
        } else {
          assert GoodEscape(b, i - |a|);
        }
      }
    }
  }

  lemma DecodedOkAppend(a: string, b: string)
    requires b == "" || b[0] as int < 0x80
    ensures DecodedOk(a + b) <==> DecodedOk(a) && DecodedOk(b)
  {
    Utf8Append(a, b);
    assert forall c :: c in a + b <==> c in a || c in b;
  }

  /** The character checks hold of a text exactly when they hold of its parts. */
  lemma UriCharactersAppend(a: string, b: string)
    requires Boundary(b)
    ensures UriCharactersOk(a + b) <==> UriCharactersOk(a) && UriCharactersOk(b)
  {
    CheckedAppend(a, b);
    assert forall c :: c in a + b <==> c in a || c in b;
    if PercentChecked(a) && forall c | c in b :: PlainCharacter(c) {
      DecodeAppend(a, b);
      assert b != "" ==> b[0] in b;
      assert b != "" ==> Decode(b) != "" && Decode(b)[0] == b[0];
      DecodedOkAppend(Decode(a), Decode(b));
    }
  }

  /** Plain text without "%" in front changes nothing. */
  lemma {:induction false} UriCharactersPrefix(a: string, b: string)
    requires '%' !in a && forall c | c in a :: PlainCharacter(c)
    ensures UriCharactersOk(a + b) <==> UriCharactersOk(b)
  {
    if a == "" {
      assert a + b == b;
    } else {
      assert a[0] in a && forall c | c in a[1..] :: c in a;
      UriCharactersPrefix(a[1..], b);
      assert a + b == [a[0]] + (a[1..] + b);
      UriCharactersCons(a[0], a[1..] + b);
    }
  }

  lemma UriCharactersCons(c: char, rest: string)
    requires PlainCharacter(c) && c != '%'
    ensures UriCharactersOk([c] + rest) <==> UriCharactersOk(rest)
  {
    var s := [c] + rest;
    assert s[1..] == rest;
    CheckedByTokens(s);
    assert Decode(s) == [c] + Decode(rest);
    assert SequenceLength([c] + Decode(rest)) == 1 && ([c] + Decode(rest))[1..] == Decode(rest);
    assert forall x :: x in s <==> x == c || x in rest;
    assert forall x :: x in Decode(s) <==> x == c || x in Decode(rest);
  }

  lemma UnescapedIsOk(s: string)
    requires '%' !in s && forall c | c in s :: PlainCharacter(c)
    ensures UriCharactersOk(s)
  {
    UriCharactersPrefix(s, "");
    assert s + "" == s;
  }

  // ----- hosts -----

  predicate IsOctet(s: string) {
    1 <= |s| <= 3 && AllDigits(s) && (|s| > 1 ==> s[0] != '0') && NumberOf(s) <= 255
  }

  predicate IsIPv4(host: string) {
    |Split(host, '.')| == 4 && forall part | part in Split(host, '.') :: IsOctet(part)
  }

  predicate AddressCharacter(c: char) {
    IsDigit(c) || 'a' <= c <= 'f' || c == ':' || c == '.'
  }

  predicate Compresses(compress: string -> Option<string>, text: string, compressed: string) {
    compress(text) == Some(compressed)
  }

  predicate WrittenCharacter(c: char) {
    IsHex(c) || c == ':' || c == '.'
  }

  /** ipaddress.ip_address(text).compressed for IPv6 addresses without a zone,
      None for every other text. */
  ghost predicate Stable(compress: string -> Option<string>) {
    forall a, c :: Compresses(compress, a, c) ==>
      && ':' in a
      && (forall x | x in a :: WrittenCharacter(x))
      && ':' in c
      && (forall x | x in c :: AddressCharacter(x))
      && c[|c| - 1] != '.'
      && Compresses(compress, c, c)
  }

  const NoAddresses: string -> Option<string> := (text: string) => None

  type Compressor = f: string -> Option<string> | Stable(f) ghost witness NoAddresses

  lemma Compressed(f: Compressor, a: string)
    requires f(a).Some?
    ensures ':' in a && forall x | x in a :: WrittenCharacter(x)
    ensures var c := f(a).value;
            ':' in c && (forall x | x in c :: AddressCharacter(x)) && c[|c| - 1] != '.' && f(c) == Some(c)
  {
    var c := f(a).value;
    assert Compresses(f, a, c);
    assert Compresses(f, c, c);
  }

  /** ip_address(host).compressed for an IPv6 host: a zone is kept as it is. */
  function Literal(f: Compressor, host: string): Option<string> {
    if '%' !in host then f(host)
    else
      var zone := After(host, '%');
      var address := f(Before(host, '%'));
      if address.None? || zone == "" || '%' in zone then None else Some(address.value + "%" + zone)
  }

  predicate IsHostLabel(s: string) {
    1 <= |s| <= 63 && IsAlnum(s[0]) && IsAlnum(s[|s| - 1]) && forall c | c in s :: IsAlnum(c) || c == '-'
  }

  predicate IsRegisteredName(host: string) {
    |host| <= 253 && forall part | part in Split(host, '.') :: IsHostLabel(part)
  }

  /** _canonicalize_hostname */
  function CanonicalHost(f: Compressor, host: string): Option<string> {
    if host == "" || host[|host| - 1] == '.' then None
    else if IsIPv4(host) then Some(host)
    else if Literal(f, host).Some? then Some(Lower(Literal(f, host).value))
    else if forall c | c in host :: IsDigit(c) || c == '.' then None
    else if !IsRegisteredName(host) then None
    else Some(Lower(host))
  }

  // ----- urllib.parse.urlsplit -----

  datatype HostInfo = HostInfo(host: string, portText: string)

  /** The host as written, and the text after its colon. */
  function SplitHost(netloc: string): HostInfo {
    if '[' in netloc then
      var bracketed := After(netloc, '[');
      HostInfo(Before(bracketed, ']'), After(After(bracketed, ']'), ':'))
    else HostInfo(Before(netloc, ':'), After(netloc, ':'))
  }

  /** The hostname attribute: a zone keeps its case. */
  function Hostname(raw: string): string {
    var i := Find(raw, '%', 0);
    Lower(raw[..i]) + raw[i..]
  }

  /** "v", hexadecimal digits, "." and something more. */
  predicate IsFutureAddress(raw: string) {
    var dot := Find(raw, '.', 0);
    raw != "" && raw[0] == 'v' && 2 <= dot && dot + 1 < |raw| && forall c | c in raw[1..dot] :: IsHex(c)
  }

  predicate BracketsOk(f: Compressor, netloc: string) {
    && ('[' in netloc <==> ']' in netloc)
    && ('[' in netloc ==>
          var raw := SplitHost(netloc).host;
          if raw != "" && raw[0] == 'v' then IsFutureAddress(raw) else Literal(f, Hostname(raw)).Some?)
  }

  /** The port attribute; the outer None is a ValueError. */
  function PortOf(text: string): Option<Option<nat>> {
    if text == "" then Some(None)
    else if AllDigits(text) && NumberOf(text) <= 65535 then Some(Some(NumberOf(text)))
    else None
  }

  // ----- _validate_artifact_uri -----

  datatype Scheme = Https | S3 | File | ProofAgent
  {
    function Name(): string {
      match this
      case Https => "https"
      case S3 => "s3"
      case File => "file"
      case ProofAgent => "proofagent"
    }
  }

  function SchemeOf(name: string): (scheme: Option<Scheme>)
    ensures scheme.Some? <==> exists s: Scheme :: s.Name() == name
    ensures scheme.Some? ==> scheme.value.Name() == name
  {
    assert Https.Name() == "https" && S3.Name() == "s3" && File.Name() == "file" && ProofAgent.Name() == "proofagent";
    if name == "https" then Some(Https)
    else if name == "s3" then Some(S3)
    else if name == "file" then Some(File)
    else if name == "proofagent" then Some(ProofAgent)
    else None
  }

  function Bracketed(host: string): string {
    if ':' in host then "[" + host + "]" else host
  }

  function Suffix(port: Option<nat>): string {
    if port.None? then "" else ":" + Decimal(port.value)
  }

  /** The port that remains when the scheme's default is dropped. */
  function KeptPort(scheme: Scheme, port: Option<nat>): Option<nat> {
    if scheme.Https? && port == Some(443) then None else port
  }

  predicate EndsInColon(s: string) {
    s != "" && s[|s| - 1] == ':'
  }

  const LOCALHOST := "localhost"

  function NetworkForm(f: Compressor, scheme: Scheme, netloc: string, host: string, port: Option<nat>): Option<string> {
    if EndsInColon(netloc) || port == Some(0) || CanonicalHost(f, host).None? then None
    else Some(Bracketed(CanonicalHost(f, host).value) + Suffix(KeptPort(scheme, port)))
  }

  function BucketForm(f: Compressor, netloc: string, host: string): Option<string> {
    if netloc == "" || host != Lower(netloc) then None else CanonicalHost(f, host)
  }

  function FileForm(netloc: string, host: string, port: Option<nat>): Option<string> {
    if EndsInColon(netloc) then None
    else if netloc == "" then Some("")
    else if host != LOCALHOST || port.Some? then None
    else Some(LOCALHOST)
  }

  /** What each scheme makes of an authority, its hostname and its port. */
  function SchemeForm(f: Compressor, scheme: Scheme, netloc: string, host: string, port: Option<nat>): Option<string> {
    match scheme
    case S3 => BucketForm(f, netloc, host)
    case File => FileForm(netloc, host, port)
    case _ => NetworkForm(f, scheme, netloc, host, port)
  }

  function CanonicalAuthority(f: Compressor, scheme: Scheme, netloc: string): Option<string> {
    var info := SplitHost(netloc);
    var host := Hostname(info.host);
    var port := PortOf(info.portText);
    if !BracketsOk(f, netloc) || port.None? || '@' in netloc then None
    else SchemeForm(f, scheme, netloc, host, port.value)
  }

  datatype Parsed = Parsed(schemeText: string, netloc: string, path: string)

  function PathFrom(rest: string): string {
    rest[Find(rest, '/', 0)..]
  }

  /** Scheme, authority and path of "scheme://authority/path". */
  function Parse(value: string): Option<Parsed> {
    var remainder := After(value, ':');
    if ':' !in value || !("//" <= remainder) then None
    else
      Some(Parsed(Lower(Before(value, ':')), Before(remainder[2..], '/'), PathFrom(remainder[2..])))
  }

  function Canonicalize(f: Compressor, value: string): Option<string> {
    var parsed := Parse(value);
    if !UriCharactersOk(value) || '?' in value || '#' in value then None
    else if parsed.None? || SchemeOf(parsed.value.schemeText).None? || !CanonicalPath(parsed.value.path) then None
    else
      var p := parsed.value;
      var authority := CanonicalAuthority(f, SchemeOf(p.schemeText).value, p.netloc);
      if authority.None? then None else Some(Render(p.schemeText, authority.value, p.path))
  }

  function Render(schemeText: string, authority: string, path: string): string {
    schemeText + "://" + authority + path
  }

  // ----- taking a URI apart and putting it together -----

  lemma NetlocOf(authority: string, path: string)
    requires '/' !in authority && (path == "" || path[0] == '/')
    ensures Before(authority + path, '/') == authority && PathFrom(authority + path) == path
  {
    TakeDrop(authority, path);
    if path == "" {
      assert authority + path == authority;
      PartitionNowhere(authority, '/');
    } else {
      assert authority + path == authority + ['/'] + path[1..];
      PartitionAt(authority, '/', path[1..]);
    }
  }

  lemma ParseRender(scheme: string, authority: string, path: string)
    requires ':' !in scheme && '/' !in authority && (path == "" || path[0] == '/')
    ensures Parse(Render(scheme, authority, path)) == Some(Parsed(Lower(scheme), authority, path))
  {
    var value, tail := Render(scheme, authority, path), "//" + (authority + path);
    RenderShape(scheme, authority, path);
    PartitionAt(scheme, ':', tail);
    TakeDrop("//", authority + path);
    NetlocOf(authority, path);
    assert "//" <= tail;
    assert ':' in value;
  }

  lemma RenderShape(scheme: string, authority: string, path: string)
    ensures Render(scheme, authority, path) == scheme + [':'] + ("//" + (authority + path))
  {
  }

  /** A URI text is its parts. */
  lemma ParseParts(value: string)
    requires Parse(value).Some?
    ensures var p := Parse(value).value;
            && value == Before(value, ':') + [':'] + ("//" + (p.netloc + p.path))
            && '/' !in p.netloc && (p.path == "" || p.path[0] == '/')
  {
    var remainder := After(value, ':');
    PartitionIn(value, ':');
    AfterSlashes(remainder);
    RestParts(remainder[2..]);
  }

  lemma AfterSlashes(remainder: string)
    requires "//" <= remainder
    ensures remainder == "//" + remainder[2..]
  {
  }

  lemma RestParts(rest: string)
    ensures rest == Before(rest, '/') + PathFrom(rest) && '/' !in Before(rest, '/')
    ensures PathFrom(rest) == "" || PathFrom(rest)[0] == '/'
  {
    PartitionWhole(rest, '/');
  }

  predicate GoodCharacter(c: char) {
    PlainCharacter(c) && c != '?' && c != '#' && c != '/' && c != '@'
  }

  predicate AllGood(s: string) {
    forall c | c in s :: GoodCharacter(c)
  }

  lemma AcceptedParts(f: Compressor, value: string)
    requires Canonicalize(f, value).Some?
    ensures var p := Parse(value).value;
            && SchemeOf(p.schemeText).Some? && CanonicalAuthority(f, SchemeOf(p.schemeText).value, p.netloc).Some?
            && AllGood(p.netloc) && UriCharactersOk(p.netloc)
            && UriCharactersOk(p.path) && p.path[0] == '/' && '?' !in p.path && '#' !in p.path
  {
    PartsOk(value);
    NoAt(f, SchemeOf(Parse(value).value.schemeText).value, Parse(value).value.netloc);
  }

  lemma PartsOk(value: string)
    requires UriCharactersOk(value) && Parse(value).Some?
    ensures var p := Parse(value).value;
            && UriCharactersOk(p.netloc) && UriCharactersOk(p.path)
            && '/' !in p.netloc
            && forall c | c in p.netloc || c in p.path :: c in value
  {
    var p := Parse(value).value;
    ParseParts(value);
    var head, rest := Before(value, ':'), p.netloc + p.path;
    WholeIsOk(head, rest);
    UriCharactersAppend(p.netloc, p.path);
    PartsInside(value, head, p.netloc, p.path);
  }

  /** What goes for every character of a text goes for its parts. */
  lemma PartsInside(value: string, head: string, a: string, b: string)
    requires value == head + [':'] + ("//" + (a + b))
    ensures forall c | c in a || c in b :: c in value
  {
    assert forall c | c in a + b :: c in "//" + (a + b);
  }

  lemma WholeIsOk(head: string, rest: string)
    ensures UriCharactersOk(head + [':'] + ("//" + rest)) <==> UriCharactersOk(head) && UriCharactersOk(rest)
  {
    var tail := "//" + rest;
    assert head + [':'] + tail == head + ([':'] + tail);
    UriCharactersAppend(head, [':'] + tail);
    UriCharactersCons(':', tail);
    UriCharactersPrefix("//", rest);
  }

  lemma NoAt(f: Compressor, scheme: Scheme, netloc: string)
    requires CanonicalAuthority(f, scheme, netloc).Some?
    ensures '@' !in netloc
  {
  }

  // ----- hosts, once canonical -----

  /** The zone of a bracketed host starts with two digits, if there is one. */
  predicate KeepsZone(netloc: string) {
    ZoneSurvives(SplitHost(netloc).host)
  }

  predicate ZoneSurvives(host: string) {
    var i := Find(host, '%', 0);
    i == |host| || (i + 2 < |host| && IsDigit(host[i + 1]) && IsDigit(host[i + 2]))
  }

  /** Everything the rest needs to know about a canonical host. */
  ghost predicate HostFits(f: Compressor, h: string) {
    && h != "" && Hostname(h) == h && CanonicalHost(f, h) == Some(h)
    && ']' !in h
    && (if ':' in h then Literal(f, h).Some? && h[0] != 'v' else '[' !in h)
  }

  lemma PiecesOk(s: string, c: char)
    requires UriCharactersOk(s) && PlainCharacter(c) && c != '%' && !IsHex(c)
    ensures UriCharactersOk(Before(s, c)) && UriCharactersOk(After(s, c))
  {
    PartitionWhole(s, c);
    if c in s {
      UriCharactersAppend(Before(s, c), [c] + After(s, c));
      UriCharactersCons(c, After(s, c));
    } else {
      PartitionNowhere(s, c);
      UnescapedIsOk("");
    }
  }

  lemma RawHostOk(netloc: string)
    requires UriCharactersOk(netloc) && AllGood(netloc)
    ensures var raw := SplitHost(netloc).host;
            UriCharactersOk(raw) && AllGood(raw) && |raw| <= |netloc|
            && (if '[' in netloc then ']' !in raw && |raw| < |netloc| else '[' !in raw && ':' !in raw)
  {
    if '[' in netloc {
      PartitionWhole(netloc, '[');
      PiecesOk(netloc, '[');
      PiecesOk(After(netloc, '['), ']');
      PartitionWhole(After(netloc, '['), ']');
    } else {
      PiecesOk(netloc, ':');
      PartitionWhole(netloc, ':');
    }
  }

  lemma LowerAllGood(s: string)
    requires AllGood(s)
    ensures AllGood(Lower(s))
  {
    assert forall i | 0 <= i < |s| :: s[i] in s;
    assert forall i | 0 <= i < |s| :: GoodCharacter(Lower(s)[i]);
  }

  lemma HostnameWithoutZone(raw: string)
    requires '%' !in raw
    ensures Hostname(raw) == Lower(raw) && ZoneSurvives(raw)
  {
    PartitionNowhere(raw, '%');
  }

  lemma HostnameWithZone(raw: string)
    requires '%' in raw
    ensures Hostname(raw) == Lower(Before(raw, '%')) + ['%'] + After(raw, '%')
    ensures '%' !in Before(Hostname(raw), '%') && After(Hostname(raw), '%') == After(raw, '%') && '%' in Hostname(raw)
  {
    PartitionWhole(raw, '%');
    var address, zone := Before(raw, '%'), After(raw, '%');
    assert raw == address + (['%'] + zone);
    TakeDrop(address, ['%'] + zone);
    LowerKeepsOthers(address, '%');
    PartitionAt(Lower(address), '%', zone);
    assert Hostname(raw) == Lower(address) + ['%'] + zone;
  }

  lemma HostnameCharacters(raw: string)
    requires AllGood(raw)
    ensures AllGood(Hostname(raw)) && |Hostname(raw)| == |raw|
    ensures forall c | c == '%' || c == ']' || c == '[' || c == ':' :: c in Hostname(raw) <==> c in raw
  {
    var i := Find(raw, '%', 0);
    assert raw == raw[..i] + raw[i..];
    assert AllGood(raw[..i]) && AllGood(raw[i..]);
    LowerAllGood(raw[..i]);
    LowerKeepsOthers(raw[..i], '%');
    LowerKeepsOthers(raw[..i], ']');
    LowerKeepsOthers(raw[..i], '[');
    LowerKeepsOthers(raw[..i], ':');
  }

  lemma DottedCharacters(host: string)
    ensures IsIPv4(host) ==> forall c | c in host :: IsDigit(c) || c == '.'
    ensures IsRegisteredName(host) ==> forall c | c in host :: IsAlnum(c) || c == '-' || c == '.'
  {
    forall c | c in host && c != '.' ensures exists p :: p in Split(host, '.') && c in p {
      SplitCharacters(host, '.', c);
    }
  }

  /** A canonical host is its own canonical form, and passes the character
      checks unless lower-casing has spoilt an escape in its zone. */
  lemma CanonicalHostFits(f: Compressor, raw: string)
    requires UriCharactersOk(raw) && AllGood(raw) && ']' !in raw
    requires CanonicalHost(f, Hostname(raw)).Some?
    ensures var h := CanonicalHost(f, Hostname(raw)).value;
            HostFits(f, h) && AllGood(h) && (UriCharactersOk(h) <==> ZoneSurvives(raw))
  {
    var host := Hostname(raw);
    HostnameCharacters(raw);
    if IsIPv4(host) || Literal(f, host).None? {
      NamedHostFits(f, raw);
    } else if '%' in host {
      HostnameWithZone(raw);
      ZonedHostFits(f, raw);
    } else {
      HostnameWithoutZone(raw);
      Compressed(f, host);
      AddressFits(f, f(host).value);
    }
  }

  lemma NamedHostFits(f: Compressor, raw: string)
    requires AllGood(raw) && ']' !in raw && CanonicalHost(f, Hostname(raw)).Some?
    requires IsIPv4(Hostname(raw)) || Literal(f, Hostname(raw)).None?
    ensures var h := CanonicalHost(f, Hostname(raw)).value;
            HostFits(f, h) && AllGood(h) && UriCharactersOk(h) && ZoneSurvives(raw)
  {
    HostnameCharacters(raw);
    DottedCharacters(Hostname(raw));
    assert '%' !in Hostname(raw);
    HostnameWithoutZone(raw);
    LowerTwice(raw);
    NameFits(f, raw);
  }

  lemma NameFits(f: Compressor, raw: string)
    requires AllGood(raw) && '%' !in raw
    requires CanonicalHost(f, Lower(raw)) == Some(Lower(raw))
    requires ']' !in Lower(raw) && '[' !in Lower(raw) && ':' !in Lower(raw)
    ensures HostFits(f, Lower(raw)) && AllGood(Lower(raw)) && UriCharactersOk(Lower(raw))
  {
    var h := Lower(raw);
    LowerTwice(raw);
    LowerKeepsOthers(raw, '%');
    HostnameWithoutZone(h);
    LowerAllGood(raw);
    UnescapedIsOk(h);
  }

  lemma AddressCharacters(c: string)
    requires forall x | x in c :: AddressCharacter(x)
    ensures Lower(c) == c && AllGood(c) && '%' !in c && ']' !in c
    ensures c != "" ==> c[0] != 'v'
  {
    assert forall x :: AddressCharacter(x) ==> GoodCharacter(x) && LowerChar(x) == x && x != '%' && x != ']' && x != 'v';
    assert forall i | 0 <= i < |c| :: c[i] in c;
    assert Lower(c) == c;
  }

  lemma AddressFits(f: Compressor, c: string)
    requires f(c) == Some(c)
    ensures Lower(c) == c && HostFits(f, c) && AllGood(c) && '%' !in c && UriCharactersOk(c)
  {
    Compressed(f, c);
    AddressCharacters(c);
    DottedCharacters(c);
    HostnameWithoutZone(c);
    UnescapedIsOk(c);
  }

  lemma LowerZoned(c: string, zone: string)
    requires Lower(c) == c
    ensures Lower(c + "%" + zone) == c + ['%'] + Lower(zone)
  {
    LowerAppend(c + "%", zone);
    LowerAppend(c, "%");
  }

  lemma ZonedLiteral(f: Compressor, c: string, low: string)
    requires f(c) == Some(c) && '%' !in c && low != "" && '%' !in low
    ensures Literal(f, c + ['%'] + low) == Some(c + ['%'] + low)
  {
    PartitionAt(c, '%', low);
    assert c + ['%'] + low == c + "%" + low;
    assert '%' in c + ['%'] + low;
  }

  lemma ZonedCharacters(c: string, low: string)
    requires (forall x | x in c :: AddressCharacter(x)) && ':' in c
    requires low != "" && ']' !in low && AllGood(low) && low[|low| - 1] != '.'
    ensures var h := c + ['%'] + low;
            && AllGood(h) && ':' in h && '%' in h && ']' !in h
            && h[|h| - 1] != '.' && h[0] != 'v' && !IsIPv4(h)
  {
    var h := c + ['%'] + low;
    AddressCharacters(c);
    assert h[|h| - 1] == low[|low| - 1] && h[0] == c[0];
    assert '%' in h;
    DottedCharacters(h);
  }

  lemma ZonedIsFixed(f: Compressor, c: string, low: string)
    requires f(c) == Some(c)
    requires low != "" && '%' !in low && ']' !in low && Lower(low) == low && AllGood(low) && low[|low| - 1] != '.'
    ensures var h := c + ['%'] + low; HostFits(f, h) && AllGood(h)
  {
    Compressed(f, c);
    AddressCharacters(c);
    ZonedCharacters(c, low);
    ZonedLiteral(f, c, low);
    LowerZoned(c, low);
    assert c + "%" + low == c + ['%'] + low;
    PartitionAt(c, '%', low);
    HostnameWithZone(c + ['%'] + low);
  }

  lemma ZonedHostFits(f: Compressor, raw: string)
    requires UriCharactersOk(raw) && AllGood(raw) && ']' !in raw
    requires '%' in raw && '%' in Hostname(raw) && After(Hostname(raw), '%') == After(raw, '%')
    requires Literal(f, Hostname(raw)).Some? && |Hostname(raw)| == |raw| && Hostname(raw)[|raw| - 1] != '.'
    ensures var h := Lower(Literal(f, Hostname(raw)).value);
            HostFits(f, h) && AllGood(h) && (UriCharactersOk(h) <==> ZoneSurvives(raw))
  {
    var host, zone := Hostname(raw), After(raw, '%');
    var c := f(Before(host, '%')).value;
    Compressed(f, Before(host, '%'));
    AddressCharacters(c);
    LowerZoned(c, zone);
    PartitionWhole(host, '%');
    assert host[|host| - 1] == zone[|zone| - 1];
    ZonePart(raw);
    LoweredZone(zone);
    ZonedIsFixed(f, c, Lower(zone));
    ZoneLowering(Before(raw, '%'), c, zone);
  }

  lemma ZonePart(raw: string)
    requires AllGood(raw) && ']' !in raw && '%' in raw
    ensures raw == Before(raw, '%') + ['%'] + After(raw, '%') && '%' !in Before(raw, '%')
    ensures AllGood(After(raw, '%')) && ']' !in After(raw, '%')
  {
    PartitionIn(raw, '%');
    TailInside(Before(raw, '%') + ['%'], After(raw, '%'));
  }

  lemma TailInside(front: string, tail: string)
    ensures forall x | x in tail :: x in front + tail
  {
  }

  lemma LoweredZone(zone: string)
    requires AllGood(zone) && ']' !in zone && '%' !in zone
    ensures AllGood(Lower(zone)) && ']' !in Lower(zone) && '%' !in Lower(zone) && Lower(Lower(zone)) == Lower(zone)
  {
    LowerTwice(zone);
    LowerAllGood(zone);
    LowerKeepsOthers(zone, '%');
    LowerKeepsOthers(zone, ']');
  }

  /** Lower-casing a zone keeps its escape acceptable exactly when the escape has
      no letters. */
  lemma ZoneLowering(address: string, c: string, zone: string)
    requires '%' !in address && '%' !in zone && AllGood(c) && '%' !in c
    requires UriCharactersOk(address + ['%'] + zone)
    ensures UriCharactersOk(c + ['%'] + Lower(zone)) <==> ZoneSurvives(address + ['%'] + zone)
  {
    WithoutAddress(address, zone);
    WithoutAddress(c, Lower(zone));
    GoodZone(zone);
    PartitionAt(address, '%', zone);
    var whole := address + ['%'] + zone;
    assert whole[|address| + 1] == zone[0] && whole[|address| + 2] == zone[1];
    LoneEscape(zone);
    if IsDigit(zone[0]) && IsDigit(zone[1]) {
      LoweredEscape(zone);
    } else {
      SpoiltEscape(zone);
    }
  }

  lemma WithoutAddress(address: string, zone: string)
    requires '%' !in address && forall c | c in address :: PlainCharacter(c)
    ensures UriCharactersOk(address + ['%'] + zone) <==> UriCharactersOk(['%'] + zone)
  {
    assert address + ['%'] + zone == address + (['%'] + zone);
    UriCharactersPrefix(address, ['%'] + zone);
  }

  lemma GoodZone(zone: string)
    requires UriCharactersOk(['%'] + zone)
    ensures |zone| >= 2 && IsUpperHex(zone[0]) && IsUpperHex(zone[1])
  {
    assert GoodEscape(['%'] + zone, 0);
  }

  lemma SpoiltEscape(zone: string)
    requires |zone| >= 2 && IsUpperHex(zone[0]) && IsUpperHex(zone[1])
    requires !(IsDigit(zone[0]) && IsDigit(zone[1]))
    ensures !UriCharactersOk(['%'] + Lower(zone))
  {
    var low := ['%'] + Lower(zone);
    assert low[1] == LowerChar(zone[0]) && low[2] == LowerChar(zone[1]);
    assert !GoodEscape(low, 0);
  }

  lemma DecodeLone(zone: string)
    requires |zone| >= 2 && IsHex(zone[0]) && IsHex(zone[1]) && '%' !in zone
    ensures Decode(['%'] + zone) == [Escaped(['%'] + zone, 0)] + zone[2..]
  {
    var s := ['%'] + zone;
    assert s[3..] == zone[2..] && EscapeAt(s, 0);
    NothingToDecode(zone[2..]);
  }

  /** One escape followed by plain text: the byte it stands for is ASCII. */
  lemma LoneEscape(zone: string)
    requires UriCharactersOk(['%'] + zone) && '%' !in zone
    requires |zone| >= 2 && IsHex(zone[0]) && IsHex(zone[1])
    ensures PlainOrSpace(Escaped(['%'] + zone, 0))
  {
    var s := ['%'] + zone;
    DecodeLone(zone);
    var b := Escaped(s, 0);
    var bytes := [b] + zone[2..];
    assert bytes[0] in bytes;
    assert |zone| > 2 ==> bytes[1] == zone[2] && zone[2] == s[3] && s[3] in s;
  }

  predicate PlainOrSpace(c: char) {
    c as int < 0x80 && !IsControl(c) && c != '\\'
  }

  lemma LoweredEscape(zone: string)
    requires UriCharactersOk(['%'] + zone) && '%' !in zone
    requires |zone| >= 2 && IsDigit(zone[0]) && IsDigit(zone[1])
    requires PlainOrSpace(Escaped(['%'] + zone, 0))
    ensures UriCharactersOk(['%'] + Lower(zone))
  {
    var rest := zone[2..];
    RestIsPlain(zone);
    LowerPlain(rest);
    LowerKeepsOthers(rest, '%');
    UnescapedIsOk(Lower(rest));
    assert GoodEscape(['%'] + zone, 0);
    var low := ['%'] + Lower(zone);
    assert low[1] == zone[0] && low[2] == zone[1];
    assert low[3..] == Lower(rest);
    EscapeThenRest(low);
  }

  lemma RestIsPlain(zone: string)
    requires |zone| >= 2 && '%' !in zone && forall c | c in ['%'] + zone :: PlainCharacter(c)
    ensures '%' !in zone[2..] && forall c | c in zone[2..] :: PlainCharacter(c)
  {
    assert forall c | c in zone[2..] :: c in zone;
    assert forall c | c in zone :: c in ['%'] + zone;
  }

  lemma EscapeThenRest(s: string)
    requires GoodEscape(s, 0) && PlainOrSpace(Escaped(s, 0))
    requires UriCharactersOk(s[3..])
    ensures UriCharactersOk(s)
  {
    CheckedByTokens(s);
    DecodedOkCons(Escaped(s, 0), Decode(s[3..]));
    forall c | c in s ensures PlainCharacter(c) {
      var i :| 0 <= i < |s| && s[i] == c;
      if i >= 3 {
        assert s[3..][i - 3] == c;
      }
    }
  }

  lemma DecodedOkCons(b: char, bytes: string)
    requires PlainOrSpace(b) && DecodedOk(bytes)
    ensures DecodedOk([b] + bytes)
  {
    assert SequenceLength([b] + bytes) == 1 && ([b] + bytes)[1..] == bytes;
  }

  lemma LowerPlain(s: string)
    requires forall c | c in s :: PlainCharacter(c)
    ensures forall c | c in Lower(s) :: PlainCharacter(c)
  {
    assert forall i | 0 <= i < |s| :: s[i] in s;
    assert forall i | 0 <= i < |s| :: PlainCharacter(Lower(s)[i]);
  }

  // ----- authorities, once canonical -----

  function PortText(port: Option<nat>): string {
    if port.None? then "" else Decimal(port.value)
  }

  lemma SuffixShape(port: Option<nat>)
    requires port.Some? ==> port.value <= 65535
    ensures After(Suffix(port), ':') == PortText(port) && PortOf(PortText(port)) == Some(port)
    ensures '[' !in Suffix(port) && ']' !in Suffix(port) && !EndsInColon(Suffix(port))
    ensures AllGood(Suffix(port)) && '%' !in Suffix(port) && Boundary(Suffix(port))
  {
    if port.Some? {
      DecimalRoundTrip(port.value);
      ColonDigits(Decimal(port.value));
    } else {
      PartitionNowhere("", ':');
    }
  }

  lemma ColonDigits(digits: string)
    requires AllDigits(digits) && digits != ""
    ensures var text := ":" + digits;
            && After(text, ':') == digits && !EndsInColon(text) && Boundary(text)
            && '[' !in text && ']' !in text && '%' !in text && AllGood(text)
  {
    var text := ":" + digits;
    PartitionAt("", ':', digits);
    assert "" + [':'] + digits == text;
    var last := digits[|digits| - 1];
    assert text[|text| - 1] == last;
    assert last in digits;
    ColonDigitsCharacters(digits, text);
  }

  lemma ColonDigitsCharacters(digits: string, text: string)
    requires AllDigits(digits) && text == ":" + digits
    ensures '[' !in text && ']' !in text && '%' !in text && AllGood(text)
  {
    assert forall c | c in text :: c == ':' || IsDigit(c);
  }

  /** A canonical authority reads back as the host and port it was made of. */
  lemma AuthorityReparses(f: Compressor, h: string, port: Option<nat>)
    requires HostFits(f, h) && (port.Some? ==> port.value <= 65535)
    ensures var authority := Bracketed(h) + Suffix(port);
            && SplitHost(authority) == HostInfo(h, PortText(port))
            && BracketsOk(f, authority) && !EndsInColon(authority)
  {
    var suffix := Suffix(port);
    SuffixShape(port);
    if ':' in h {
      BracketedReparses(f, h, suffix, PortText(port));
    } else {
      PlainReparses(h, suffix, port);
    }
  }

  lemma BracketedReparses(f: Compressor, h: string, suffix: string, portText: string)
    requires HostFits(f, h) && ':' in h
    requires After(suffix, ':') == portText && !EndsInColon(suffix)
    ensures var authority := "[" + h + "]" + suffix;
            && SplitHost(authority) == HostInfo(h, portText)
            && BracketsOk(f, authority) && !EndsInColon(authority)
  {
    BracketedSplits(h, suffix);
  }

  lemma BracketedSplits(h: string, suffix: string)
    requires ']' !in h && !EndsInColon(suffix)
    ensures var authority := "[" + h + "]" + suffix;
            && SplitHost(authority) == HostInfo(h, After(suffix, ':'))
            && '[' in authority && ']' in authority && !EndsInColon(authority)
  {
    var authority, inner := "[" + h + "]" + suffix, h + [']'] + suffix;
    assert authority == "" + ['['] + inner;
    PartitionAt("", '[', inner);
    PartitionAt(h, ']', suffix);
    assert authority[0] == '[' && inner[|h|] == ']';
    assert ']' in inner && inner == After(authority, '[');
    assert authority[|h| + 1] == ']';
    if suffix != "" {
      assert authority[|authority| - 1] == suffix[|suffix| - 1];
    }
  }

  lemma PlainReparses(h: string, suffix: string, port: Option<nat>)
    requires ':' !in h && '[' !in h && ']' !in h && h != ""
    requires suffix == Suffix(port) && '[' !in suffix && ']' !in suffix && !EndsInColon(suffix)
    ensures SplitHost(h + suffix) == HostInfo(h, PortText(port))
    ensures '[' !in h + suffix && ']' !in h + suffix && !EndsInColon(h + suffix)
  {
    if port.None? {
      assert h + suffix == h;
      PartitionNowhere(h, ':');
      assert h[|h| - 1] in h;
    } else {
      assert h + suffix == h + [':'] + Decimal(port.value);
      PartitionAt(h, ':', Decimal(port.value));
      assert (h + suffix)[|h + suffix| - 1] == suffix[|suffix| - 1];
    }
  }

  /** Section 6.2.3 of RFC 3986: an https authority without a port means 443. */
  function EffectivePort(scheme: Scheme, port: Option<nat>): Option<nat> {
    if scheme.Https? && port.None? then Some(443) else port
  }

  function HostOf(f: Compressor, scheme: Scheme, host: string): string {
    if scheme.File? || CanonicalHost(f, host).None? then host else CanonicalHost(f, host).value
  }

  datatype Authority = Authority(host: string, port: Option<nat>)

  /** What an authority means: its host in canonical form and its effective
      port. */
  function HostAndPort(f: Compressor, scheme: Scheme, netloc: string): Authority {
    var port := PortOf(SplitHost(netloc).portText);
    Authority(HostOf(f, scheme, Hostname(SplitHost(netloc).host)), EffectivePort(scheme, if port.Some? then port.value else None))
  }

  lemma UnbracketedHost(netloc: string)
    requires '[' in netloc <==> ']' in netloc
    requires UriCharactersOk(netloc) && AllGood(netloc)
    ensures ']' !in SplitHost(netloc).host
  {
    RawHostOk(netloc);
    if '[' !in netloc {
      PartitionWhole(netloc, ':');
      assert forall c | c in Before(netloc, ':') :: c in netloc;
    }
  }

  /** The authority reads back as itself, with the same meaning. */
  ghost predicate AuthorityFits(f: Compressor, scheme: Scheme, authority: string, meaning: Authority) {
    && CanonicalAuthority(f, scheme, authority) == Some(authority)
    && AllGood(authority)
    && HostAndPort(f, scheme, authority) == meaning
  }

  lemma NetworkAuthority(f: Compressor, scheme: Scheme, netloc: string)
    requires scheme.Https? || scheme.ProofAgent?
    requires CanonicalAuthority(f, scheme, netloc).Some? && UriCharactersOk(netloc) && AllGood(netloc)
    ensures var authority := CanonicalAuthority(f, scheme, netloc).value;
            && AuthorityFits(f, scheme, authority, HostAndPort(f, scheme, netloc))
            && (UriCharactersOk(authority) <==> KeepsZone(netloc))
  {
    var m := HostAndPort(f, scheme, netloc);
    NetworkWrites(f, scheme, netloc);
    RawHostOk(netloc);
    UnbracketedHost(netloc);
    CanonicalHostFits(f, SplitHost(netloc).host);
    NetworkRoundTrip(f, scheme, m.host, KeptPort(scheme, m.port));
  }

  /** The canonical authority is written from its meaning. */
  lemma NetworkWrites(f: Compressor, scheme: Scheme, netloc: string)
    requires scheme.Https? || scheme.ProofAgent?
    requires CanonicalAuthority(f, scheme, netloc).Some?
    ensures '[' in netloc <==> ']' in netloc
    ensures var m := HostAndPort(f, scheme, netloc);
            var port := KeptPort(scheme, m.port);
            && CanonicalHost(f, Hostname(SplitHost(netloc).host)) == Some(m.host)
            && CanonicalAuthority(f, scheme, netloc) == Some(Bracketed(m.host) + Suffix(port))
            && port != Some(0) && (port.Some? ==> port.value <= 65535) && EffectivePort(scheme, port) == m.port
  {
    var port := PortOf(SplitHost(netloc).portText).value;
    assert KeptPort(scheme, EffectivePort(scheme, port)) == KeptPort(scheme, port);
    assert EffectivePort(scheme, KeptPort(scheme, port)) == EffectivePort(scheme, port);
  }

  lemma NetworkRoundTrip(f: Compressor, scheme: Scheme, h: string, port: Option<nat>)
    requires scheme.Https? || scheme.ProofAgent?
    requires HostFits(f, h) && AllGood(h)
    requires port != Some(0) && KeptPort(scheme, port) == port && (port.Some? ==> port.value <= 65535)
    ensures var authority := Bracketed(h) + Suffix(port);
            && AuthorityFits(f, scheme, authority, Authority(h, EffectivePort(scheme, port)))
            && (UriCharactersOk(authority) <==> UriCharactersOk(h))
  {
    NetworkParts(f, h, port, Suffix(port));
    NetworkReads(f, scheme, Bracketed(h) + Suffix(port), h, PortText(port), port);
  }

  lemma NetworkParts(f: Compressor, h: string, port: Option<nat>, suffix: string)
    requires HostFits(f, h) && AllGood(h)
    requires suffix == Suffix(port) && (port.Some? ==> port.value <= 65535)
    ensures PortOf(PortText(port)) == Some(port)
    ensures var authority := Bracketed(h) + suffix;
            && SplitHost(authority) == HostInfo(h, PortText(port))
            && BracketsOk(f, authority) && !EndsInColon(authority)
            && AllGood(authority) && (UriCharactersOk(authority) <==> UriCharactersOk(h))
  {
    AuthorityReparses(f, h, port);
    SuffixShape(port);
    AuthorityCharacters(h, suffix);
  }

  lemma NetworkReads(f: Compressor, scheme: Scheme, authority: string, h: string, portText: string, port: Option<nat>)
    requires scheme.Https? || scheme.ProofAgent?
    requires SplitHost(authority) == HostInfo(h, portText) && PortOf(portText) == Some(port)
    requires BracketsOk(f, authority) && !EndsInColon(authority) && AllGood(authority)
    requires Hostname(h) == h && CanonicalHost(f, h) == Some(h)
    requires port != Some(0) && KeptPort(scheme, port) == port
    requires authority == Bracketed(h) + Suffix(port)
    ensures AuthorityFits(f, scheme, authority, Authority(h, EffectivePort(scheme, port)))
  {
    AuthorityFrom(f, scheme, authority, h, port);
    NetworkFormOf(f, scheme, authority, h, port);
  }

  lemma NetworkFormOf(f: Compressor, scheme: Scheme, authority: string, h: string, port: Option<nat>)
    requires scheme.Https? || scheme.ProofAgent?
    requires !EndsInColon(authority) && CanonicalHost(f, h) == Some(h)
    requires port != Some(0) && KeptPort(scheme, port) == port
    ensures SchemeForm(f, scheme, authority, h, port) == Some(Bracketed(h) + Suffix(port))
  {
  }

  lemma AuthorityFrom(f: Compressor, scheme: Scheme, netloc: string, host: string, port: Option<nat>)
    requires Hostname(SplitHost(netloc).host) == host && PortOf(SplitHost(netloc).portText) == Some(port)
    ensures CanonicalAuthority(f, scheme, netloc) ==
            if BracketsOk(f, netloc) && '@' !in netloc then SchemeForm(f, scheme, netloc, host, port) else None
  {
  }

  lemma AuthorityCharacters(h: string, suffix: string)
    requires AllGood(h) && AllGood(suffix) && '%' !in suffix
    requires Boundary(suffix)
    ensures AllGood(Bracketed(h) + suffix)
    ensures UriCharactersOk(Bracketed(h) + suffix) <==> UriCharactersOk(h)
  {
    UnescapedIsOk(suffix);
    UriCharactersAppend(Bracketed(h), suffix);
    if ':' in h {
      UriCharactersAppend("[" + h, "]");
      UnescapedIsOk("]");
      UriCharactersCons('[', h);
      assert "[" + h == ['['] + h;
    }
  }

  lemma BucketAuthority(f: Compressor, netloc: string)
    requires CanonicalAuthority(f, S3, netloc).Some? && UriCharactersOk(netloc) && AllGood(netloc)
    ensures var authority := CanonicalAuthority(f, S3, netloc).value;
            && AuthorityFits(f, S3, authority, HostAndPort(f, S3, netloc))
            && UriCharactersOk(authority) && KeepsZone(netloc)
  {
    BucketWrites(f, netloc);
    BucketHostFits(f, netloc, SplitHost(netloc).host);
    BucketReads(f, Lower(netloc));
  }

  lemma BucketHostFits(f: Compressor, netloc: string, raw: string)
    requires UriCharactersOk(netloc) && AllGood(netloc) && '[' !in netloc && ']' !in netloc
    requires SplitHost(netloc).host == raw && Hostname(raw) == Lower(netloc) && ZoneSurvives(raw)
    requires CanonicalHost(f, Lower(netloc)) == Some(Lower(netloc))
    ensures HostFits(f, Lower(netloc)) && AllGood(Lower(netloc)) && UriCharactersOk(Lower(netloc))
    ensures Lower(Lower(netloc)) == Lower(netloc)
  {
    RawHostOk(netloc);
    UnbracketedHost(netloc);
    CanonicalHostFits(f, raw);
    LowerTwice(netloc);
  }

  lemma BucketWrites(f: Compressor, netloc: string)
    requires CanonicalAuthority(f, S3, netloc).Some? && UriCharactersOk(netloc) && AllGood(netloc)
    ensures '[' !in netloc && ']' !in netloc && KeepsZone(netloc) && ':' !in Lower(netloc)
    ensures Hostname(SplitHost(netloc).host) == Lower(netloc)
    ensures CanonicalHost(f, Lower(netloc)) == Some(Lower(netloc))
    ensures CanonicalAuthority(f, S3, netloc) == Some(Lower(netloc))
    ensures HostAndPort(f, S3, netloc) == Authority(Lower(netloc), None)
  {
    var raw := SplitHost(netloc).host;
    RawHostOk(netloc);
    HostnameCharacters(raw);
    BucketForms(f, netloc);
    BucketHost(f, raw, netloc);
    LowerTwice(netloc);
  }

  lemma BucketForms(f: Compressor, netloc: string)
    requires CanonicalAuthority(f, S3, netloc).Some?
    ensures CanonicalAuthority(f, S3, netloc) == CanonicalHost(f, Hostname(SplitHost(netloc).host))
    ensures Hostname(SplitHost(netloc).host) == Lower(netloc)
    ensures '[' in netloc <==> ']' in netloc
  {
  }

  lemma BucketReads(f: Compressor, h: string)
    requires HostFits(f, h) && ':' !in h && Lower(h) == h && AllGood(h)
    ensures AuthorityFits(f, S3, h, Authority(h, None))
  {
    SuffixShape(None);
    PlainReparses(h, "", None);
    assert h + "" == h;
    UsesForm(f, S3, h, h, None);
  }

  lemma NoLiteral(f: Compressor, host: string)
    requires ':' !in host
    ensures Literal(f, host).None?
  {
    PartitionWhole(host, '%');
    if f(host).Some? {
      Compressed(f, host);
    }
    if f(Before(host, '%')).Some? {
      Compressed(f, Before(host, '%'));
    }
  }

  lemma BucketHost(f: Compressor, raw: string, netloc: string)
    requires '[' !in netloc && SplitHost(netloc).host == raw && AllGood(raw) && ':' !in raw
    requires Hostname(raw) == Lower(netloc) && CanonicalHost(f, Hostname(raw)).Some?
    ensures CanonicalHost(f, Hostname(raw)) == Some(Lower(netloc)) && ':' !in Lower(netloc) && ZoneSurvives(raw)
    ensures SplitHost(netloc).portText == ""
  {
    var host := Hostname(raw);
    HostnameCharacters(raw);
    DottedCharacters(host);
    NoLiteral(f, host);
    assert '%' !in host;
    HostnameWithoutZone(raw);
    LowerTwice(raw);
    PartitionWhole(netloc, ':');
    PartitionNowhere(netloc, ':');
  }

  lemma FileAuthority(f: Compressor, netloc: string)
    requires CanonicalAuthority(f, File, netloc).Some?
    ensures var authority := CanonicalAuthority(f, File, netloc).value;
            && AuthorityFits(f, File, authority, HostAndPort(f, File, netloc))
            && UriCharactersOk(authority) && KeepsZone(netloc)
  {
    FileWrites(f, netloc);
    LocalhostIsPlain();
    LocalReads(f, if netloc == "" then "" else LOCALHOST);
    NoZone(SplitHost(netloc).host);
  }

  lemma FileWrites(f: Compressor, netloc: string)
    requires CanonicalAuthority(f, File, netloc).Some?
    ensures var local := if netloc == "" then "" else LOCALHOST;
            && CanonicalAuthority(f, File, netloc) == Some(local)
            && HostAndPort(f, File, netloc) == Authority(local, None)
            && '%' !in Hostname(SplitHost(netloc).host)
  {
    var port := PortOf(SplitHost(netloc).portText);
    var host := Hostname(SplitHost(netloc).host);
    if netloc == "" {
      LocalSplit("");
    }
    FileForms(netloc, host, port.value);
  }

  lemma FileForms(netloc: string, host: string, port: Option<nat>)
    requires FileForm(netloc, host, port).Some?
    ensures netloc == "" ==> FileForm(netloc, host, port) == Some("")
    ensures netloc != "" ==> FileForm(netloc, host, port) == Some(LOCALHOST) && host == LOCALHOST && port.None?
    ensures netloc != "" ==> '%' !in host
  {
  }

  predicate IsPlainLocal(local: string) {
    && '[' !in local && ']' !in local && ':' !in local && '%' !in local
    && Lower(local) == local && AllGood(local)
  }

  lemma LocalhostIsPlain()
    ensures IsPlainLocal(LOCALHOST)
  {
    assert Lower(LOCALHOST) == LOCALHOST;
  }

  lemma NoZone(raw: string)
    ensures '%' !in Hostname(raw) ==> ZoneSurvives(raw)
  {
    if '%' in raw {
      HostnameWithZone(raw);
    } else {
      HostnameWithoutZone(raw);
    }
  }

  lemma LocalSplit(local: string)
    requires IsPlainLocal(local)
    ensures SplitHost(local) == HostInfo(local, "") && Hostname(local) == local && KeepsZone(local)
    ensures UriCharactersOk(local)
  {
    PartitionNowhere(local, ':');
    HostnameWithoutZone(local);
    UnescapedIsOk(local);
  }

  lemma LocalReads(f: Compressor, local: string)
    requires IsPlainLocal(local) && (local == "" || local == LOCALHOST)
    ensures AuthorityFits(f, File, local, Authority(local, None))
    ensures UriCharactersOk(local) && SplitHost(local) == HostInfo(local, "") && Hostname(local) == local
    ensures KeepsZone(local)
  {
    LocalSplit(local);
    LocalForm(local);
    UsesForm(f, File, local, local, None);
    LocalMeaning(f, local);
  }

  lemma LocalForm(local: string)
    requires IsPlainLocal(local) && (local == "" || local == LOCALHOST)
    ensures FileForm(local, local, None) == Some(local)
  {
  }

  lemma LocalMeaning(f: Compressor, local: string)
    requires SplitHost(local) == HostInfo(local, "") && Hostname(local) == local
    ensures HostAndPort(f, File, local) == Authority(local, None)
  {
  }

  /** An authority without brackets or "@" is left to the form of its scheme. */
  lemma UsesForm(f: Compressor, scheme: Scheme, netloc: string, host: string, port: Option<nat>)
    requires AllGood(netloc) && '[' !in netloc && ']' !in netloc
    requires Hostname(SplitHost(netloc).host) == host && PortOf(SplitHost(netloc).portText) == Some(port)
    ensures CanonicalAuthority(f, scheme, netloc) ==
            match scheme
            case S3 => BucketForm(f, netloc, host)
            case File => FileForm(netloc, host, port)
            case _ => NetworkForm(f, scheme, netloc, host, port)
  {
  }

  /** An accepted authority reads back as itself, with the same host and
      effective port, and passes the character checks again unless lower-casing
      has spoilt a zone. */
  lemma CanonicalAuthorityIsStable(f: Compressor, scheme: Scheme, netloc: string)
    requires CanonicalAuthority(f, scheme, netloc).Some? && UriCharactersOk(netloc) && AllGood(netloc)
    ensures var authority := CanonicalAuthority(f, scheme, netloc).value;
            && AuthorityFits(f, scheme, authority, HostAndPort(f, scheme, netloc))
            && (UriCharactersOk(authority) <==> KeepsZone(netloc))
  {
    match scheme
    case S3 => BucketAuthority(f, netloc);
    case File => FileAuthority(f, netloc);
    case _ => NetworkAuthority(f, scheme, netloc);
  }

  // ----- the canonical text -----

  lemma SchemeNames(scheme: Scheme)
    ensures Lower(scheme.Name()) == scheme.Name() && ':' !in scheme.Name() && '%' !in scheme.Name()
    ensures AllGood(scheme.Name()) && SchemeOf(scheme.Name()) == Some(scheme)
  {
    SchemeCharacters(scheme);
    match scheme
    case Https =>
    case S3 =>
    case File =>
    case ProofAgent =>
  }

  predicate SchemeCharacter(c: char) {
    'a' <= c <= 'z' || c == '3'
  }

  lemma SchemeCharacters(scheme: Scheme)
    ensures forall c | c in scheme.Name() :: SchemeCharacter(c)
    ensures Lower(scheme.Name()) == scheme.Name()
  {
    var name := scheme.Name();
    assert forall i | 0 <= i < |name| :: SchemeCharacter(name[i]);
    assert forall i | 0 <= i < |name| :: Lower(name)[i] == name[i];
  }

  /** What a canonical text is made of. */
  lemma CanonicalParts(f: Compressor, value: string)
    requires Canonicalize(f, value).Some?
    ensures var p := Parse(value).value;
            var authority := CanonicalAuthority(f, SchemeOf(p.schemeText).value, p.netloc).value;
            var out := Canonicalize(f, value).value;
            && Parse(out) == Some(Parsed(p.schemeText, authority, p.path))
            && (UriCharactersOk(out) <==> UriCharactersOk(authority))
            && '?' !in out && '#' !in out
  {
    AcceptedParts(f, value);
    var p := Parse(value).value;
    var scheme := SchemeOf(p.schemeText).value;
    SchemeNames(scheme);
    CanonicalAuthorityIsStable(f, scheme, p.netloc);
    var authority := CanonicalAuthority(f, scheme, p.netloc).value;
    ParseRender(p.schemeText, authority, p.path);
    RenderedCharacters(p.schemeText, authority, p.path);
  }

  lemma RenderedCharacters(schemeText: string, authority: string, path: string)
    requires AllGood(schemeText) && '%' !in schemeText && AllGood(authority)
    requires UriCharactersOk(path) && path != "" && path[0] == '/' && '?' !in path && '#' !in path
    ensures var out := Render(schemeText, authority, path);
            && (UriCharactersOk(out) <==> UriCharactersOk(authority))
            && '?' !in out && '#' !in out
  {
    var head := schemeText + "://";
    assert Render(schemeText, authority, path) == head + (authority + path);
    UriCharactersPrefix(head, authority + path);
    UriCharactersAppend(authority, path);
  }

  /** Canonicalising twice is canonicalising once, for all four schemes, with one
      exception: lower-casing a bracketed host can spoil the escape in its zone,
      and then the canonical text is itself refused. */
  lemma CanonicalizeTwice(f: Compressor, value: string)
    requires Canonicalize(f, value).Some?
    ensures var out := Canonicalize(f, value).value;
            Canonicalize(f, out) == if KeepsZone(Parse(value).value.netloc) then Some(out) else None
  {
    AcceptedParts(f, value);
    CanonicalParts(f, value);
    var p := Parse(value).value;
    CanonicalAuthorityIsStable(f, SchemeOf(p.schemeText).value, p.netloc);
  }

  datatype Resource = Resource(scheme: Scheme, authority: Authority, path: string)

  /** The resource an accepted URI names. */
  function Identify(f: Compressor, value: string): Resource
    requires Canonicalize(f, value).Some?
  {
    var p := Parse(value).value;
    var scheme := SchemeOf(p.schemeText).value;
    Resource(scheme, HostAndPort(f, scheme, p.netloc), p.path)
  }

  /** Canonicalising keeps the scheme, the host, the effective port and the
      path. */
  lemma CanonicalizeKeepsResource(f: Compressor, value: string)
    requires Canonicalize(f, value).Some? && KeepsZone(Parse(value).value.netloc)
    ensures Canonicalize(f, Canonicalize(f, value).value).Some?
    ensures Identify(f, Canonicalize(f, value).value) == Identify(f, value)
  {
    CanonicalizeTwice(f, value);
    AcceptedParts(f, value);
    CanonicalParts(f, value);
    var p := Parse(value).value;
    CanonicalAuthorityIsStable(f, SchemeOf(p.schemeText).value, p.netloc);
  }

  function AuthorityText(scheme: Scheme, meaning: Authority): string {
    if scheme.S3? || scheme.File? then meaning.host
    else Bracketed(meaning.host) + Suffix(KeptPort(scheme, meaning.port))
  }

  lemma AuthorityIsItsMeaning(f: Compressor, scheme: Scheme, netloc: string)
    requires CanonicalAuthority(f, scheme, netloc).Some? && UriCharactersOk(netloc) && AllGood(netloc)
    ensures CanonicalAuthority(f, scheme, netloc) == Some(AuthorityText(scheme, HostAndPort(f, scheme, netloc)))
  {
    match scheme
    case S3 => BucketWrites(f, netloc);
    case File => FileWrites(f, netloc);
    case _ => NetworkWrites(f, scheme, netloc);
  }

  /** Two accepted URIs have one canonical text exactly when they name the same
      resource. */
  lemma SameTextIffSameResource(f: Compressor, u: string, v: string)
    requires Canonicalize(f, u).Some? && Canonicalize(f, v).Some?
    ensures Canonicalize(f, u) == Canonicalize(f, v) <==> Identify(f, u) == Identify(f, v)
  {
    TextOfResource(f, u);
    TextOfResource(f, v);
    if Canonicalize(f, u) == Canonicalize(f, v) {
      ResourceOfText(f, u);
      ResourceOfText(f, v);
    }
  }

  lemma TextOfResource(f: Compressor, value: string)
    requires Canonicalize(f, value).Some?
    ensures var r := Identify(f, value);
            Canonicalize(f, value) == Some(Render(r.scheme.Name(), AuthorityText(r.scheme, r.authority), r.path))
  {
    AcceptedParts(f, value);
    var p := Parse(value).value;
    AuthorityIsItsMeaning(f, SchemeOf(p.schemeText).value, p.netloc);
  }

  /** The resource can be read off the canonical text, spoilt zone or not. */
  lemma ResourceOfText(f: Compressor, value: string)
    requires Canonicalize(f, value).Some?
    ensures var out := Canonicalize(f, value).value;
            && Parse(out).Some? && SchemeOf(Parse(out).value.schemeText).Some?
            && var scheme := SchemeOf(Parse(out).value.schemeText).value;
            Identify(f, value) == Resource(scheme, HostAndPort(f, scheme, Parse(out).value.netloc), Parse(out).value.path)
  {
    AcceptedParts(f, value);
    CanonicalParts(f, value);
    var p := Parse(value).value;
    CanonicalAuthorityIsStable(f, SchemeOf(p.schemeText).value, p.netloc);
  }

  /** A lower-case registered name with a canonical path is accepted and is its
      own canonical text. */
  lemma RegisteredNamesAreAccepted(f: Compressor, host: string, path: string)
    requires IsRegisteredName(host) && Lower(host) == host && exists c :: c in host && !IsDigit(c) && c != '.'
    requires CanonicalPath(path) && UriCharactersOk(path) && '?' !in path && '#' !in path
    ensures Canonicalize(f, Render(Https.Name(), host, path)) == Some(Render(Https.Name(), host, path))
  {
    NameIsPlain(host);
    UnescapedIsOk(host);
    NameAuthority(f, host);
    AcceptedFromParts(f, host, path);
  }

  lemma NameAuthority(f: Compressor, host: string)
    requires IsRegisteredName(host) && Lower(host) == host && exists c :: c in host && !IsDigit(c) && c != '.'
    ensures CanonicalAuthority(f, Https, host) == Some(host)
  {
    NameIsPlain(host);
    NameIsCanonical(f, host);
    NameReadsAlone(host);
    UsesForm(f, Https, host, host, None);
    assert Bracketed(host) + Suffix(None) == host;
  }

  lemma NameReadsAlone(host: string)
    requires ':' !in host && '[' !in host && '%' !in host && Lower(host) == host && host != ""
    ensures SplitHost(host) == HostInfo(host, "") && Hostname(host) == host && !EndsInColon(host)
  {
    PartitionNowhere(host, ':');
    HostnameWithoutZone(host);
    assert host[|host| - 1] in host;
  }

  lemma NameIsPlain(host: string)
    requires IsRegisteredName(host)
    ensures AllGood(host) && ':' !in host && '[' !in host && ']' !in host && '%' !in host && '/' !in host
    ensures host != "" && host[|host| - 1] != '.'
  {
    DottedCharacters(host);
    assert Split("", '.') == [""] && "" in Split("", '.');
    if host != "" && host[|host| - 1] == '.' {
      TrailingDotSplits(host);
    }
  }

  lemma TrailingDotSplits(host: string)
    requires host != "" && host[|host| - 1] == '.'
    ensures "" in Split(host, '.')
  {
    var front := host[..|host| - 1];
    assert host == front + ['.'] + "";
    SplitAppend(front, "", '.');
    assert Split("", '.') == [""];
  }

  lemma NameIsCanonical(f: Compressor, host: string)
    requires IsRegisteredName(host) && Lower(host) == host && exists c :: c in host && !IsDigit(c) && c != '.'
    ensures CanonicalHost(f, host) == Some(host)
  {
    NameIsPlain(host);
    DottedCharacters(host);
    NoLiteral(f, host);
  }

  /** The exception is real: with any address, the zone "%2A" is accepted and its
      lower-cased form is not. */
  lemma SpoiltZone(f: Compressor, address: string)
    requires f(address) == Some(address)
    ensures var value := Render(Https.Name(), "[" + address + "%2A]", "/x");
            Canonicalize(f, value).Some? && Canonicalize(f, Canonicalize(f, value).value).None?
  {
    var zone := "2A";
    var netloc := "[" + (address + ['%'] + zone) + "]";
    assert "[" + address + "%2A]" == netloc;
    StarZone();
    SimplePath();
    ZonedUriAccepted(f, address, zone, "/x");
    CanonicalizeTwice(f, Render(Https.Name(), netloc, "/x"));
  }

  lemma StarZone()
    ensures UriCharactersOk(['%'] + "2A") && AllGood("2A") && !(IsDigit("2A"[0]) && IsDigit("2A"[1]))
  {
    var s := ['%'] + "2A";
    assert GoodEscape(s, 0) && Escaped(s, 0) == '*';
    UnescapedIsOk("");
    assert s[3..] == "";
    EscapeThenRest(s);
  }

  lemma SimplePath()
    ensures CanonicalPath("/x") && UriCharactersOk("/x")
  {
    SplitAppend("", "x", '/');
    assert "" + ['/'] + "x" == "/x";
    SplitPlain("x", '/');
    NothingToDecode("x");
    NothingToDecode("");
    UnescapedIsOk("/x");
  }

  lemma ZonedUriAccepted(f: Compressor, address: string, zone: string, path: string)
    requires f(address) == Some(address)
    requires UriCharactersOk(['%'] + zone) && '%' !in zone && ']' !in zone && AllGood(zone)
    requires zone != "" && zone[|zone| - 1] != '.'
    requires CanonicalPath(path) && UriCharactersOk(path) && '?' !in path && '#' !in path
    ensures var netloc := "[" + (address + ['%'] + zone) + "]";
            var value := Render(Https.Name(), netloc, path);
            && Parse(value) == Some(Parsed(Https.Name(), netloc, path))
            && Canonicalize(f, value).Some?
            && (KeepsZone(netloc) <==> |zone| >= 2 && IsDigit(zone[0]) && IsDigit(zone[1]))
  {
    ZonedNetlocOk(f, address, zone);
    ZonedHostname(f, address, zone);
    ZonedHostCanonical(f, address, zone);
    LiteralAccepted(f, address + ['%'] + zone, path);
  }

  lemma LiteralAccepted(f: Compressor, host: string, path: string)
    requires Hostname(host) == host && Literal(f, host).Some? && CanonicalHost(f, host).Some?
    requires host != "" && host[0] != 'v' && ']' !in host
    requires UriCharactersOk("[" + host + "]") && AllGood("[" + host + "]")
    requires CanonicalPath(path) && UriCharactersOk(path) && '?' !in path && '#' !in path
    ensures var netloc := "[" + host + "]";
            && Parse(Render(Https.Name(), netloc, path)) == Some(Parsed(Https.Name(), netloc, path))
            && Canonicalize(f, Render(Https.Name(), netloc, path)).Some?
            && (KeepsZone(netloc) <==> ZoneSurvives(host))
  {
    ZonedNetworkAccepted(f, host);
    AcceptedFromParts(f, "[" + host + "]", path);
  }

  lemma AcceptedFromParts(f: Compressor, netloc: string, path: string)
    requires CanonicalAuthority(f, Https, netloc).Some? && AllGood(netloc) && UriCharactersOk(netloc)
    requires CanonicalPath(path) && UriCharactersOk(path) && '?' !in path && '#' !in path
    ensures var value := Render(Https.Name(), netloc, path);
            Parse(value) == Some(Parsed(Https.Name(), netloc, path)) && Canonicalize(f, value).Some?
  {
    SchemeNames(Https);
    ParseRender(Https.Name(), netloc, path);
    RenderedCharacters(Https.Name(), netloc, path);
  }

  lemma ZonedNetlocOk(f: Compressor, address: string, zone: string)
    requires f(address) == Some(address)
    requires UriCharactersOk(['%'] + zone) && AllGood(zone)
    ensures var netloc := "[" + (address + ['%'] + zone) + "]"; UriCharactersOk(netloc) && AllGood(netloc)
  {
    var host := address + ['%'] + zone;
    Compressed(f, address);
    AddressCharacters(address);
    WithoutAddress(address, zone);
    assert ':' in host;
    AuthorityCharacters(host, "");
    assert "[" + host + "]" + "" == "[" + host + "]";
  }

  lemma ZonedHostname(f: Compressor, address: string, zone: string)
    requires f(address) == Some(address)
    requires '%' !in zone && zone != ""
    ensures var host := address + ['%'] + zone; Hostname(host) == host && Literal(f, host) == Some(host)
    ensures ZoneSurvives(address + ['%'] + zone) <==> |zone| >= 2 && IsDigit(zone[0]) && IsDigit(zone[1])
  {
    var host := address + ['%'] + zone;
    Compressed(f, address);
    AddressCharacters(address);
    PartitionAt(address, '%', zone);
    assert '%' in host;
    HostnameWithZone(host);
    ZonedLiteral(f, address, zone);
    assert |zone| >= 2 ==> host[|address| + 1] == zone[0] && host[|address| + 2] == zone[1];
  }

  lemma ZonedHostCanonical(f: Compressor, address: string, zone: string)
    requires f(address) == Some(address)
    requires '%' !in zone && ']' !in zone && AllGood(zone) && zone != "" && zone[|zone| - 1] != '.'
    ensures var host := address + ['%'] + zone;
            CanonicalHost(f, host).Some? && ']' !in host && host[0] != 'v'
  {
    Compressed(f, address);
    AddressCharacters(address);
    ZonedCharacters(address, zone);
    ZonedLiteral(f, address, zone);
  }

  lemma ZonedNetworkAccepted(f: Compressor, host: string)
    requires Hostname(host) == host && Literal(f, host).Some? && CanonicalHost(f, host).Some?
    requires host != "" && host[0] != 'v' && ']' !in host && '@' !in "[" + host + "]"
    ensures CanonicalAuthority(f, Https, "[" + host + "]").Some?
    ensures KeepsZone("[" + host + "]") <==> ZoneSurvives(host)
  {
    BracketedSplits(host, "");
    PartitionNowhere("", ':');
    assert "[" + host + "]" + "" == "[" + host + "]";
  }
}
