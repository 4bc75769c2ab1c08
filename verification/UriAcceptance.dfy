/** Which artifact URIs are accepted and what becomes of them
    (proof_agent/contracts/knowledge_index.py), told by how the texts are put
    together instead of by how they are taken apart. */
module UriAcceptance {
  import opened Text
  import opened PercentEncoding
  import opened ArtifactUri

  // ----- UTF-8 -----

  predicate IsScalarValue(n: int) {
    0 <= n < 0xD800 || 0xE000 <= n <= 0x10FFFF
  }

  /** The bytes of a scalar value, section 3 of RFC 3629. */
  function Encoded(n: int): (bytes: string)
    requires IsScalarValue(n)
    ensures 1 <= |bytes| <= 4
  {
    if n < 0x80 then [n as char]
    else if n < 0x800 then [(0xC0 + n / 64) as char, (0x80 + n % 64) as char]
    else if n < 0x10000 then [(0xE0 + n / 4096) as char, (0x80 + n / 64 % 64) as char, (0x80 + n % 64) as char]
    else [(0xF0 + n / 262144) as char, (0x80 + n / 4096 % 64) as char, (0x80 + n / 64 % 64) as char, (0x80 + n % 64) as char]
  }

  predicate AllScalarValues(ns: seq<int>) {
    forall i | 0 <= i < |ns| :: IsScalarValue(ns[i])
  }

  function EncodedAll(ns: seq<int>): string
    requires AllScalarValues(ns)
  {
    if ns == [] then "" else Encoded(ns[0]) + EncodedAll(ns[1..])
  }

  ghost predicate Encodes(ns: seq<int>, s: string) {
    AllScalarValues(ns) && EncodedAll(ns) == s
  }

  lemma EncodedIsASequence(n: int, rest: string)
    requires IsScalarValue(n)
    ensures SequenceLength(Encoded(n) + rest) == |Encoded(n)|
  {
    if n < 0x800 {
      var e, s := Encoded(n), Encoded(n) + rest;
      assert s[0] == e[0];
      assert n >= 0x80 ==> s[1] == e[1] && Continues(s, 1);
    } else if n < 0x10000 {
      ThreeAreASequence(n, rest);
    } else {
      FourAreASequence(n, rest);
    }
  }

  lemma ThreeAreASequence(n: int, rest: string)
    requires IsScalarValue(n) && 0x800 <= n < 0x10000
    ensures SequenceLength(Encoded(n) + rest) == 3
  {
    var e, s := Encoded(n), Encoded(n) + rest;
    assert s[0] == e[0] && s[1] == e[1] && s[2] == e[2];
    assert Continues(s, 1) && Continues(s, 2);
  }

  lemma FourAreASequence(n: int, rest: string)
    requires IsScalarValue(n) && 0x10000 <= n
    ensures SequenceLength(Encoded(n) + rest) == 4
  {
    var e, s := Encoded(n), Encoded(n) + rest;
    assert s[0] == e[0] && s[1] == e[1] && s[2] == e[2] && s[3] == e[3];
    assert Continues(s, 1) && Continues(s, 2) && Continues(s, 3);
  }

  lemma TwoDigits(h: int, l: int)
    requires 0 <= l < 64
    ensures (h * 64 + l) / 64 == h && (h * 64 + l) % 64 == l
  {
  }

  lemma ThreeDigits(h: int, m: int, l: int)
    requires 0 <= m < 64 && 0 <= l < 64
    ensures var n := (h * 64 + m) * 64 + l;
            n / 4096 == h && n / 64 % 64 == m && n % 64 == l
  {
    TwoDigits(h * 64 + m, l);
    TwoDigits(h, m);
  }

  lemma FourDigits(g: int, h: int, m: int, l: int)
    requires 0 <= h < 64 && 0 <= m < 64 && 0 <= l < 64
    ensures var n := ((g * 64 + h) * 64 + m) * 64 + l;
            n / 262144 == g && n / 4096 % 64 == h && n / 64 % 64 == m && n % 64 == l
  {
    ThreeDigits(g * 64 + h, m, l);
    TwoDigits(g, h);
  }

  /** What a byte that continues a sequence contributes. */
  function Bits(c: char): int {
    c as int - 0x80
  }

  lemma TwoBytes(s: string) returns (n: int)
    requires s != "" && SequenceLength(s) == 2
    ensures IsScalarValue(n) && Encoded(n) == [s[0], s[1]]
  {
    var b := s[0] as int - 0xC0;
    n := b * 64 + Bits(s[1]);
    TwoDigits(b, Bits(s[1]));
  }

  lemma ThreeBytes(s: string) returns (n: int)
    requires s != "" && SequenceLength(s) == 3
    ensures IsScalarValue(n) && Encoded(n) == [s[0], s[1], s[2]]
  {
    var b := s[0] as int - 0xE0;
    n := (b * 64 + Bits(s[1])) * 64 + Bits(s[2]);
    ThreeDigits(b, Bits(s[1]), Bits(s[2]));
  }

  lemma FourBytes(s: string) returns (n: int)
    requires s != "" && SequenceLength(s) == 4
    ensures IsScalarValue(n) && Encoded(n) == [s[0], s[1], s[2], s[3]]
  {
    var b := s[0] as int - 0xF0;
    n := ((b * 64 + Bits(s[1])) * 64 + Bits(s[2])) * 64 + Bits(s[3]);
    FourDigits(b, Bits(s[1]), Bits(s[2]), Bits(s[3]));
  }

  /** The scalar value of the sequence a text starts with. */
  lemma SequenceIsEncoded(s: string) returns (n: int)
    requires s != "" && SequenceLength(s) > 0
    ensures IsScalarValue(n) && Encoded(n) == s[..SequenceLength(s)]
  {
    if SequenceLength(s) == 1 {
      n := s[0] as int;
    } else if SequenceLength(s) == 2 {
      n := TwoBytes(s);
      assert s[..2] == [s[0], s[1]];
    } else if SequenceLength(s) == 3 {
      n := ThreeBytes(s);
      assert s[..3] == [s[0], s[1], s[2]];
    } else {
      n := FourBytes(s);
      assert s[..4] == [s[0], s[1], s[2], s[3]];
    }
  }

  lemma {:induction false} EncodedIsValid(ns: seq<int>)
    requires AllScalarValues(ns)
    ensures ValidUtf8(EncodedAll(ns))
    decreases |ns|
  {
    if ns != [] {
      var first, rest := Encoded(ns[0]), EncodedAll(ns[1..]);
      EncodedIsASequence(ns[0], rest);
      EncodedIsValid(ns[1..]);
      assert (first + rest)[|first|..] == rest;
    }
  }

  lemma {:induction false} ValidIsEncoded(s: string) returns (ns: seq<int>)
    requires ValidUtf8(s)
    ensures Encodes(ns, s)
    decreases |s|
  {
    if s == "" {
      ns := [];
    } else {
      var front, tail := s[..SequenceLength(s)], s[SequenceLength(s)..];
      var n := SequenceIsEncoded(s);
      var rest := ValidIsEncoded(tail);
      OneMoreValue(n, rest);
      assert s == front + tail;
      ns := [n] + rest;
    }
  }

  lemma OneMoreValue(n: int, rest: seq<int>)
    requires IsScalarValue(n) && AllScalarValues(rest)
    ensures AllScalarValues([n] + rest) && EncodedAll([n] + rest) == Encoded(n) + EncodedAll(rest)
  {
    assert ([n] + rest)[1..] == rest;
  }

  /** The bytes that pass are exactly the encodings of Unicode texts. */
  lemma Utf8Exactly(s: string)
    ensures ValidUtf8(s) <==> exists ns :: Encodes(ns, s)
  {
    if ValidUtf8(s) {
      var ns := ValidIsEncoded(s);
    }
    if ns: seq<int> :| Encodes(ns, s) {
      EncodedIsValid(ns);
    }
  }

  // ----- hosts -----

  function Quad(a: nat, b: nat, c: nat, d: nat): string {
    Decimal(a) + "." + Decimal(b) + "." + Decimal(c) + "." + Decimal(d)
  }

  /** Four numbers below 256, written as numbers are. */
  ghost predicate IsQuad(host: string) {
    exists a: nat, b: nat, c: nat, d: nat :: a < 256 && b < 256 && c < 256 && d < 256 && host == Quad(a, b, c, d)
  }

  lemma {:induction false} DecimalStartsWell(n: nat)
    ensures n > 0 ==> Decimal(n)[0] != '0'
    ensures |Decimal(n)| > 1 ==> n >= 10
    ensures n < 1000 ==> |Decimal(n)| <= 3
  {
    if n >= 10 {
      DecimalStartsWell(n / 10);
      assert n < 100 ==> |Decimal(n / 10)| == 1;
      assert n < 1000 ==> |Decimal(n / 10 / 10)| == 1;
    }
  }

  lemma DecimalStep(n: nat, c: char)
    requires n > 0 && IsDigit(c)
    ensures Decimal(10 * n + (c as int - '0' as int)) == Decimal(n) + [c]
  {
    var digit := c as int - '0' as int;
    assert (10 * n + digit) / 10 == n && (10 * n + digit) % 10 == digit;
  }

  lemma {:induction false} NumberRoundTrip(s: string)
    requires s != "" && AllDigits(s) && (|s| > 1 ==> s[0] != '0')
    ensures Decimal(NumberOf(s)) == s && (s[0] != '0' ==> NumberOf(s) > 0)
  {
    var front, last := s[..|s| - 1], s[|s| - 1];
    assert s == front + [last] && last in s;
    if front != "" {
      assert forall c | c in front :: c in s;
      NumberRoundTrip(front);
      DecimalStep(NumberOf(front), last);
    }
  }

  lemma OctetExactly(s: string)
    ensures IsOctet(s) <==> exists n: nat :: n < 256 && s == Decimal(n)
  {
    if IsOctet(s) {
      NumberRoundTrip(s);
      assert s == Decimal(NumberOf(s));
    }
    if n: nat :| n < 256 && s == Decimal(n) {
      DecimalStartsWell(n);
      DecimalRoundTrip(n);
    }
  }

  lemma JoinFour(a: string, b: string, c: string, d: string)
    ensures Join([a, b, c, d], '.') == a + "." + b + "." + c + "." + d
  {
    assert [a, b, c, d][1..] == [b, c, d] && [b, c, d][1..] == [c, d] && [c, d][1..] == [d];
    assert Join([c, d], '.') == c + ['.'] + d;
    assert Join([b, c, d], '.') == b + ['.'] + (c + ['.'] + d);
    assert Join([a, b, c, d], '.') == a + ['.'] + (b + ['.'] + (c + ['.'] + d));
    assert a + ['.'] + (b + ['.'] + (c + ['.'] + d)) == a + "." + b + "." + c + "." + d;
  }

  lemma OctetOf(n: nat)
    requires n < 256
    ensures IsOctet(Decimal(n)) && '.' !in Decimal(n)
  {
    OctetExactly(Decimal(n));
  }

  lemma QuadExactly(host: string)
    ensures IsIPv4(host) <==> IsQuad(host)
  {
    var parts := Split(host, '.');
    SplitParts(host, '.');
    if IsIPv4(host) {
      forall p | p in parts ensures exists n: nat :: n < 256 && p == Decimal(n) {
        OctetExactly(p);
      }
      assert parts[0] in parts && parts[1] in parts && parts[2] in parts && parts[3] in parts;
      var a: nat :| a < 256 && parts[0] == Decimal(a);
      var b: nat :| b < 256 && parts[1] == Decimal(b);
      var c: nat :| c < 256 && parts[2] == Decimal(c);
      var d: nat :| d < 256 && parts[3] == Decimal(d);
      assert parts == [parts[0], parts[1], parts[2], parts[3]];
      JoinFour(parts[0], parts[1], parts[2], parts[3]);
      assert host == Quad(a, b, c, d);
    }
    if a: nat, b: nat, c: nat, d: nat :| a < 256 && b < 256 && c < 256 && d < 256 && host == Quad(a, b, c, d) {
      QuadSplits(a, b, c, d);
    }
  }

  lemma QuadSplits(a: nat, b: nat, c: nat, d: nat)
    requires a < 256 && b < 256 && c < 256 && d < 256
    ensures IsIPv4(Quad(a, b, c, d))
  {
    var parts := [Decimal(a), Decimal(b), Decimal(c), Decimal(d)];
    JoinFour(parts[0], parts[1], parts[2], parts[3]);
    OctetOf(a);
    OctetOf(b);
    OctetOf(c);
    OctetOf(d);
    SplitJoin(parts, '.');
  }

  /** At most 63 letters, digits and hyphens, with no hyphen at either end. */
  predicate IsLabel(s: string) {
    1 <= |s| <= 63 && forall i | 0 <= i < |s| :: IsAlnum(s[i]) || (s[i] == '-' && 0 < i < |s| - 1)
  }

  /** Labels with dots between them, at most 253 characters in all. */
  ghost predicate IsDomain(host: string) {
    |host| <= 253 && exists labels :: labels != [] && AreLabels(labels) && host == Join(labels, '.')
  }

  predicate AreLabels(labels: seq<string>) {
    forall l | l in labels :: IsLabel(l)
  }

  lemma LabelExactly(s: string)
    ensures IsHostLabel(s) <==> IsLabel(s)
    ensures IsLabel(s) ==> '.' !in s
  {
    if IsLabel(s) {
      forall c | c in s ensures IsAlnum(c) || c == '-' {
        var i :| 0 <= i < |s| && s[i] == c;
      }
    }
    if IsHostLabel(s) {
      forall i | 0 <= i < |s| ensures IsAlnum(s[i]) || (s[i] == '-' && 0 < i < |s| - 1) {
        assert s[i] in s;
      }
    }
  }

  lemma DomainExactly(host: string)
    ensures IsRegisteredName(host) <==> IsDomain(host)
  {
    var parts := Split(host, '.');
    SplitParts(host, '.');
    forall s ensures IsHostLabel(s) <==> IsLabel(s) {
      LabelExactly(s);
    }
    if IsRegisteredName(host) {
      assert AreLabels(parts);
    }
    if IsDomain(host) {
      var labels :| labels != [] && AreLabels(labels) && host == Join(labels, '.');
      forall l | l in labels ensures '.' !in l {
        LabelExactly(l);
      }
      SplitJoin(labels, '.');
    }
  }

  function Zoned(address: string, zone: string): string {
    address + "%" + zone
  }

  /** An IPv6 address, alone or with a zone, and its compressed form. */
  ghost predicate NamesAddress(f: Compressor, host: string, text: string) {
    || f(host) == Some(text)
    || exists address, zone ::
         && host == Zoned(address, zone) && f(address).Some? && zone != "" && '%' !in zone
         && text == Zoned(f(address).value, zone)
  }

  lemma AddressExactly(f: Compressor, host: string, text: string)
    ensures Literal(f, host) == Some(text) <==> NamesAddress(f, host, text)
  {
    if f(host).Some? {
      Compressed(f, host);
      assert '%' !in host;
    }
    if Literal(f, host) == Some(text) && '%' in host {
      PartitionIn(host, '%');
      assert host == Zoned(Before(host, '%'), After(host, '%'));
    }
    if address: string, zone: string :|
      host == Zoned(address, zone) && f(address).Some? && zone != "" && '%' !in zone
      && text == Zoned(f(address).value, zone)
    {
      ZonedAddress(f, address, zone);
    }
  }

  lemma ZonedAddress(f: Compressor, address: string, zone: string)
    requires f(address).Some? && zone != "" && '%' !in zone
    ensures Literal(f, Zoned(address, zone)) == Some(Zoned(f(address).value, zone))
  {
    Compressed(f, address);
    var host := Zoned(address, zone);
    assert host == address + ['%'] + zone && host[|address|] == '%';
    PartitionAt(address, '%', zone);
  }

  /** What a host becomes: four numbers stay, an address is compressed, a name that
      is not all digits and dots is lowered. */
  ghost predicate HostBecomes(f: Compressor, host: string, out: string) {
    && host != "" && host[|host| - 1] != '.'
    && (|| (IsQuad(host) && out == host)
        || (exists text :: NamesAddress(f, host, text) && out == Lower(text))
        || (IsDomain(host) && (exists c | c in host :: !IsDigit(c) && c != '.') && out == Lower(host)))
  }

  lemma HostExactly(f: Compressor, host: string, out: string)
    ensures CanonicalHost(f, host) == Some(out) <==> HostBecomes(f, host, out)
  {
    QuadExactly(host);
    DomainExactly(host);
    DottedCharacters(host);
    forall text ensures Literal(f, host) == Some(text) <==> NamesAddress(f, host, text) {
      AddressExactly(f, host, text);
    }
    if ':' !in host {
      NoLiteral(f, host);
    } else {
      assert !IsIPv4(host) && !IsRegisteredName(host);
    }
  }

  // ----- authorities -----

  /** The host as it is written, and what follows it: what stands before the first
      colon, or what stands in brackets, whatever text is around them; brackets
      the wrong way round are read up to the end. */
  ghost predicate Reads(netloc: string, raw: string, tail: string) {
    if '[' !in netloc then ':' !in raw && netloc == raw + tail
    else exists pre, mid :: ReadsBracketed(netloc, pre, raw, mid, tail)
  }

  predicate ReadsBracketed(netloc: string, pre: string, raw: string, mid: string, tail: string) {
    && '[' !in pre && ']' !in raw && ':' !in mid
    && (|| netloc == pre + ['['] + (raw + [']'] + (mid + tail))
        || (netloc == pre + ['['] + raw && tail == "" && !EndsInColon(raw)))
  }

  /** Nothing, or a colon and a number. */
  predicate PortReads(tail: string, port: Option<nat>) {
    if port.None? then tail == ""
    else |tail| > 1 && tail[0] == ':' && AllDigits(tail[1..]) && NumberOf(tail[1..]) == port.value
  }

  lemma ReadsSplits(netloc: string, raw: string, tail: string, port: Option<nat>)
    requires Reads(netloc, raw, tail) && PortReads(tail, port)
    ensures SplitHost(netloc) == HostInfo(raw, if tail == "" then "" else tail[1..]) && !EndsInColon(netloc)
  {
    assert tail != "" ==> tail == [':'] + tail[1..] && tail[|tail| - 1] in tail[1..];
    if '[' !in netloc {
      ColonSplits(raw, tail);
      assert netloc != "" && tail == "" ==> netloc[|netloc| - 1] in raw;
    } else {
      var pre, mid :| ReadsBracketed(netloc, pre, raw, mid, tail);
      if netloc == pre + ['['] + (raw + [']'] + (mid + tail)) {
        BracketsSplit(pre, raw, mid, tail);
      } else {
        OpenBracketSplits(pre, raw);
      }
    }
  }

  lemma BracketsSplit(pre: string, raw: string, mid: string, tail: string)
    requires '[' !in pre && ']' !in raw && ':' !in mid
    requires tail != "" ==> tail[0] == ':' && tail[|tail| - 1] != ':'
    ensures var netloc := pre + ['['] + (raw + [']'] + (mid + tail));
            SplitHost(netloc) == HostInfo(raw, if tail == "" then "" else tail[1..]) && !EndsInColon(netloc)
  {
    var netloc := pre + ['['] + (raw + [']'] + (mid + tail));
    assert netloc[|pre|] == '[';
    PartitionAt(pre, '[', raw + [']'] + (mid + tail));
    PartitionAt(raw, ']', mid + tail);
    ColonSplits(mid, tail);
    LastOfThree(pre + ['['] + raw, mid, tail);
    assert netloc == (pre + ['['] + raw) + [']'] + (mid + tail);
  }

  lemma OpenBracketSplits(pre: string, raw: string)
    requires '[' !in pre && ']' !in raw && !EndsInColon(raw)
    ensures var netloc := pre + ['['] + raw; SplitHost(netloc) == HostInfo(raw, "") && !EndsInColon(netloc)
  {
    var netloc := pre + ['['] + raw;
    assert netloc[|pre|] == '[';
    PartitionAt(pre, '[', raw);
    PartitionNowhere(raw, ']');
    PartitionNowhere("", ':');
    assert netloc[|netloc| - 1] == if raw == "" then '[' else raw[|raw| - 1];
  }

  lemma LastOfThree(front: string, mid: string, tail: string)
    requires ':' !in mid && (tail != "" ==> tail[|tail| - 1] != ':')
    ensures !EndsInColon(front + [']'] + (mid + tail))
  {
    var whole := front + [']'] + (mid + tail);
    if tail != "" {
      assert whole[|whole| - 1] == tail[|tail| - 1];
    } else if mid != "" {
      assert whole[|whole| - 1] == mid[|mid| - 1] && mid[|mid| - 1] in mid;
    }
  }

  lemma ColonSplits(front: string, tail: string)
    requires ':' !in front && (tail != "" ==> tail[0] == ':')
    ensures Before(front + tail, ':') == front
    ensures After(front + tail, ':') == if tail == "" then "" else tail[1..]
  {
    if tail == "" {
      assert front + tail == front;
      PartitionNowhere(front, ':');
    } else {
      assert front + tail == front + [':'] + tail[1..];
      PartitionAt(front, ':', tail[1..]);
    }
  }

  lemma SplitReads(netloc: string, port: Option<nat>) returns (tail: string)
    requires PortOf(SplitHost(netloc).portText) == Some(port) && !EndsInColon(netloc)
    ensures Reads(netloc, SplitHost(netloc).host, tail) && PortReads(tail, port)
  {
    if '[' !in netloc {
      tail := TailAt(netloc, port);
    } else {
      tail := BracketedReads(netloc, port);
    }
  }

  lemma BracketedReads(netloc: string, port: Option<nat>) returns (tail: string)
    requires '[' in netloc && PortOf(SplitHost(netloc).portText) == Some(port) && !EndsInColon(netloc)
    ensures Reads(netloc, SplitHost(netloc).host, tail) && PortReads(tail, port)
  {
    PartitionIn(netloc, '[');
    var pre, inside := Before(netloc, '['), After(netloc, '[');
    EndStays(pre + ['['], inside);
    if ']' in inside {
      tail := PairReads(pre, inside, port);
      assert ReadsBracketed(netloc, pre, Before(inside, ']'), Before(After(inside, ']'), ':'), tail);
    } else {
      PartitionNowhere(inside, ']');
      PartitionNowhere("", ':');
      tail := "";
      assert ReadsBracketed(netloc, pre, inside, "", tail);
    }
  }

  lemma PairReads(pre: string, inside: string, port: Option<nat>) returns (tail: string)
    requires '[' !in pre && ']' in inside && !EndsInColon(inside)
    requires PortOf(After(After(inside, ']'), ':')) == Some(port)
    ensures PortReads(tail, port)
    ensures ReadsBracketed(pre + ['['] + inside, pre, Before(inside, ']'), Before(After(inside, ']'), ':'), tail)
  {
    PartitionIn(inside, ']');
    var raw, outside := Before(inside, ']'), After(inside, ']');
    EndStays(raw + [']'], outside);
    tail := TailAt(outside, port);
    assert inside == raw + [']'] + (Before(outside, ':') + tail);
  }

  lemma EndStays(front: string, rest: string)
    ensures rest != "" ==> (EndsInColon(front + rest) <==> EndsInColon(rest))
  {
  }

  lemma ColonAtEnd(front: string, rest: string)
    ensures rest == "" ==> EndsInColon(front + ([':'] + rest))
  {
  }

  /** The part from the first colon on. */
  lemma TailAt(s: string, port: Option<nat>) returns (tail: string)
    requires PortOf(After(s, ':')) == Some(port) && !EndsInColon(s)
    ensures s == Before(s, ':') + tail && ':' !in Before(s, ':') && PortReads(tail, port)
  {
    PartitionWhole(s, ':');
    if ':' in s {
      tail := [':'] + After(s, ':');
      assert tail[1..] == After(s, ':');
      ColonAtEnd(Before(s, ':'), After(s, ':'));
    } else {
      PartitionNowhere(s, ':');
      tail := "";
    }
  }

  /** The host in lower case up to a zone, which keeps its case. */
  ghost predicate NamedBy(raw: string, name: string) {
    || ('%' !in raw && name == Lower(raw))
    || exists address, zone :: raw == Zoned(address, zone) && '%' !in address && name == Zoned(Lower(address), zone)
  }

  lemma HostnameExactly(raw: string, name: string)
    ensures Hostname(raw) == name <==> NamedBy(raw, name)
  {
    if '%' in raw {
      PartitionIn(raw, '%');
      var address, zone := Before(raw, '%'), After(raw, '%');
      assert raw == Zoned(address, zone);
      assert Hostname(raw) == Zoned(Lower(address), zone);
    } else {
      PartitionNowhere(raw, '%');
      assert Hostname(raw) == Lower(raw);
    }
    if address: string, zone: string :| raw == Zoned(address, zone) && '%' !in address && name == Zoned(Lower(address), zone) {
      assert raw == address + ['%'] + zone;
      PartitionAt(address, '%', zone);
      assert Hostname(raw) == Lower(address) + raw[|address|..];
    }
  }

  function Future(hex: string, rest: string): string {
    "v" + hex + "." + rest
  }

  /** An address of a future version, section 3.2.2 of RFC 3986. */
  ghost predicate IsFuture(raw: string) {
    exists hex, rest :: raw == Future(hex, rest) && hex != "" && rest != "" && forall c | c in hex :: IsHex(c)
  }

  lemma FutureExactly(raw: string)
    ensures IsFutureAddress(raw) <==> IsFuture(raw)
  {
    if IsFutureAddress(raw) {
      var dot := Find(raw, '.', 0);
      assert raw == Future(raw[1..dot], raw[dot + 1..]);
    }
    if hex: string, rest: string :| raw == Future(hex, rest) && hex != "" && rest != "" && forall c | c in hex :: IsHex(c) {
      assert '.' !in "v" + hex;
      assert raw == ("v" + hex) + ['.'] + rest;
      PartitionAt("v" + hex, '.', rest);
      assert raw[1..|hex| + 1] == hex;
    }
  }

  /** What brackets may hold. */
  ghost predicate Bracketable(f: Compressor, raw: string, name: string) {
    if raw != "" && raw[0] == 'v' then IsFuture(raw) else exists text :: NamesAddress(f, name, text)
  }

  function NetworkText(https: bool, host: string, port: Option<nat>): string {
    (if ':' in host then "[" + host + "]" else host)
    + (if port.None? || (https && port == Some(443)) then "" else ":" + Decimal(port.value))
  }

  /** The authority of a server: a host and perhaps a port between 1 and 65535, with
      no user, and brackets only in pairs around an address. Over https the port
      443 is dropped. */
  ghost predicate NetworkBecomes(f: Compressor, https: bool, netloc: string, out: string) {
    exists raw, tail, port, name, host ::
      ServerParts(f, netloc, raw, tail, port, name, host) && out == NetworkText(https, host, port)
  }

  ghost predicate ServerParts(
    f: Compressor, netloc: string, raw: string, tail: string, port: Option<nat>, name: string, host: string)
  {
    && '@' !in netloc && ('[' in netloc <==> ']' in netloc)
    && Reads(netloc, raw, tail) && PortReads(tail, port) && NamedBy(raw, name)
    && (port.Some? ==> 1 <= port.value <= 65535)
    && ('[' in netloc ==> Bracketable(f, raw, name))
    && HostBecomes(f, name, host)
  }

  lemma BracketsExactly(f: Compressor, netloc: string)
    ensures var raw := SplitHost(netloc).host;
            BracketsOk(f, netloc) <==>
            ('[' in netloc <==> ']' in netloc) && ('[' in netloc ==> Bracketable(f, raw, Hostname(raw)))
  {
    var raw := SplitHost(netloc).host;
    FutureExactly(raw);
    forall text ensures Literal(f, Hostname(raw)) == Some(text) <==> NamesAddress(f, Hostname(raw), text) {
      AddressExactly(f, Hostname(raw), text);
    }
    assert Literal(f, Hostname(raw)).Some? <==> exists text :: NamesAddress(f, Hostname(raw), text) by {
      if Literal(f, Hostname(raw)).Some? {
        assert NamesAddress(f, Hostname(raw), Literal(f, Hostname(raw)).value);
      }
    }
  }

  lemma NetworkExactly(f: Compressor, scheme: Scheme, netloc: string, out: string)
    requires scheme.Https? || scheme.ProofAgent?
    ensures CanonicalAuthority(f, scheme, netloc) == Some(out) <==> NetworkBecomes(f, scheme.Https?, netloc, out)
  {
    if CanonicalAuthority(f, scheme, netloc) == Some(out) {
      NetworkHasParts(f, scheme, netloc, out);
    }
    if raw: string, tail: string, port, name: string, host: string :|
      ServerParts(f, netloc, raw, tail, port, name, host) && out == NetworkText(scheme.Https?, host, port)
    {
      PartsBecome(f, scheme, netloc, raw, tail, port, name, host);
    }
  }

  lemma PartsBecome(
    f: Compressor, scheme: Scheme, netloc: string, raw: string, tail: string, port: Option<nat>, name: string, host: string)
    requires scheme.Https? || scheme.ProofAgent?
    requires ServerParts(f, netloc, raw, tail, port, name, host)
    ensures CanonicalAuthority(f, scheme, netloc) == Some(NetworkText(scheme.Https?, host, port))
  {
    PartsAreRead(f, netloc, raw, tail, port, name, host);
    assert SchemeForm(f, scheme, netloc, Hostname(SplitHost(netloc).host), port) == Some(NetworkText(scheme.Https?, host, port));
  }

  lemma NetworkHasParts(f: Compressor, scheme: Scheme, netloc: string, out: string)
    requires scheme.Https? || scheme.ProofAgent?
    requires CanonicalAuthority(f, scheme, netloc) == Some(out)
    ensures NetworkBecomes(f, scheme.Https?, netloc, out)
  {
    var raw := SplitHost(netloc).host;
    var port := PortOf(SplitHost(netloc).portText).value;
    var host := CanonicalHost(f, Hostname(raw)).value;
    assert out == NetworkText(scheme.Https?, host, port);
    var tail := AcceptedHasParts(f, netloc, port, host);
    assert ServerParts(f, netloc, raw, tail, port, Hostname(raw), host);
  }

  lemma AcceptedHasParts(f: Compressor, netloc: string, port: Option<nat>, host: string) returns (tail: string)
    requires BracketsOk(f, netloc) && '@' !in netloc && !EndsInColon(netloc)
    requires PortOf(SplitHost(netloc).portText) == Some(port) && port != Some(0)
    requires CanonicalHost(f, Hostname(SplitHost(netloc).host)) == Some(host)
    ensures var raw := SplitHost(netloc).host; ServerParts(f, netloc, raw, tail, port, Hostname(raw), host)
  {
    var raw := SplitHost(netloc).host;
    BracketsExactly(f, netloc);
    tail := SplitReads(netloc, port);
    HostnameExactly(raw, Hostname(raw));
    HostExactly(f, Hostname(raw), host);
  }

  lemma PartsAreRead(
    f: Compressor, netloc: string, raw: string, tail: string, port: Option<nat>, name: string, host: string)
    requires ServerParts(f, netloc, raw, tail, port, name, host)
    ensures BracketsOk(f, netloc) && '@' !in netloc && !EndsInColon(netloc)
    ensures PortOf(SplitHost(netloc).portText) == Some(port) && port != Some(0)
    ensures CanonicalHost(f, Hostname(SplitHost(netloc).host)) == Some(host)
  {
    ReadsSplits(netloc, raw, tail, port);
    HostnameExactly(raw, name);
    HostExactly(f, name, host);
    BracketsExactly(f, netloc);
  }

  /** A bucket is a bare name or four numbers: no port, no brackets, no zone. */
  ghost predicate BucketBecomes(netloc: string, out: string) {
    && out == Lower(netloc)
    && (IsQuad(out) || (IsDomain(out) && exists c | c in out :: !IsDigit(c) && c != '.'))
  }

  lemma BucketExactly(f: Compressor, netloc: string, out: string)
    ensures CanonicalAuthority(f, S3, netloc) == Some(out) <==> BucketBecomes(netloc, out)
  {
    var low := Lower(netloc);
    if CanonicalAuthority(f, S3, netloc) == Some(out) {
      BucketForms(f, netloc);
      BareBucket(netloc);
      BareHostExactly(f, low, out);
    }
    if BucketBecomes(netloc, out) {
      QuadExactly(low);
      DomainExactly(low);
      NameReadsBare(f, low, netloc);
      BareHostExactly(f, low, out);
    }
  }

  lemma BareHostExactly(f: Compressor, host: string, out: string)
    requires ':' !in host && Lower(host) == host
    ensures CanonicalHost(f, host) == Some(out) <==>
            && out == host
            && (IsQuad(host) || (IsDomain(host) && exists c | c in host :: !IsDigit(c) && c != '.'))
  {
    HostExactly(f, host, out);
    QuadExactly(host);
    DomainExactly(host);
    NoLiteral(f, host);
    forall text ensures !NamesAddress(f, host, text) {
      AddressExactly(f, host, text);
    }
    NamesEndWell(host);
  }

  lemma NamesEndWell(host: string)
    ensures IsIPv4(host) || IsRegisteredName(host) ==> host != "" && host[|host| - 1] != '.'
  {
    if host == "" {
      assert Split(host, '.') == [""];
      assert Split(host, '.')[0] in Split(host, '.');
    } else if host[|host| - 1] == '.' {
      TrailingDotSplits(host);
    }
  }

  lemma BareBucket(netloc: string)
    requires Hostname(SplitHost(netloc).host) == Lower(netloc)
    ensures ':' !in Lower(netloc) && '[' !in netloc
  {
    var raw := SplitHost(netloc).host;
    assert |raw| == |netloc|;
    if '[' in netloc {
      PartitionIn(netloc, '[');
    } else {
      PartitionWhole(netloc, ':');
      LowerKeepsOthers(netloc, ':');
    }
  }

  lemma NameReadsBare(f: Compressor, low: string, netloc: string)
    requires low == Lower(netloc) && (IsIPv4(low) || IsRegisteredName(low))
    ensures ':' !in low && netloc != "" && BracketsOk(f, netloc) && '@' !in netloc
    ensures SplitHost(netloc) == HostInfo(netloc, "") && Hostname(netloc) == low
  {
    DottedCharacters(low);
    NamesEndWell(low);
    BareText(netloc);
  }

  /** A text whose lower case has no delimiters is read as a whole. */
  lemma BareText(netloc: string)
    requires forall c | c in Lower(netloc) :: c !in {':', '[', ']', '@', '%'}
    ensures '[' !in netloc && ']' !in netloc && '@' !in netloc && ':' !in netloc
    ensures SplitHost(netloc) == HostInfo(netloc, "") && Hostname(netloc) == Lower(netloc)
  {
    LowerKeepsOthers(netloc, ':');
    LowerKeepsOthers(netloc, '[');
    LowerKeepsOthers(netloc, ']');
    LowerKeepsOthers(netloc, '@');
    LowerKeepsOthers(netloc, '%');
    PartitionNowhere(netloc, ':');
    PartitionNowhere(netloc, '%');
    assert netloc[..|netloc|] == netloc;
  }

  /** A file has no authority, or the local host in any case. */
  lemma FileExactly(f: Compressor, netloc: string, out: string)
    ensures CanonicalAuthority(f, File, netloc) == Some(out) <==>
            out == Lower(netloc) && (out == "" || out == LOCALHOST)
  {
    assert forall c | c in LOCALHOST :: 'a' <= c <= 'z';
    if CanonicalAuthority(f, File, netloc) == Some(out) && netloc != "" {
      LocalIsWhole(f, netloc);
    }
    if Lower(netloc) == LOCALHOST || netloc == "" {
      BareText(netloc);
    }
  }

  lemma LocalIsWhole(f: Compressor, netloc: string)
    requires BracketsOk(f, netloc) && Hostname(SplitHost(netloc).host) == LOCALHOST
    requires !EndsInColon(netloc) && PortOf(SplitHost(netloc).portText) == Some(None)
    ensures Lower(netloc) == LOCALHOST
  {
    var tail := SplitReads(netloc, None);
    LocalIsBare(f, netloc);
    assert netloc == SplitHost(netloc).host;
  }

  lemma LocalIsBare(f: Compressor, netloc: string)
    requires BracketsOk(f, netloc) && Hostname(SplitHost(netloc).host) == LOCALHOST
    ensures '[' !in netloc && Lower(SplitHost(netloc).host) == LOCALHOST
  {
    var raw := SplitHost(netloc).host;
    assert forall c | c in LOCALHOST :: 'a' <= c <= 'z';
    assert LOCALHOST[0] == 'l';
    NoLiteral(f, LOCALHOST);
    PercentStays(raw);
    PartitionNowhere(raw, '%');
    assert Hostname(raw) == Lower(raw);
    assert raw[0] == 'l' || raw[0] == 'L';
  }

  lemma PercentStays(raw: string)
    ensures '%' in raw ==> '%' in Hostname(raw)
  {
    if '%' in raw {
      PartitionIn(raw, '%');
      assert Hostname(raw)[Find(raw, '%', 0)] == '%';
    }
  }

  // ----- whole URIs -----

  ghost predicate AuthorityBecomes(f: Compressor, name: string, netloc: string, out: string) {
    || (name == "https" && NetworkBecomes(f, true, netloc, out))
    || (name == "proofagent" && NetworkBecomes(f, false, netloc, out))
    || (name == "s3" && BucketBecomes(netloc, out))
    || (name == "file" && out == Lower(netloc) && (out == "" || out == "localhost"))
  }

  lemma AuthorityExactly(f: Compressor, scheme: Scheme, netloc: string, out: string)
    ensures CanonicalAuthority(f, scheme, netloc) == Some(out) <==> AuthorityBecomes(f, scheme.Name(), netloc, out)
  {
    assert "https"[0] == 'h' && "proofagent"[0] == 'p' && "s3"[0] == 's' && "file"[0] == 'f';
    match scheme
    case S3 => BucketExactly(f, netloc, out);
    case File => FileExactly(f, netloc, out);
    case _ => NetworkExactly(f, scheme, netloc, out);
  }

  predicate InRange(c: char, low: char, high: char) {
    low <= c <= high
  }

  /** Every percent sign starts an escape in upper case, of a byte that is neither a
      letter nor a digit nor one of these marks. */
  predicate EscapesAreNeeded(value: string) {
    forall i | 0 <= i < |value| && value[i] == '%' ::
      && EscapeAt(value, i)
      && !InRange(value[i + 1], 'a', 'f') && !InRange(value[i + 2], 'a', 'f')
      && var b := Escaped(value, i);
      && !InRange(b, '0', '9') && !InRange(b, 'A', 'Z') && !InRange(b, 'a', 'z')
      && b !in {'-', '.', '_', '~', '/', '\\', '%'}
  }

  lemma EscapesExactly(value: string)
    ensures PercentChecked(value) <==> EscapesAreNeeded(value)
  {
    forall i | 0 <= i < |value| && value[i] == '%' && EscapeAt(value, i)
      ensures IsUpperHex(value[i + 1]) <==> !InRange(value[i + 1], 'a', 'f')
      ensures IsUpperHex(value[i + 2]) <==> !InRange(value[i + 2], 'a', 'f')
    {
    }
  }

  /** Visible ASCII characters other than a backslash, "?" and "#"; what the escapes
      stand for is Unicode text without controls and backslashes. */
  ghost predicate IsUriText(value: string) {
    && (forall c | c in value :: 0x21 <= c as int <= 0x7E && c !in {'\\', '?', '#'})
    && EscapesAreNeeded(value)
    && (exists ns :: Encodes(ns, Decode(value)))
    && (forall b | b in Decode(value) :: b as int >= 0x20 && b as int != 0x7F && b != '\\')
  }

  lemma UriTextExactly(value: string)
    ensures UriCharactersOk(value) && '?' !in value && '#' !in value <==> IsUriText(value)
  {
    EscapesExactly(value);
    Utf8Exactly(Decode(value));
    forall c: char ensures PlainCharacter(c) <==> 0x21 <= c as int <= 0x7E && c != '\\' {
    }
  }

  function Spelled(schemeText: string, netloc: string, path: string): string {
    schemeText + [':'] + ("//" + (netloc + path))
  }

  /** A text is an artifact URI, and this its canonical form, exactly when it is
      made of such characters, of a scheme in any case, an authority fit for the
      scheme and an absolute path beyond the root without dot segments. */
  ghost predicate UriBecomes(f: Compressor, value: string, out: string) {
    && IsUriText(value)
    && exists schemeText, netloc, path, authority :: UriParts(f, value, out, schemeText, netloc, path, authority)
  }

  ghost predicate UriParts(
    f: Compressor, value: string, out: string, schemeText: string, netloc: string, path: string, authority: string)
  {
    && value == Spelled(schemeText, netloc, path)
    && '/' !in netloc && |path| >= 2 && path[0] == '/' && RemoveDotSegments(path, "") == path
    && AuthorityBecomes(f, Lower(schemeText), netloc, authority)
    && out == Spelled(Lower(schemeText), authority, path)
  }

  lemma AcceptedExactly(f: Compressor, value: string, out: string)
    ensures Canonicalize(f, value) == Some(out) <==> UriBecomes(f, value, out)
  {
    UriTextExactly(value);
    if Canonicalize(f, value) == Some(out) {
      AcceptedIsSpelled(f, value, out);
    }
    if UriBecomes(f, value, out) {
      var schemeText, netloc, path, authority :| UriParts(f, value, out, schemeText, netloc, path, authority);
      SpelledIsAccepted(f, value, out, schemeText, netloc, path, authority);
    }
  }

  lemma AcceptedIsSpelled(f: Compressor, value: string, out: string)
    requires Canonicalize(f, value) == Some(out)
    ensures exists schemeText, netloc, path, authority :: UriParts(f, value, out, schemeText, netloc, path, authority)
  {
    var p := Parse(value).value;
    var scheme := SchemeOf(p.schemeText).value;
    var authority := CanonicalAuthority(f, scheme, p.netloc).value;
    assert out == Render(p.schemeText, authority, p.path);
    RenderIsSpelled(p.schemeText, authority, p.path);
    AuthorityExactly(f, scheme, p.netloc, authority);
    ParsedIsSpelled(value);
    RenderIsSpelled(Before(value, ':'), p.netloc, p.path);
    PathIsFixed(value, Before(value, ':') + [':'] + ("//" + p.netloc), p.path);
    assert UriParts(f, value, out, Before(value, ':'), p.netloc, p.path, authority);
  }

  lemma ParsedIsSpelled(value: string)
    requires Parse(value).Some?
    ensures var p := Parse(value).value;
            && value == Spelled(Before(value, ':'), p.netloc, p.path) && '/' !in p.netloc
            && p.schemeText == Lower(Before(value, ':'))
  {
    ParseParts(value);
  }

  lemma RenderIsSpelled(schemeText: string, authority: string, path: string)
    ensures Render(schemeText, authority, path) == Spelled(schemeText, authority, path)
    ensures Spelled(schemeText, authority, path) == (schemeText + [':'] + ("//" + authority)) + path
  {
    RenderShape(schemeText, authority, path);
  }

  lemma PathIsFixed(value: string, front: string, path: string)
    requires PercentChecked(value) && value == front + path
    ensures CanonicalPath(path) <==> |path| >= 2 && path[0] == '/' && RemoveDotSegments(path, "") == path
  {
    CheckedSuffix(value, |front|);
    TakeDrop(front, path);
    CanonicalPathIsFixed(path);
  }

  lemma SpelledIsAccepted(
    f: Compressor, value: string, out: string, schemeText: string, netloc: string, path: string, authority: string)
    requires UriCharactersOk(value) && '?' !in value && '#' !in value
    requires UriParts(f, value, out, schemeText, netloc, path, authority)
    ensures Canonicalize(f, value) == Some(out)
  {
    var scheme := NamedScheme(f, Lower(schemeText), netloc, authority);
    AuthorityExactly(f, scheme, netloc, authority);
    SchemeNames(scheme);
    SpelledParses(schemeText, netloc, path);
    RenderIsSpelled(Lower(schemeText), authority, path);
    PathIsFixed(value, schemeText + [':'] + ("//" + netloc), path);
    CanonicalizeParts(f, value, scheme, Parsed(Lower(schemeText), netloc, path), authority);
  }

  lemma SpelledParses(schemeText: string, netloc: string, path: string)
    requires ':' !in Lower(schemeText) && '/' !in netloc && path != "" && path[0] == '/'
    ensures Parse(Spelled(schemeText, netloc, path)) == Some(Parsed(Lower(schemeText), netloc, path))
    ensures Spelled(schemeText, netloc, path) == (schemeText + [':'] + ("//" + netloc)) + path
  {
    LowerKeepsOthers(schemeText, ':');
    RenderIsSpelled(schemeText, netloc, path);
    ParseRender(schemeText, netloc, path);
  }

  lemma CanonicalizeParts(f: Compressor, value: string, scheme: Scheme, p: Parsed, authority: string)
    requires UriCharactersOk(value) && '?' !in value && '#' !in value
    requires Parse(value) == Some(p) && SchemeOf(p.schemeText) == Some(scheme)
    requires CanonicalPath(p.path) && CanonicalAuthority(f, scheme, p.netloc) == Some(authority)
    ensures Canonicalize(f, value) == Some(Render(p.schemeText, authority, p.path))
  {
  }

  lemma NamedScheme(f: Compressor, name: string, netloc: string, authority: string) returns (scheme: Scheme)
    requires AuthorityBecomes(f, name, netloc, authority)
    ensures scheme.Name() == name
  {
    scheme := if name == "https" then Https else if name == "proofagent" then ProofAgent else if name == "s3" then S3 else File;
  }
}
