/** Percent encoding as proof_agent/contracts/knowledge_index.py checks it,
    measured against RFC 3986. Bytes are characters below 256. */
module PercentEncoding {
  import opened Text

  predicate IsAlnum(c: char) {
    IsDigit(c) || 'A' <= c <= 'Z' || 'a' <= c <= 'z'
  }

  /** RFC 3986 section 2.3. */
  predicate IsUnreserved(c: char) {
    IsAlnum(c) || c == '-' || c == '.' || c == '_' || c == '~'
  }

  predicate IsUpperHex(c: char) {
    IsDigit(c) || 'A' <= c <= 'F'
  }

  predicate IsHex(c: char) {
    IsUpperHex(c) || 'a' <= c <= 'f'
  }

  function HexValue(c: char): (n: nat)
    requires IsHex(c)
    ensures n < 16
  {
    if IsDigit(c) then c as int - '0' as int
    else if 'A' <= c <= 'F' then c as int - 'A' as int + 10
    else c as int - 'a' as int + 10
  }

  function UpperHex(c: char): (u: char)
    requires IsHex(c)
    ensures IsUpperHex(u) && HexValue(u) == HexValue(c)
    ensures IsUpperHex(c) <==> u == c
  {
    if 'a' <= c <= 'f' then (c as int - 32) as char else c
  }

  /** "%" and two hexadecimal digits. */
  predicate EscapeAt(s: string, i: nat) {
    i + 2 < |s| && s[i] == '%' && IsHex(s[i + 1]) && IsHex(s[i + 2])
  }

  function Escaped(s: string, i: nat): (b: char)
    requires EscapeAt(s, i)
    ensures (b as int) < 256
  {
    (16 * HexValue(s[i + 1]) + HexValue(s[i + 2])) as char
  }

  /** unquote_to_bytes of an ASCII text. */
  function Decode(s: string): (bytes: string)
    ensures |bytes| <= |s|
  {
    if s == "" then ""
    else if EscapeAt(s, 0) then [Escaped(s, 0)] + Decode(s[3..])
    else [s[0]] + Decode(s[1..])
  }

  // ----- _validate_percent_encoding -----

  /** An escape the validator lets pass. */
  predicate GoodEscape(s: string, i: nat) {
    && EscapeAt(s, i)
    && IsUpperHex(s[i + 1]) && IsUpperHex(s[i + 2])
    && Escaped(s, i) !in {'/', '\\', '%'}
    && !IsUnreserved(Escaped(s, i))
  }

  predicate PercentChecked(s: string) {
    forall i | 0 <= i < |s| && s[i] == '%' :: GoodEscape(s, i)
  }

  datatype PercentError = NoncanonicalEscape | EncodedSeparator | EncodedUnreserved

  /** Accepts exactly the texts in which every "%", wherever it stands, starts a
      good escape; on refusal the reported fault is there. */
  method ValidatePercentEncoding(value: string) returns (error: Option<PercentError>)
    ensures error.None? <==> PercentChecked(value)
    ensures error == Some(NoncanonicalEscape) ==>
              exists i | 0 <= i < |value| ::
                value[i] == '%' && !(EscapeAt(value, i) && IsUpperHex(value[i + 1]) && IsUpperHex(value[i + 2]))
    ensures error == Some(EncodedSeparator) ==>
              exists i | 0 <= i < |value| :: EscapeAt(value, i) && Escaped(value, i) in {'/', '\\', '%'}
    ensures error == Some(EncodedUnreserved) ==>
              exists i | 0 <= i < |value| :: EscapeAt(value, i) && IsUnreserved(Escaped(value, i))
  {
    var index := 0;
    while index < |value|
      invariant 0 <= index <= |value|
      invariant forall i | 0 <= i < index && value[i] == '%' :: GoodEscape(value, i)
    {
      if value[index] != '%' {
        index := index + 1;
        continue;
      }
      if !(EscapeAt(value, index) && IsUpperHex(value[index + 1]) && IsUpperHex(value[index + 2])) {
        return Some(NoncanonicalEscape);
      }
      var decoded := Escaped(value, index);
      if decoded in {'/', '\\', '%'} {
        return Some(EncodedSeparator);
      }
      if IsUnreserved(decoded) {
        return Some(EncodedUnreserved);
      }
      index := index + 3;
    }
    return None;
  }

  lemma CheckedSuffix(s: string, k: nat)
    requires PercentChecked(s) && k <= |s|
    ensures PercentChecked(s[k..])
  {
    forall i | 0 <= i < |s[k..]| && s[k..][i] == '%' ensures GoodEscape(s[k..], i) {
      assert GoodEscape(s, i + k);
    }
  }

  /** What is left after the first token. */
  function AfterToken(s: string): string
    requires s != ""
  {
    if EscapeAt(s, 0) then s[3..] else s[1..]
  }

  lemma CheckedRest(s: string)
    requires PercentChecked(s) && s != ""
    ensures PercentChecked(AfterToken(s))
    ensures s[0] == '%' ==> GoodEscape(s, 0)
  {
    CheckedSuffix(s, if EscapeAt(s, 0) then 3 else 1);
  }

  // ----- decoding once -----

  /** A checked text decodes to bytes without "%": there is nothing left to
      decode. */
  lemma {:induction false} DecodeTwiceIsDecodeOnce(s: string)
    requires PercentChecked(s)
    ensures '%' !in Decode(s)
    ensures Decode(Decode(s)) == Decode(s)
  {
    if s != "" {
      CheckedRest(s);
      DecodeTwiceIsDecodeOnce(AfterToken(s));
    }
    NothingToDecode(Decode(s));
  }

  lemma {:induction false} NothingToDecode(s: string)
    requires '%' !in s
    ensures Decode(s) == s
  {
    if s != "" {
      assert s[0] in s && forall c | c in s[1..] :: c in s;
      NothingToDecode(s[1..]);
      assert s == [s[0]] + s[1..];
    }
  }

  // ----- decoding and splitting commute -----

  function DecodeAll(parts: seq<string>): (decoded: seq<string>)
    ensures |decoded| == |parts| && forall i | 0 <= i < |parts| :: decoded[i] == Decode(parts[i])
  {
    seq(|parts|, i requires 0 <= i < |parts| => Decode(parts[i]))
  }

  /** The segments of a decoded path are the decoded segments of the path. */
  lemma {:induction false} DecodeThenSplit(s: string)
    requires PercentChecked(s)
    ensures Split(Decode(s), '/') == DecodeAll(Split(s, '/'))
  {
    if s != "" {
      CheckedRest(s);
      DecodeThenSplit(AfterToken(s));
      if EscapeAt(s, 0) {
        DecodeThenSplitEscape(s);
      } else {
        DecodeThenSplitPlain(s);
      }
    }
  }

  lemma DecodeThenSplitEscape(s: string)
    requires EscapeAt(s, 0) && Escaped(s, 0) != '/'
    requires Split(Decode(s[3..]), '/') == DecodeAll(Split(s[3..], '/'))
    ensures Split(Decode(s), '/') == DecodeAll(Split(s, '/'))
  {
    var parts := Split(s[3..], '/');
    SplitEscape(s);
    SplitCons(Escaped(s, 0), Decode(s[3..]));
    DecodeEscapePrepend(s[..3], parts);
  }

  lemma DecodeEscapePrepend(escape: string, parts: seq<string>)
    requires parts != [] && |escape| == 3 && EscapeAt(escape, 0)
    ensures DecodeAll([escape + parts[0]] + parts[1..]) ==
            [[Escaped(escape, 0)] + Decode(parts[0])] + DecodeAll(parts)[1..]
  {
    var first := escape + parts[0];
    assert first[3..] == parts[0];
    assert Decode(first) == [Escaped(first, 0)] + Decode(parts[0]);
  }

  lemma DecodeThenSplitPlain(s: string)
    requires s != "" && s[0] != '%'
    requires Split(Decode(s[1..]), '/') == DecodeAll(Split(s[1..], '/'))
    ensures Split(Decode(s), '/') == DecodeAll(Split(s, '/'))
  {
    SplitCons(s[0], Decode(s[1..]));
    SplitCons(s[0], s[1..]);
    assert [s[0]] + s[1..] == s;
    DecodePrepended(s[0], Split(s[1..], '/'));
  }

  lemma DecodePrepended(c: char, parts: seq<string>)
    requires parts != [] && c != '%'
    ensures DecodeAll(Prepend(c, parts, '/')) == Prepend(c, DecodeAll(parts), '/')
  {
    if c == '/' {
      assert DecodeAll([""] + parts) == [""] + DecodeAll(parts);
    } else {
      DecodeAllPrepend(c, parts);
    }
  }

  lemma SplitCons(c: char, rest: string)
    ensures Split([c] + rest, '/') == Prepend(c, Split(rest, '/'), '/')
  {
    assert ([c] + rest)[1..] == rest;
  }

  lemma DecodeAllPrepend(c: char, parts: seq<string>)
    requires parts != [] && c != '%'
    ensures DecodeAll([[c] + parts[0]] + parts[1..]) == [[c] + Decode(parts[0])] + DecodeAll(parts)[1..]
  {
    var first := [c] + parts[0];
    assert first[1..] == parts[0] && !EscapeAt(first, 0);
    assert Decode(first) == [c] + Decode(parts[0]);
  }

  lemma SplitEscape(s: string)
    requires EscapeAt(s, 0)
    ensures var parts := Split(s[3..], '/');
            Split(s, '/') == [s[..3] + parts[0]] + parts[1..]
  {
    var parts := Split(s[3..], '/');
    assert s[2..][1..] == s[3..];
    assert s[1..][1..] == s[2..];
    assert Split(s[2..], '/') == [[s[2]] + parts[0]] + parts[1..];
    assert Split(s[1..], '/') == [[s[1]] + ([s[2]] + parts[0])] + parts[1..];
    assert [s[0]] + ([s[1]] + ([s[2]] + parts[0])) == s[..3] + parts[0];
  }

  // ----- RFC 3986 normalisation -----

  /** Sections 6.2.2.1 and 6.2.2.2: decode escaped unreserved characters, write
      the other escapes with upper-case digits. */
  function Normalize(s: string): (t: string)
    ensures |t| <= |s|
  {
    if s == "" then ""
    else if EscapeAt(s, 0) then
      (if IsUnreserved(Escaped(s, 0)) then [Escaped(s, 0)]
       else ['%', UpperHex(s[1]), UpperHex(s[2])]) + Normalize(s[3..])
    else [s[0]] + Normalize(s[1..])
  }

  /** Section 2.1: every "%" starts an escape. */
  predicate WellFormed(s: string) {
    s == "" || ((s[0] == '%' ==> EscapeAt(s, 0)) && WellFormed(AfterToken(s)))
  }

  predicate EncodesSeparator(s: string) {
    s != "" &&
    ((EscapeAt(s, 0) && Escaped(s, 0) in {'/', '\\', '%'}) || EncodesSeparator(AfterToken(s)))
  }

  /** The check is RFC 3986 normality: a text passes exactly when it is well
      formed, is its own normal form, and encodes no separator or "%". */
  lemma {:induction false} CheckedIffNormal(s: string)
    ensures PercentChecked(s) <==> WellFormed(s) && Normalize(s) == s && !EncodesSeparator(s)
    decreases |s|
  {
    if s != "" {
      CheckedIffNormal(AfterToken(s));
      CheckedByTokens(s);
      NormalByTokens(s);
    }
  }

  lemma CheckedByTokens(s: string)
    requires s != ""
    ensures PercentChecked(s) <==> (s[0] == '%' ==> GoodEscape(s, 0)) && PercentChecked(AfterToken(s))
  {
    if PercentChecked(s) {
      CheckedRest(s);
    }
    if (s[0] == '%' ==> GoodEscape(s, 0)) && PercentChecked(AfterToken(s)) {
      var k := if EscapeAt(s, 0) then 3 else 1;
      forall i | 0 <= i < |s| && s[i] == '%' ensures GoodEscape(s, i) {
        if i >= k {
          assert GoodEscape(AfterToken(s), i - k);
        }
      }
    }
  }

  lemma NormalByTokens(s: string)
    requires s != ""
    ensures Normalize(s) == s <==>
              && Normalize(AfterToken(s)) == AfterToken(s)
              && (EscapeAt(s, 0) ==> !IsUnreserved(Escaped(s, 0)) && IsUpperHex(s[1]) && IsUpperHex(s[2]))
  {
    var rest := AfterToken(s);
    if EscapeAt(s, 0) {
      assert s == [s[0], s[1], s[2]] + rest;
      if !IsUnreserved(Escaped(s, 0)) {
        var head := ['%', UpperHex(s[1]), UpperHex(s[2])];
        assert Normalize(s) == head + Normalize(rest);
        assert Normalize(s)[..3] == head && Normalize(s)[3..] == Normalize(rest);
        assert s[..3] == [s[0], s[1], s[2]] && s[3..] == rest;
      }
    } else {
      assert s == [s[0]] + rest;
      assert Normalize(s)[1..] == Normalize(rest);
    }
  }

  /** Normalising a well-formed text keeps what it decodes to, and twice is
      once. */
  lemma {:induction false} NormalizePreservesMeaning(s: string)
    requires WellFormed(s)
    ensures WellFormed(Normalize(s))
    ensures Decode(Normalize(s)) == Decode(s)
    ensures Normalize(Normalize(s)) == Normalize(s)
    decreases |s|
  {
    if s != "" {
      NormalizePreservesMeaning(AfterToken(s));
      var n := Normalize(s);
      var rest := Normalize(AfterToken(s));
      if EscapeAt(s, 0) && !IsUnreserved(Escaped(s, 0)) {
        assert n[3..] == rest && EscapeAt(n, 0) && Escaped(n, 0) == Escaped(s, 0);
      } else {
        assert n[1..] == rest && n[0] != '%';
      }
    }
  }

  // ----- dot segments -----

  predicate IsDots(segment: string) {
    segment == "." || segment == ".."
  }

  lemma {:induction false} DecodedDotsAreDots(segment: string)
    requires PercentChecked(segment)
    ensures IsDots(Decode(segment)) <==> IsDots(segment)
  {
    if segment != "" {
      CheckedRest(segment);
      DecodedHead(segment);
      var rest := AfterToken(segment);
      if rest != "" {
        CheckedRest(rest);
        DecodedHead(rest);
      }
    }
  }

  lemma DecodedHead(s: string)
    requires PercentChecked(s) && s != ""
    ensures Decode(s) != "" && (Decode(s)[0] == '.' <==> s[0] == '.')
    ensures s[0] == '.' ==> Decode(s)[1..] == Decode(s[1..])
  {
  }

  /** _validate_canonical_path */
  predicate CanonicalPath(path: string) {
    && path != "" && path[0] == '/' && path != "/"
    && forall segment | segment in Split(path, '/') :: !IsDots(Decode(segment))
  }

  /** One step of RFC 3986 section 5.2.4 on its input and output buffers. */
  function RemovalStep(input: string, output: string): (next: (string, string))
    requires input != ""
    ensures |next.0| < |input|
  {
    if "../" <= input then (input[3..], output)
    else if "./" <= input then (input[2..], output)
    else if "/./" <= input then (input[2..], output)
    else if input == "/." then ("/", output)
    else if "/../" <= input then (input[3..], WithoutLastSegment(output))
    else if input == "/.." then ("/", WithoutLastSegment(output))
    else if input == "." || input == ".." then ("", output)
    else
      var end := Find(input, '/', 1);
      (input[end..], output + input[..end])
  }

  function RemoveDotSegments(input: string, output: string): string
    decreases |input|
  {
    if input == "" then output
    else
      var next := RemovalStep(input, output);
      RemoveDotSegments(next.0, next.1)
  }

  function WithoutLastSegment(output: string): string {
    if output == "" then ""
    else if output[|output| - 1] == '/' then output[..|output| - 1]
    else WithoutLastSegment(output[..|output| - 1])
  }

  predicate DotFree(path: string) {
    forall segment | segment in Split(path, '/') :: !IsDots(segment)
  }

  /** A canonical path has no dot segment, encoded or not. */
  lemma CanonicalPathIsDotFree(path: string)
    requires PercentChecked(path) && CanonicalPath(path)
    ensures DotFree(Decode(path)) && DotFree(path)
  {
    DecodeThenSplit(path);
    NothingToDecode(".");
    NothingToDecode("..");
  }

  /** The canonical paths are exactly the absolute paths beyond the root that
      removing dot segments (section 6.2.2.3) leaves alone. */
  lemma CanonicalPathIsFixed(path: string)
    requires PercentChecked(path)
    ensures CanonicalPath(path) <==> |path| >= 2 && path[0] == '/' && RemoveDotSegments(path, "") == path
  {
    if |path| >= 2 && path[0] == '/' {
      CheckedSegments(path);
      forall segment | segment in Split(path, '/') ensures IsDots(Decode(segment)) <==> IsDots(segment) {
        DecodedDotsAreDots(segment);
      }
      assert CanonicalPath(path) <==> DotFree(path);
      if DotFree(path) {
        DotFreeIsFixed(path, "");
        assert path == "" + path;
      } else {
        DotsAreRemoved(path, "");
      }
    }
  }

  lemma {:induction false} CheckedSegments(s: string)
    requires PercentChecked(s)
    ensures forall segment | segment in Split(s, '/') :: PercentChecked(segment)
    decreases |s|
  {
    if s != "" {
      CheckedRest(s);
      var rest := AfterToken(s);
      CheckedSegments(rest);
      var parts := Split(rest, '/');
      if EscapeAt(s, 0) {
        SplitEscape(s);
        CheckedHead(s[..3], parts[0]);
      } else {
        SplitCons(s[0], rest);
        assert [s[0]] + rest == s;
        CheckedHead([s[0]], parts[0]);
      }
    }
  }

  lemma CheckedHead(token: string, rest: string)
    requires PercentChecked(rest)
    requires (|token| == 1 && token[0] != '%') || (|token| == 3 && token[0] == '%' && GoodEscape(token, 0))
    ensures PercentChecked(token + rest)
  {
    assert AfterToken(token + rest) == rest;
    CheckedByTokens(token + rest);
  }

  lemma {:induction false} WithoutLastSegmentShrinks(output: string)
    ensures |WithoutLastSegment(output)| <= |output|
  {
    if output != "" {
      WithoutLastSegmentShrinks(output[..|output| - 1]);
    }
  }

  lemma {:induction false} RemovalShrinks(input: string, output: string)
    ensures |RemoveDotSegments(input, output)| <= |input| + |output|
    decreases |input|
  {
    if input != "" {
      var next := RemovalStep(input, output);
      WithoutLastSegmentShrinks(output);
      RemovalShrinks(next.0, next.1);
    }
  }

  lemma {:induction false} DotsAreRemoved(input: string, output: string)
    requires input != "" ==> input[0] == '/'
    requires !DotFree(input)
    ensures |RemoveDotSegments(input, output)| < |input| + |output|
    decreases |input|
  {
    if input != "" {
      var end := Find(input, '/', 1);
      SplitFirstSegment(input, end);
      var next := RemovalStep(input, output);
      if IsDots(input[1..end]) {
        DotsAreAStep(input, end);
        WithoutLastSegmentShrinks(output);
        RemovalShrinks(next.0, next.1);
      } else {
        FirstSegmentIsCopied(input, output, end);
        DotsAreRemoved(input[end..], output + input[..end]);
      }
    }
  }

  lemma DotsAreAStep(input: string, end: nat)
    requires input != "" && input[0] == '/' && end == Find(input, '/', 1)
    requires IsDots(input[1..end])
    ensures StartsWithDots(input)
  {
    assert input == ['/'] + input[1..end] + input[end..];
    assert input[end..] != "" ==> input[end..][0] == '/';
  }

  lemma {:induction false} DotFreeIsFixed(input: string, output: string)
    requires input != "" ==> input[0] == '/'
    requires DotFree(input)
    ensures RemoveDotSegments(input, output) == output + input
    decreases |input|
  {
    if input != "" {
      var end := Find(input, '/', 1);
      SplitFirstSegment(input, end);
      var rest, done := input[end..], output + input[..end];
      FirstSegmentIsCopied(input, output, end);
      DotFreeIsFixed(rest, done);
      assert done + rest == output + input;
    }
  }

  lemma FirstSegmentIsCopied(input: string, output: string, end: nat)
    requires input != "" && input[0] == '/' && end == Find(input, '/', 1)
    requires !IsDots(input[1..end])
    ensures RemovalStep(input, output) == (input[end..], output + input[..end])
  {
    if StartsWithDots(input) {
      DotPrefixIsASegment(input, end);
    }
  }

  predicate StartsWithDots(input: string) {
    "/./" <= input || input == "/." || "/../" <= input || input == "/.."
  }

  lemma DotPrefixIsASegment(input: string, end: nat)
    requires StartsWithDots(input) && end == Find(input, '/', 1)
    ensures IsDots(input[1..end])
  {
    if "/./" <= input {
      assert input[..3] == "/./" && input[1] == input[..3][1] && input[2] == input[..3][2];
      assert end == 2;
    } else if "/../" <= input {
      assert input[..4] == "/../" && input[1] == input[..4][1] && input[2] == input[..4][2] && input[3] == input[..4][3];
      assert end == 3;
    }
  }

  /** The first segment, and the segments of what follows it. */
  lemma SplitFirstSegment(input: string, end: nat)
    requires input != "" && input[0] == '/' && end == Find(input, '/', 1)
    ensures DotFree(input) <==> !IsDots(input[1..end]) && DotFree(input[end..])
  {
    var segment, rest := input[1..end], input[end..];
    assert '/' !in segment;
    SplitPlain(segment, '/');
    assert Split(input, '/') == [""] + Split(input[1..], '/');
    if rest == "" {
      assert input[1..] == segment;
      assert Split("", '/') == [""];
    } else {
      assert input[1..] == segment + ['/'] + rest[1..];
      SplitAppend(segment, rest[1..], '/');
      assert Split(rest, '/') == [""] + Split(rest[1..], '/');
    }
  }
}
