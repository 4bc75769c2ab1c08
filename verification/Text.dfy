/** The string operations the modelled code takes from its host language:
    stripping, splitting, joining, lower-casing and sets of a list. */
module Text {

  datatype Option<+T> = None | Some(value: T)

  datatype Result<+T, +E> = Ok(value: T) | Err(error: E)

  /** The characters str.isspace and str.strip treat as whitespace. */
  predicate IsSpace(c: char) {
    var n := c as int;
    || 0x09 <= n <= 0x0D
    || 0x1C <= n <= 0x20
    || n == 0x85 || n == 0xA0 || n == 0x1680
    || 0x2000 <= n <= 0x200A
    || n == 0x2028 || n == 0x2029 || n == 0x202F || n == 0x205F || n == 0x3000
  }

  predicate IsBlank(s: string) {
    forall i | 0 <= i < |s| :: IsSpace(s[i])
  }

  function StripLeft(s: string): string {
    if s != "" && IsSpace(s[0]) then StripLeft(s[1..]) else s
  }

  function StripRight(s: string): string {
    if s != "" && IsSpace(s[|s| - 1]) then StripRight(s[..|s| - 1]) else s
  }

  function Strip(s: string): string {
    StripRight(StripLeft(s))
  }

  /** Stripping leaves a string alone exactly when neither end is whitespace. */
  lemma {:induction false} StripFixpoint(s: string)
    ensures Strip(s) == s <==> s == "" || (!IsSpace(s[0]) && !IsSpace(s[|s| - 1]))
  {
    StripLeftShrinks(s);
    StripRightShrinks(StripLeft(s));
  }

  lemma {:induction false} StripLeftShrinks(s: string)
    ensures |StripLeft(s)| <= |s|
    ensures StripLeft(s) == s || |StripLeft(s)| < |s|
    ensures |StripLeft(s)| == |s| ==> s == "" || !IsSpace(s[0])
  {
    if s != "" && IsSpace(s[0]) {
      StripLeftShrinks(s[1..]);
    }
  }

  lemma {:induction false} StripRightShrinks(s: string)
    ensures |StripRight(s)| <= |s|
    ensures StripRight(s) == s || |StripRight(s)| < |s|
    ensures |StripRight(s)| == |s| ==> s == "" || !IsSpace(s[|s| - 1])
  {
    if s != "" && IsSpace(s[|s| - 1]) {
      StripRightShrinks(s[..|s| - 1]);
    }
  }

  /** A stripped string is empty exactly when the original is all whitespace. */
  lemma {:induction false} StripEmpty(s: string)
    ensures Strip(s) == "" <==> IsBlank(s)
  {
    if s != "" && IsSpace(s[0]) {
      StripEmpty(s[1..]);
      assert s == [s[0]] + s[1..];
    } else if s != "" {
      StripRightKeepsHead(s);
    }
  }

  lemma {:induction false} StripRightKeepsHead(s: string)
    requires s != "" && !IsSpace(s[0])
    ensures StripRight(s) != "" && StripRight(s)[0] == s[0]
  {
    if |s| > 1 && IsSpace(s[|s| - 1]) {
      StripRightKeepsHead(s[..|s| - 1]);
    }
  }

  /** The pieces between separators: never empty. */
  function Split(s: string, sep: char): (parts: seq<string>)
    ensures parts != []
  {
    if s == "" then [""] else Prepend(s[0], Split(s[1..], sep), sep)
  }

  function Prepend(c: char, rest: seq<string>, sep: char): (parts: seq<string>)
    requires rest != []
    ensures parts != []
  {
    if c == sep then [""] + rest else [[c] + rest[0]] + rest[1..]
  }

  lemma PrependAppend(c: char, rest: seq<string>, sep: char, tail: seq<string>)
    requires rest != []
    ensures Prepend(c, rest + tail, sep) == Prepend(c, rest, sep) + tail
  {
    assert (rest + tail)[1..] == rest[1..] + tail;
  }

  function Join(parts: seq<string>, sep: char): string {
    if parts == [] then ""
    else if |parts| == 1 then parts[0]
    else parts[0] + [sep] + Join(parts[1..], sep)
  }

  lemma {:induction false} SplitParts(s: string, sep: char)
    ensures forall p | p in Split(s, sep) :: sep !in p
    ensures Join(Split(s, sep), sep) == s
  {
    if s != "" {
      SplitParts(s[1..], sep);
      var rest := Split(s[1..], sep);
      if s[0] == sep {
        assert ([""] + rest)[1..] == rest;
        assert Join([""] + rest, sep) == [sep] + s[1..];
      } else {
        var first := [s[0]] + rest[0];
        assert ([first] + rest[1..])[1..] == rest[1..];
        if |rest| > 1 {
          assert Join(rest, sep) == rest[0] + [sep] + Join(rest[1..], sep);
          assert Join([first] + rest[1..], sep) == first + [sep] + Join(rest[1..], sep);
          assert first + [sep] + Join(rest[1..], sep) == [s[0]] + s[1..];
        }
      }
    }
  }

  lemma {:induction false} SplitPlain(s: string, sep: char)
    requires sep !in s
    ensures Split(s, sep) == [s]
  {
    if s != "" {
      assert s[0] in s && forall c | c in s[1..] :: c in s;
      SplitPlain(s[1..], sep);
      assert [s[0]] + s[1..] == s;
    }
  }

  /** Splitting a concatenation at a separator splits both sides. */
  lemma {:induction false} SplitAppend(a: string, b: string, sep: char)
    ensures Split(a + [sep] + b, sep) == Split(a, sep) + Split(b, sep)
  {
    var whole := a + [sep] + b;
    if a == "" {
      assert whole[1..] == b;
    } else {
      SplitAppend(a[1..], b, sep);
      assert whole[0] == a[0] && whole[1..] == a[1..] + [sep] + b;
      PrependAppend(a[0], Split(a[1..], sep), sep, Split(b, sep));
      assert Split(whole, sep) == Prepend(a[0], Split(whole[1..], sep), sep);
    }
  }

  lemma {:induction false} SplitJoin(parts: seq<string>, sep: char)
    requires parts != []
    requires forall p | p in parts :: sep !in p
    ensures Split(Join(parts, sep), sep) == parts
  {
    if |parts| == 1 {
      SplitPlain(parts[0], sep);
    } else {
      SplitJoin(parts[1..], sep);
      SplitAppend(parts[0], Join(parts[1..], sep), sep);
      SplitPlain(parts[0], sep);
      assert [parts[0]] + parts[1..] == parts;
    }
  }

  /** ASCII lower-casing of one character. */
  function LowerChar(c: char): (l: char)
    ensures l != c ==> 'A' <= c <= 'Z' && 'a' <= l <= 'z'
  {
    if 'A' <= c <= 'Z' then (c as int + 32) as char else c
  }

  function Lower(s: string): (l: string)
    ensures |l| == |s|
    ensures forall i | 0 <= i < |s| :: l[i] == LowerChar(s[i])
  {
    seq(|s|, i requires 0 <= i < |s| => LowerChar(s[i]))
  }

  predicate EndsWith(s: string, suffix: string) {
    |suffix| <= |s| && s[|s| - |suffix|..] == suffix
  }

  predicate OccursAt(s: string, part: string, i: nat) {
    i + |part| <= |s| && s[i..i + |part|] == part
  }

  predicate Contains(s: string, part: string) {
    exists i | 0 <= i <= |s| - |part| :: OccursAt(s, part, i)
  }

  /** s.find(c, from), or |s| when c does not follow. */
  function Find(s: string, c: char, from: nat): (i: nat)
    requires from <= |s|
    ensures from <= i <= |s|
    ensures i < |s| ==> s[i] == c
    ensures forall j | from <= j < i :: s[j] != c
    decreases |s| - from
  {
    if from == |s| || s[from] == c then from else Find(s, c, from + 1)
  }

  /** The first and last results of s.partition(c). */
  function Before(s: string, c: char): string {
    s[..Find(s, c, 0)]
  }

  function After(s: string, c: char): string {
    var i := Find(s, c, 0);
    if i < |s| then s[i + 1..] else ""
  }

  lemma PartitionAt(a: string, c: char, b: string)
    requires c !in a
    ensures Find(a + [c] + b, c, 0) == |a|
    ensures Before(a + [c] + b, c) == a && After(a + [c] + b, c) == b
  {
    var s := a + [c] + b;
    assert s[|a|] == c;
    assert forall j | 0 <= j < |a| :: s[j] in a;
  }

  lemma PartitionNowhere(s: string, c: char)
    requires c !in s
    ensures Find(s, c, 0) == |s| && Before(s, c) == s && After(s, c) == ""
  {
    assert forall j | 0 <= j < |s| :: s[j] in s;
  }

  lemma PartitionWhole(s: string, c: char)
    ensures s == Before(s, c) + (if c in s then [c] + After(s, c) else "")
    ensures c !in Before(s, c)
  {
    if c in s {
      var j :| 0 <= j < |s| && s[j] == c;
      assert s[Find(s, c, 0)] == c;
    } else {
      PartitionNowhere(s, c);
    }
  }

  lemma PartitionIn(s: string, c: char)
    requires c in s
    ensures s == Before(s, c) + [c] + After(s, c) && c !in Before(s, c)
  {
    var j :| 0 <= j < |s| && s[j] == c;
    var i := Find(s, c, 0);
    assert s[i] == c;
    assert s == s[..i] + [s[i]] + s[i + 1..];
  }

  /** Every other character lies in a part. */
  lemma {:induction false} SplitCharacters(s: string, sep: char, c: char)
    requires c in s && c != sep
    ensures exists p :: p in Split(s, sep) && c in p
  {
    var rest := Split(s[1..], sep);
    var parts := Split(s, sep);
    if s[0] == c {
      assert parts[0] in parts && c in parts[0];
    } else {
      assert c in s[1..];
      SplitCharacters(s[1..], sep, c);
      var p :| p in rest && c in p;
      if s[0] == sep {
        assert p in parts;
      } else if p == rest[0] {
        assert parts[0] in parts && c in parts[0];
      } else {
        assert p in rest[1..];
      }
    }
  }

  lemma LowerTwice(s: string)
    ensures Lower(Lower(s)) == Lower(s)
  {
  }

  lemma LowerAppend(a: string, b: string)
    ensures Lower(a + b) == Lower(a) + Lower(b)
  {
  }

  lemma LowerKeepsOthers(s: string, c: char)
    requires !('A' <= c <= 'Z') && !('a' <= c <= 'z')
    ensures c in Lower(s) <==> c in s
  {
    if c in s {
      var i :| 0 <= i < |s| && s[i] == c;
      assert Lower(s)[i] == c;
    }
    if c in Lower(s) {
      var i :| 0 <= i < |s| && Lower(s)[i] == c;
      assert s[i] == c;
    }
  }

  lemma TakeDrop(a: string, b: string)
    ensures (a + b)[..|a|] == a && (a + b)[|a|..] == b
  {
  }

  // ----- lists without repetition -----

  function ToSet<T(==)>(xs: seq<T>): set<T> {
    set x | x in xs
  }

  /** len(values) == len(set(values)) */
  predicate Unique<T(==)>(xs: seq<T>) {
    |xs| == |ToSet(xs)|
  }

  predicate Distinct<T(==)>(xs: seq<T>) {
    forall i, j | 0 <= i < j < |xs| :: xs[i] != xs[j]
  }

  lemma {:induction false} UniqueMeansDistinct<T>(xs: seq<T>)
    ensures |ToSet(xs)| <= |xs|
    ensures Unique(xs) <==> Distinct(xs)
  {
    if xs != [] {
      var rest := xs[1..];
      UniqueMeansDistinct(rest);
      assert xs == [xs[0]] + rest;
      assert ToSet(xs) == ToSet(rest) + {xs[0]};
      if xs[0] in rest {
        assert ToSet(xs) == ToSet(rest);
        var j :| 0 <= j < |rest| && rest[j] == xs[0];
        assert xs[j + 1] == xs[0];
      } else {
        forall i, j | 0 <= i < j < |xs| && Distinct(rest) ensures xs[i] != xs[j] {
          assert xs[j] == rest[j - 1];
        }
        if Distinct(xs) {
          forall i, j | 0 <= i < j < |rest| ensures rest[i] != rest[j] {
            assert rest[i] == xs[i + 1] && rest[j] == xs[j + 1];
          }
        }
      }
    }
  }

  // ----- values that agree -----

  /** A set of values is the set of one value when each of them is that value. */
  lemma AllSame3<T>(xs: seq<T>, y: T)
    requires |xs| == 3
    ensures {xs[0], xs[1], xs[2]} == {y} <==> xs[0] == y && xs[1] == y && xs[2] == y
  {
    if {xs[0], xs[1], xs[2]} == {y} {
      assert xs[0] in {y} && xs[1] in {y} && xs[2] in {y};
    }
  }

  lemma AllSame4<T>(xs: seq<T>, y: T)
    requires |xs| == 4
    ensures {xs[0], xs[1], xs[2], xs[3]} == {y} <==> xs[0] == y && xs[1] == y && xs[2] == y && xs[3] == y
  {
    if {xs[0], xs[1], xs[2], xs[3]} == {y} {
      assert xs[0] in {y} && xs[1] in {y} && xs[2] in {y} && xs[3] in {y};
    }
  }

  // ----- numbers -----

  predicate IsDigit(c: char) {
    '0' <= c <= '9'
  }

  predicate AllDigits(s: string) {
    forall c | c in s :: IsDigit(c)
  }

  /** int(text) */
  function NumberOf(s: string): nat
    requires AllDigits(s)
  {
    if s == "" then 0
    else
      assert s[|s| - 1] in s;
      10 * NumberOf(s[..|s| - 1]) + (s[|s| - 1] as int - '0' as int)
  }

  /** str(n) */
  function Decimal(n: nat): (s: string)
    ensures s != "" && AllDigits(s)
  {
    var digit := (n % 10 + '0' as int) as char;
    if n < 10 then [digit] else Decimal(n / 10) + [digit]
  }

  lemma {:induction false} DecimalRoundTrip(n: nat)
    ensures NumberOf(Decimal(n)) == n
  {
    var s := Decimal(n);
    if n >= 10 {
      DecimalRoundTrip(n / 10);
      assert s[..|s| - 1] == Decimal(n / 10);
    } else {
      assert s[..|s| - 1] == "";
    }
  }
}
