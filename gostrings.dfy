/** The parts of Go's strings, unicode, path and unicode/utf8 packages that the core relies on.
    A Go string is modelled as the sequence of Unicode scalar values it encodes (Dafny `string`);
    `[]byte(s)` is its UTF-8 encoding, `Utf8(s)`. */
module GoStrings {

  type byte = x: int | 0 <= x < 256

  type Bytes = seq<byte>

  // ---------------------------------------------------------------------------------------------
  // unicode.IsSpace and strings.TrimSpace

  /** unicode.IsSpace: the ASCII spaces '\t', '\n', '\v', '\f', '\r', ' ', then U+0085, U+00A0
      and the other characters with the Unicode White_Space property. */
  predicate IsSpace(c: char) {
    || c == '\t' || c == '\n' || c == '\U{0B}' || c == '\U{0C}' || c == '\r' || c == ' '
    || c == '\U{85}' || c == '\U{A0}' || c == '\U{1680}'
    || ('\U{2000}' <= c <= '\U{200A}')
    || c == '\U{2028}' || c == '\U{2029}' || c == '\U{202F}' || c == '\U{205F}' || c == '\U{3000}'
  }

  predicate AllSpace(s: string) {
    forall i :: 0 <= i < |s| ==> IsSpace(s[i])
  }

  /** Number of white-space characters that start `s`. */
  function LeadingSpace(s: string): (n: nat)
    ensures n <= |s|
  {
    if s == [] || !IsSpace(s[0]) then 0 else 1 + LeadingSpace(s[1..])
  }

  lemma {:induction false} LeadingSpaceSpec(s: string)
    ensures AllSpace(s[..LeadingSpace(s)])
    ensures LeadingSpace(s) < |s| ==> !IsSpace(s[LeadingSpace(s)])
  {
    if s != [] && IsSpace(s[0]) {
      LeadingSpaceSpec(s[1..]);
      var k := LeadingSpace(s[1..]);
      assert s[..1 + k] == [s[0]] + s[1..][..k];
    }
  }

  /** Number of white-space characters that end `s`. */
  function TrailingSpace(s: string): (n: nat)
    ensures n <= |s|
  {
    if s == [] || !IsSpace(s[|s| - 1]) then 0 else 1 + TrailingSpace(s[..|s| - 1])
  }

  lemma {:induction false} TrailingSpaceSpec(s: string)
    ensures forall j :: |s| - TrailingSpace(s) <= j < |s| ==> IsSpace(s[j])
    ensures TrailingSpace(s) < |s| ==> !IsSpace(s[|s| - 1 - TrailingSpace(s)])
  {
    if s != [] && IsSpace(s[|s| - 1]) {
      var p := s[..|s| - 1];
      TrailingSpaceSpec(p);
      assert forall j :: 0 <= j < |s| - 1 ==> s[j] == p[j];
    }
  }

  /** strings.TrimSpace: `s` without its leading white space, then without its trailing one. */
  function TrimSpace(s: string): (r: string)
    ensures |r| <= |s|
  {
    var t := s[LeadingSpace(s)..];
    t[..|t| - TrailingSpace(t)]
  }

  /** The result of TrimSpace is the slice of `s` after its leading white space that neither
      starts nor ends with white space and is followed only by white space; it is empty
      exactly when `s` is all white space. */
  lemma TrimSpaceSpec(s: string)
    ensures Trimmed(TrimSpace(s))
    ensures TrimSpace(s) == "" <==> AllSpace(s)
    ensures var r, a := TrimSpace(s), LeadingSpace(s);
      r != "" ==> a + |r| <= |s| && r == s[a..a + |r|] && AllSpace(s[a + |r|..])
  {
    TrimSpaceEmpty(s);
    TrimSpaceSlice(s);
  }

  lemma TrimSpaceEmpty(s: string)
    ensures TrimSpace(s) == "" <==> AllSpace(s)
  {
    LeadingSpaceSpec(s);
    var a := LeadingSpace(s);
    if a == |s| {
      assert s[..a] == s;
    } else {
      var t := s[a..];
      TrailingSpaceSpec(t);
      assert t[0] == s[a];
      assert TrailingSpace(t) < |t|;
      assert !AllSpace(s) by {
        assert !IsSpace(s[a]);
      }
    }
  }

  lemma TrimSpaceSlice(s: string)
    ensures Trimmed(TrimSpace(s))
    ensures var r, a := TrimSpace(s), LeadingSpace(s);
      r != "" ==> a + |r| <= |s| && r == s[a..a + |r|] && AllSpace(s[a + |r|..])
  {
    var a := LeadingSpace(s);
    var t := s[a..];
    var b := TrailingSpace(t);
    var r := t[..|t| - b];
    if r != "" {
      LeadingSpaceSpec(s);
      TrailingSpaceSpec(t);
      assert r == s[a..a + |r|];
      assert r[0] == s[a] && r[|r| - 1] == t[|t| - 1 - b];
      assert AllSpace(s[a + |r|..]) by {
        var u := s[a + |r|..];
        forall j | 0 <= j < |u| ensures IsSpace(u[j]) {
          assert u[j] == t[|t| - b + j];
        }
      }
    }
  }

  lemma TrimSpaceOfTrimmed(s: string)
    requires Trimmed(s)
    ensures TrimSpace(s) == s
  {
    if s != "" {
      assert LeadingSpace(s) == 0;
      assert s[0..] == s;
      assert TrailingSpace(s) == 0;
    }
  }

  /** `s` neither starts nor ends with white space, as TrimSpace leaves it. */
  predicate Trimmed(s: string) {
    s == "" || (!IsSpace(s[0]) && !IsSpace(s[|s| - 1]))
  }

  /** Trimming keeps a final character that is not white space. */
  lemma TrimSpaceKeepsLast(s: string)
    requires s != "" && !IsSpace(s[|s| - 1])
    ensures TrimSpace(s) != "" && TrimSpace(s)[|TrimSpace(s)| - 1] == s[|s| - 1]
  {
    LeadingSpaceSpec(s);
    var a := LeadingSpace(s);
    assert a < |s|;
    var t := s[a..];
    assert t[|t| - 1] == s[|s| - 1];
    assert TrailingSpace(t) == 0;
    assert t[..|t|] == t;
  }

  /** Trimming keeps a prefix that neither starts nor ends with white space. */
  lemma TrimSpaceKeepsPrefix(u: string, p: string)
    requires p != "" && p <= u && !IsSpace(p[0]) && !IsSpace(p[|p| - 1])
    ensures p <= TrimSpace(u)
  {
    TrimSpaceSpec(u);
    assert u[0] == p[0];
    assert LeadingSpace(u) == 0;
    assert !AllSpace(u) by {
      assert !IsSpace(u[0]);
    }
    var r := TrimSpace(u);
    assert forall j :: |r| <= j < |u| ==> IsSpace(u[j]) by {
      forall j | |r| <= j < |u| ensures IsSpace(u[j]) {
        assert u[j] == u[|r|..][j - |r|];
      }
    }
    assert u[|p| - 1] == p[|p| - 1];
    assert r[..|p|] == u[..|p|];
  }

  // ---------------------------------------------------------------------------------------------
  // strings.Index, strings.Replace

  /** `sub` occurs in `s` starting at position `i`. */
  predicate OccursAt(s: string, sub: string, i: int) {
    0 <= i && i + |sub| <= |s| && s[i..i + |sub|] == sub
  }

  function IndexFrom(s: string, sub: string, k: nat): (r: int)
    requires k <= |s|
    decreases |s| - k
    ensures r == -1 || (k <= r && OccursAt(s, sub, r))
    ensures sub == [] ==> r == k
  {
    if k + |sub| > |s| then -1
    else if s[k..k + |sub|] == sub then k
    else IndexFrom(s, sub, k + 1)
  }

  lemma {:induction false} IndexFromFirst(s: string, sub: string, k: nat)
    requires k <= |s|
    ensures var r := IndexFrom(s, sub, k);
      forall i :: k <= i && (r == -1 || i < r) ==> !OccursAt(s, sub, i)
    decreases |s| - k
  {
    if k + |sub| <= |s| && s[k..k + |sub|] != sub {
      IndexFromFirst(s, sub, k + 1);
    }
  }

  /** strings.Index: the first position at which `sub` occurs in `s`, or -1 when it does not
      occur at all (an empty `sub` occurs at 0). */
  function Index(s: string, sub: string): (r: int)
    ensures r == -1 || OccursAt(s, sub, r)
  {
    IndexFrom(s, sub, 0)
  }

  /** No occurrence of `sub` comes before the one Index reports. */
  lemma IndexFirst(s: string, sub: string)
    ensures var r := Index(s, sub);
      forall i :: 0 <= i && (r == -1 || i < r) ==> !OccursAt(s, sub, i)
  {
    IndexFromFirst(s, sub, 0);
  }

  /** Index finds an occurrence that nothing earlier precedes. */
  lemma IndexIs(s: string, sub: string, i: int)
    requires OccursAt(s, sub, i)
    requires forall k :: 0 <= k < i ==> !OccursAt(s, sub, k)
    ensures Index(s, sub) == i
  {
    IndexFirst(s, sub);
  }

  /** Index of a one-character pattern is -1 exactly when the character is absent, and
      otherwise the first position holding it. */
  lemma IndexOfCharFacts(s: string, c: char)
    ensures var i := Index(s, [c]);
      && (i == -1 <==> c !in s)
      && (i != -1 ==> 0 <= i < |s| && s[i] == c && c !in s[..i])
  {
    IndexFirst(s, [c]);
    var i := Index(s, [c]);
    var n := if i == -1 then |s| else i;
    forall k | 0 <= k < n ensures s[k] != c {
      assert !OccursAt(s, [c], k);
      assert s[k..k + 1] == [s[k]];
    }
    if i != -1 {
      assert s[i..i + 1] == [c];
      assert s[i] == s[i..i + 1][0];
      assert forall k :: 0 <= k < i ==> s[..i][k] == s[k];
    }
  }

  /** Index of a one-character pattern: the first position holding that character. */
  lemma IndexOfChar(s: string, c: char, i: int)
    requires 0 <= i < |s| && s[i] == c && c !in s[..i]
    ensures Index(s, [c]) == i
  {
    forall k | 0 <= k < i ensures !OccursAt(s, [c], k) {
      assert s[k] == s[..i][k];
      assert s[k..k + 1] == [s[k]];
    }
    assert s[i..i + 1] == [c];
    IndexIs(s, [c], i);
  }

  /** strings.Replace(s, pattern, replacement, 1) for a non-empty `pattern`. */
  function ReplaceFirst(s: string, pattern: string, replacement: string): string
    requires pattern != ""
  {
    var i := Index(s, pattern);
    if i == -1 then s else s[..i] + replacement + s[i + |pattern|..]
  }

  /** strings.Replace(s, string(c), "", -1): every occurrence of the character `c` removed. */
  function RemoveChar(s: string, c: char): (r: string)
    ensures |r| <= |s|
    ensures c !in r
  {
    if s == [] then []
    else (if s[0] == c then [] else [s[0]]) + RemoveChar(s[1..], c)
  }

  lemma {:induction false} RemoveCharConcat(a: string, b: string, c: char)
    ensures RemoveChar(a + b, c) == RemoveChar(a, c) + RemoveChar(b, c)
  {
    if a != [] {
      RemoveCharConcat(a[1..], b, c);
      assert (a + b)[1..] == a[1..] + b;
    } else {
      assert a + b == b;
    }
  }

  lemma {:induction false} RemoveCharAbsent(s: string, c: char)
    requires c !in s
    ensures RemoveChar(s, c) == s
  {
    if s != [] {
      RemoveCharAbsent(s[1..], c);
    }
  }

  // ---------------------------------------------------------------------------------------------
  // strings.ToLower, path.Ext

  /** Lower-casing of one character, on the ASCII letters. No non-ASCII character lower-cases
      to '.', 's', 'q' or 'l', so comparisons of a lower-cased string against ".sql" come out as
      with Go's full Unicode mapping. */
  function ToLowerChar(c: char): char {
    if 'A' <= c <= 'Z' then (c as int + 32) as char else c
  }

  function ToLower(s: string): (r: string)
    ensures |r| == |s|
    ensures forall i :: 0 <= i < |s| ==> r[i] == ToLowerChar(s[i])
  {
    if s == [] then [] else [ToLowerChar(s[0])] + ToLower(s[1..])
  }

  /** The element of `p` after its last '/' contains no '.'. */
  predicate NoDotInLastElement(p: string) {
    forall i :: 0 <= i < |p| && p[i] == '.' ==> '/' in p[i + 1..]
  }

  function ExtBefore(p: string, i: nat): (r: string)
    requires i <= |p|
    requires '.' !in p[i..] && '/' !in p[i..]
    decreases i
    ensures r == "" || (r[0] == '.' && |r| <= |p| && r == p[|p| - |r|..] && |p| - |r| < i)
    ensures r != "" ==> '.' !in r[1..] && '/' !in r[1..]
    ensures r == "" ==> forall j :: 0 <= j < i && p[j] == '.' ==> '/' in p[j + 1..]
  {
    if i == 0 then ""
    else if p[i - 1] == '/' then
      forall j | 0 <= j < i - 1 && p[j] == '.' ensures '/' in p[j + 1..] {
        assert p[j + 1..][i - 1 - (j + 1)] == p[i - 1];
      }
      ""
    else if p[i - 1] == '.' then
      var r := p[i - 1..];
      assert r[1..] == p[i..];
      r
    else
      assert p[i - 1..] == [p[i - 1]] + p[i..];
      ExtBefore(p, i - 1)
  }

  /** path.Ext: the suffix of `p` that starts at the final '.' of its last '/'-separated
      element, or "" when that element has no '.'. */
  function Ext(p: string): (r: string)
    ensures |r| <= |p|
    ensures r == "" || (r[0] == '.' && r == p[|p| - |r|..])
    ensures r != "" ==> '.' !in r[1..] && '/' !in r[1..]
    ensures r == "" <==> NoDotInLastElement(p)
  {
    var r := ExtBefore(p, |p|);
    assert r != "" ==> !NoDotInLastElement(p) by {
      if r != "" {
        var k := |p| - |r|;
        assert p[k] == '.';
        assert p[k + 1..] == r[1..];
      }
    }
    r
  }

  // ---------------------------------------------------------------------------------------------
  // Lexicographic order of Go strings

  /** Go's `<=` on strings. Go compares the UTF-8 bytes; UTF-8 preserves the order of scalar
      values, so comparing characters gives the same answer. */
  predicate LessEq(a: string, b: string) {
    a == [] || (b != [] && (a[0] < b[0] || (a[0] == b[0] && LessEq(a[1..], b[1..]))))
  }

  lemma {:induction false} LessEqReflexive(a: string)
    ensures LessEq(a, a)
  {
    if a != [] {
      LessEqReflexive(a[1..]);
    }
  }

  lemma {:induction false} LessEqTotal(a: string, b: string)
    ensures LessEq(a, b) || LessEq(b, a)
  {
    if a != [] && b != [] && a[0] == b[0] {
      LessEqTotal(a[1..], b[1..]);
    }
  }

  lemma {:induction false} LessEqTransitive(a: string, b: string, c: string)
    requires LessEq(a, b) && LessEq(b, c)
    ensures LessEq(a, c)
  {
    if a != [] && b != [] && c != [] && a[0] == b[0] && b[0] == c[0] {
      LessEqTransitive(a[1..], b[1..], c[1..]);
    }
  }

  lemma {:induction false} LessEqAntisymmetric(a: string, b: string)
    requires LessEq(a, b) && LessEq(b, a)
    ensures a == b
  {
    if a != [] && b != [] {
      LessEqAntisymmetric(a[1..], b[1..]);
      assert a == [a[0]] + a[1..] && b == [b[0]] + b[1..];
    }
  }

  // ---------------------------------------------------------------------------------------------
  // UTF-8: the conversion []byte(s)

  /** The UTF-8 encoding of one scalar value. */
  function EncodeRune(c: char): (bs: Bytes)
    ensures 1 <= |bs| <= 4
    ensures |bs| == LeadLength(bs[0])
  {
    var v := c as int;
    if v < 0x80 then [v]
    else if v < 0x800 then [0xC0 + v / 64, 0x80 + v % 64]
    else if v < 0x10000 then [0xE0 + v / 64 / 64, 0x80 + v / 64 % 64, 0x80 + v % 64]
    else [0xF0 + v / 64 / 64 / 64, 0x80 + v / 64 / 64 % 64, 0x80 + v / 64 % 64, 0x80 + v % 64]
  }

  /** The length of a UTF-8 sequence as its first byte announces it. */
  function LeadLength(b: byte): nat {
    if b < 0x80 then 1 else if b < 0xE0 then 2 else if b < 0xF0 then 3 else 4
  }

  /** The scalar value a well-formed UTF-8 sequence of one to four bytes stands for. */
  function DecodeRune(bs: Bytes): int
    requires 1 <= |bs| <= 4
  {
    var b: seq<int> := bs;
    if |b| == 1 then b[0]
    else if |b| == 2 then (b[0] - 0xC0) * 64 + (b[1] - 0x80)
    else if |b| == 3 then ((b[0] - 0xE0) * 64 + (b[1] - 0x80)) * 64 + (b[2] - 0x80)
    else (((b[0] - 0xF0) * 64 + (b[1] - 0x80)) * 64 + (b[2] - 0x80)) * 64 + (b[3] - 0x80)
  }

  /** []byte(s): the UTF-8 encoding of a string. */
  function Utf8(s: string): (bs: Bytes)
    ensures |bs| >= |s|
  {
    if s == [] then [] else EncodeRune(s[0]) + Utf8(s[1..])
  }

  lemma DivMod64(x: int)
    requires x >= 0
    ensures x == x / 64 * 64 + x % 64
  {
  }

  lemma {:induction false} DecodeEncodeRune(c: char)
    ensures DecodeRune(EncodeRune(c)) == c as int
  {
    var v := c as int;
    DivMod64(v);
    DivMod64(v / 64);
    DivMod64(v / 64 / 64);
  }

  lemma EncodeRuneInjective(a: char, b: char)
    requires EncodeRune(a) == EncodeRune(b)
    ensures a == b
  {
    DecodeEncodeRune(a);
    DecodeEncodeRune(b);
  }

  /** UTF-8 is a prefix code: an encoded character is recognised at the front of any text. */
  lemma EncodeRunePrefix(a: char, b: char, x: Bytes, y: Bytes)
    requires EncodeRune(a) + x == EncodeRune(b) + y
    ensures a == b && x == y
  {
    var ea, eb := EncodeRune(a), EncodeRune(b);
    assert ea[0] == (ea + x)[0] == (eb + y)[0] == eb[0];
    assert |ea| == |eb|;
    assert ea == (ea + x)[..|ea|] == (eb + y)[..|eb|] == eb;
    EncodeRuneInjective(a, b);
    assert x == (ea + x)[|ea|..] == (eb + y)[|eb|..] == y;
  }

  /** Distinct strings have distinct UTF-8 encodings. */
  lemma {:induction false} Utf8Injective(s: string, t: string)
    ensures Utf8(s) == Utf8(t) ==> s == t
  {
    if Utf8(s) != Utf8(t) {
    } else if s == [] || t == [] {
      assert |Utf8(s)| == 0 || |Utf8(t)| == 0;
    } else {
      EncodeRunePrefix(s[0], t[0], Utf8(s[1..]), Utf8(t[1..]));
      Utf8Injective(s[1..], t[1..]);
      assert s == [s[0]] + s[1..] && t == [t[0]] + t[1..];
    }
  }
}
