/**
 * The parts of .NET's string library that the account switcher relies on,
 * restated over Dafny strings (sequences of Unicode scalar values).
 *
 *  - `char.IsWhiteSpace`, `string.IsNullOrWhiteSpace`, `Trim`;
 *  - `Split(char)`, `Split(string[], StringSplitOptions.None)` for the
 *    `"----"` separator and for the three line breaks;
 *  - `StartsWith`, `EndsWith`, `Contains`, `IndexOf`, all compared character
 *    by character. `Contains` is ordinal in .NET, but the `StartsWith` and
 *    `EndsWith` overloads without a `StringComparison` are culture-sensitive
 *    and skip ignorable characters such as the soft hyphen U+00AD; the
 *    ordinal comparison here does not skip them;
 *  - `string.Length` (UTF-16 code units) and `Encoding.UTF8.GetBytes`.
 */
module TextUtil {
  import opened Wrappers
  import opened Bits

  /** `char.IsWhiteSpace`: the characters of the Unicode White_Space property. */
  predicate IsWhiteSpace(c: char) {
    || ('\t' <= c <= '\r')
    || c == ' '
    || c == '\U{85}'
    || c == '\U{A0}'
    || c == '\U{1680}'
    || ('\U{2000}' <= c <= '\U{200A}')
    || c == '\U{2028}'
    || c == '\U{2029}'
    || c == '\U{202F}'
    || c == '\U{205F}'
    || c == '\U{3000}'
  }

  /** `string.IsNullOrWhiteSpace` on a non-null string. */
  predicate IsBlank(s: string) {
    forall i | 0 <= i < |s| :: IsWhiteSpace(s[i])
  }

  /** Removes leading white space. */
  function TrimStart(s: string): (r: string)
    ensures |r| <= |s| && r == s[|s| - |r|..]
    ensures forall i | 0 <= i < |s| - |r| :: IsWhiteSpace(s[i])
    ensures r == [] || !IsWhiteSpace(r[0])
    decreases |s|
  {
    if s != [] && IsWhiteSpace(s[0]) then TrimStart(s[1..]) else s
  }

  /** Removes trailing white space. */
  function TrimEnd(s: string): (r: string)
    ensures |r| <= |s| && r == s[..|r|]
    ensures forall i | |r| <= i < |s| :: IsWhiteSpace(s[i])
    ensures r == [] || !IsWhiteSpace(r[|r| - 1])
    decreases |s|
  {
    if s != [] && IsWhiteSpace(s[|s| - 1]) then TrimEnd(s[..|s| - 1]) else s
  }

  /** `string.Trim()`: removes white space at both ends. */
  function Trim(s: string): (r: string)
    ensures r == [] || (!IsWhiteSpace(r[0]) && !IsWhiteSpace(r[|r| - 1]))
    ensures r == [] <==> IsBlank(s)
  {
    TrimEnd(TrimStart(s))
  }

  /** A string with no white space at either end is its own trimmed form. */
  lemma TrimmedIsFixed(s: string)
    requires s == [] || (!IsWhiteSpace(s[0]) && !IsWhiteSpace(s[|s| - 1]))
    ensures Trim(s) == s
  {
  }

  /** `s.TrimStart(c)`: removes every leading occurrence of `c`. */
  function TrimStartChar(s: string, c: char): (r: string)
    ensures |r| <= |s| && r == s[|s| - |r|..]
    ensures forall i | 0 <= i < |s| - |r| :: s[i] == c
    ensures r == [] || r[0] != c
    decreases |s|
  {
    if s != [] && s[0] == c then TrimStartChar(s[1..], c) else s
  }

  /** Lower-cases the ASCII letters `'A'..'Z'` and leaves every other
      character alone. */
  function ToLowerAscii(c: char): (r: char)
    ensures 'A' <= c <= 'Z' ==> r as int == c as int + 32
    ensures !('A' <= c <= 'Z') ==> r == c
  {
    if 'A' <= c <= 'Z' then (c as int + 32) as char else c
  }

  /** Lower-cases the ASCII letters of a string. */
  function LowerAscii(s: string): (r: string)
    ensures |r| == |s|
    ensures forall i | 0 <= i < |s| :: r[i] == ToLowerAscii(s[i])
  {
    seq(|s|, i requires 0 <= i < |s| => ToLowerAscii(s[i]))
  }

  /** `string.Equals(a, b, StringComparison.OrdinalIgnoreCase)` for the ASCII
      range: equal after lower-casing ASCII letters. */
  predicate EqualsIgnoreCaseAscii(a: string, b: string) {
    |a| == |b| && forall i | 0 <= i < |a| :: ToLowerAscii(a[i]) == ToLowerAscii(b[i])
  }

  /** `s.Replace(c.ToString(), "")`: every occurrence of `c` removed. */
  function RemoveChar(s: string, c: char): (r: string)
    ensures c !in r
    ensures |r| <= |s|
  {
    if s == [] then []
    else (if s[0] == c then [] else [s[0]]) + RemoveChar(s[1..], c)
  }

  /** A string without `c` is unchanged by removing `c`. */
  lemma {:induction false} RemoveAbsentChar(s: string, c: char)
    requires c !in s
    ensures RemoveChar(s, c) == s
  {
    if s != [] {
      RemoveAbsentChar(s[1..], c);
    }
  }

  lemma {:induction false} RemoveCharAppend(a: string, b: string, c: char)
    ensures RemoveChar(a + b, c) == RemoveChar(a, c) + RemoveChar(b, c)
  {
    if a != [] {
      assert (a + b)[1..] == a[1..] + b;
      RemoveCharAppend(a[1..], b, c);
    } else {
      assert a + b == b;
    }
  }

  /** The first position of `c` in `s`. */
  function IndexOfChar(s: string, c: char): (i: nat)
    requires c in s
    ensures i < |s| && s[i] == c && c !in s[..i]
  {
    if s[0] == c then 0 else
      var i := IndexOfChar(s[1..], c);
      assert s[..i + 1] == [s[0]] + s[1..][..i];
      i + 1
  }

  /** `s.Split(c)`: the pieces between consecutive occurrences of `c`. */
  function Split(s: string, c: char): (parts: seq<string>)
    ensures |parts| == multiset(s)[c] + 1
    ensures forall k | 0 <= k < |parts| :: c !in parts[k]
    decreases |s|
  {
    if c in s then
      var i := IndexOfChar(s, c);
      var rest := Split(s[i + 1..], c);
      assert s == s[..i] + [c] + s[i + 1..];
      assert multiset(s) == multiset(s[..i]) + multiset{c} + multiset(s[i + 1..]);
      assert multiset(s[..i])[c] == 0;
      [s[..i]] + rest
    else
      assert multiset(s)[c] == 0;
      [s]
  }

  /** `string.Join(sep, parts)`. */
  function Join(parts: seq<string>, sep: string): string
  {
    if |parts| == 0 then []
    else if |parts| == 1 then parts[0]
    else parts[0] + sep + Join(parts[1..], sep)
  }

  /** Splitting on a character and joining with it again gives back the string. */
  lemma {:induction false} JoinSplit(s: string, c: char)
    ensures Join(Split(s, c), [c]) == s
    decreases |s|
  {
    if c in s {
      var i := IndexOfChar(s, c);
      JoinSplit(s[i + 1..], c);
      assert s == s[..i] + [c] + s[i + 1..];
    }
  }

  /** `s.StartsWith(p)`, compared character by character. */
  predicate StartsWith(s: string, p: string) {
    |p| <= |s| && s[..|p|] == p
  }

  /** `s.EndsWith(p)`, compared character by character. */
  predicate EndsWith(s: string, p: string) {
    |p| <= |s| && s[|s| - |p|..] == p
  }

  /** `s.Contains(p)` (ordinal). */
  predicate Contains(s: string, p: string) {
    exists i | 0 <= i <= |s| :: StartsWith(s[i..], p)
  }

  /** `s.IndexOf(p, StringComparison.Ordinal)`, `None` for -1. */
  function Find(s: string, p: string): (r: Option<nat>)
    ensures r.Some? ==> r.value + |p| <= |s|
    decreases |s|
  {
    if StartsWith(s, p) then Some(0)
    else if s == [] then None
    else match Find(s[1..], p)
      case None => None
      case Some(i) => Some(i + 1)
  }

  /** `Find` reports the first occurrence, and `None` only when there is none. */
  lemma {:induction false} FindCorrect(s: string, p: string)
    ensures var r := Find(s, p);
      && (r.Some? ==> StartsWith(s[r.value..], p))
      && (r.Some? ==> forall j | 0 <= j < r.value :: !StartsWith(s[j..], p))
      && (r.None? <==> !Contains(s, p))
    decreases |s|
  {
    if StartsWith(s, p) {
      assert s[0..] == s;
    } else if s != [] {
      FindCorrect(s[1..], p);
      assert forall j | 1 <= j <= |s| :: s[j..] == s[1..][j - 1..];
      assert s[0..] == s;
    }
  }

  /** `s.Split(new[] { sep }, StringSplitOptions.None)`: cuts at each
      occurrence of `sep`, scanning left to right. */
  function SplitOn(s: string, sep: string): (parts: seq<string>)
    requires sep != []
    ensures |parts| >= 1
    decreases |s|
  {
    match Find(s, sep)
    case None => [s]
    case Some(i) => [s[..i]] + SplitOn(s[i + |sep|..], sep)
  }

  /** There is more than one part exactly when `sep` occurs. The first part
      is the text before the first occurrence. */
  lemma SplitOnFirst(s: string, sep: string)
    requires sep != []
    ensures |SplitOn(s, sep)| >= 2 <==> Contains(s, sep)
    ensures Contains(s, sep) ==> SplitOn(s, sep)[0] == s[..Find(s, sep).value]
    ensures !Contains(SplitOn(s, sep)[0], sep)
  {
    FindCorrect(s, sep);
    match Find(s, sep)
    case None =>
    case Some(i) => NoneBeforeFirst(s, sep, i);
  }

  /** The text before the first occurrence of `sep` does not hold `sep`. */
  lemma NoneBeforeFirst(s: string, sep: string, i: nat)
    requires sep != [] && i <= |s| && forall j | 0 <= j < i :: !StartsWith(s[j..], sep)
    ensures !Contains(s[..i], sep)
  {
    var a := s[..i];
    forall j | 0 <= j <= i ensures !StartsWith(a[j..], sep) {
      if j + |sep| <= i {
        assert !StartsWith(s[j..], sep);
        assert a[j..][..|sep|] == s[j..j + |sep|];
        assert s[j..][..|sep|] == s[j..j + |sep|];
      }
    }
  }

  /** Splitting on a separator and joining with it again gives back the string. */
  lemma {:induction false} JoinSplitOn(s: string, sep: string)
    requires sep != []
    ensures Join(SplitOn(s, sep), sep) == s
    decreases |s|
  {
    match Find(s, sep)
    case None =>
    case Some(i) =>
      var k := i + |sep|;
      var rest := s[k..];
      assert s == s[..i] + sep + rest by {
        FindCorrect(s, sep);
        CutAround(s, sep, i);
      }
      var parts := SplitOn(rest, sep);
      assert SplitOn(s, sep) == [s[..i]] + parts;
      assert ([s[..i]] + parts)[1..] == parts;
      JoinSplitOn(rest, sep);
  }

  /** A text is what lies before an occurrence of `p` at `i`, then `p`, then
      what follows. */
  lemma CutAround(s: string, p: string, i: nat)
    requires i <= |s| && StartsWith(s[i..], p)
    ensures s == s[..i] + p + s[i + |p|..]
  {
    var k := i + |p|;
    assert s[i..k] == p by {
      assert s[i..][..|p|] == s[i..k];
    }
    assert s[..k] == s[..i] + s[i..k];
    assert s == s[..k] + s[k..];
  }

  /** `a + sep + b` splits at the joint when `a` and `b` hold no `sep` and
      no occurrence of `sep` straddles the end of `a`. */
  lemma SplitOnPair(a: string, sep: string, b: string)
    requires sep != []
    requires forall j | 0 <= j < |a| :: !StartsWith((a + sep)[j..], sep)
    requires !Contains(b, sep)
    ensures SplitOn(a + sep + b, sep) == [a, b]
  {
    var s := a + sep + b;
    assert StartsWith(s[|a|..], sep) by { assert s[|a|..][..|sep|] == sep; }
    forall j | 0 <= j < |a| ensures !StartsWith(s[j..], sep) {
      assert !StartsWith((a + sep)[j..], sep);
      assert (a + sep)[j..][..|sep|] == s[j..][..|sep|];
    }
    FindAt(s, sep, |a|);
    assert s[..|a|] == a;
    assert s[|a| + |sep|..] == b;
    FindCorrect(b, sep);
    assert SplitOn(b, sep) == [b];
  }

  /** `Find` reports the first occurrence. */
  lemma FindAt(s: string, p: string, i: nat)
    requires i <= |s| && StartsWith(s[i..], p)
    requires forall j | 0 <= j < i :: !StartsWith(s[j..], p)
    ensures Find(s, p) == Some(i)
    decreases i
  {
    if i > 0 {
      assert !StartsWith(s[0..], p);
      assert s[0..] == s;
      forall j | 0 <= j < i - 1 ensures !StartsWith(s[1..][j..], p) {
        assert s[1..][j..] == s[j + 1..];
      }
      assert s[1..][i - 1..] == s[i..];
      FindAt(s[1..], p, i - 1);
    } else {
      assert s[0..] == s;
    }
  }

  /** `'\r'` or `'\n'`. */
  predicate IsLineBreak(c: char) {
    c == '\r' || c == '\n'
  }

  predicate HasNoLineBreak(s: string) {
    forall i | 0 <= i < |s| :: !IsLineBreak(s[i])
  }

  /** The first position of `'\r'` or `'\n'`. */
  function FirstLineBreak(s: string): (r: Option<nat>)
    ensures r.Some? ==> r.value < |s| && IsLineBreak(s[r.value]) && HasNoLineBreak(s[..r.value])
    ensures r.None? ==> HasNoLineBreak(s)
  {
    if s == [] then None
    else if IsLineBreak(s[0]) then Some(0)
    else match FirstLineBreak(s[1..])
      case None => None
      case Some(i) =>
        assert s[..i + 1] == [s[0]] + s[1..][..i];
        Some(i + 1)
  }

  /** `s.Split(new[] { "\r\n", "\r", "\n" }, StringSplitOptions.None)`:
      `"\r\n"` is tried first, so it is one break; empty lines are kept. */
  function SplitLines(s: string): (lines: seq<string>)
    ensures |lines| >= 1
    ensures forall k | 0 <= k < |lines| :: HasNoLineBreak(lines[k])
    decreases |s|
  {
    match FirstLineBreak(s)
    case None => [s]
    case Some(i) =>
      var width := if s[i] == '\r' && i + 1 < |s| && s[i + 1] == '\n' then 2 else 1;
      [s[..i]] + SplitLines(s[i + width..])
  }

  /** `"\r\n"`, the value of `Environment.NewLine` on the platform the tool runs on. */
  const NewLine: string := "\r\n"

  /** A line followed by a CR LF pair splits off as one line. */
  lemma SplitLinesCrLf(line: string, rest: string)
    requires HasNoLineBreak(line)
    ensures SplitLines(line + NewLine + rest) == [line] + SplitLines(rest)
  {
    var s := line + NewLine + rest;
    assert HasNoLineBreak(s[..|line|]) by { assert s[..|line|] == line; }
    FirstBreakAt(s, |line|);
    assert s[..|line|] == line;
    assert s[|line| + 2..] == rest;
  }

  lemma FirstBreakAt(s: string, i: nat)
    requires i < |s| && IsLineBreak(s[i]) && HasNoLineBreak(s[..i])
    ensures FirstLineBreak(s) == Some(i)
    decreases i
  {
    if i > 0 {
      assert s[1..][..i - 1] == s[..i][1..];
      FirstBreakAt(s[1..], i - 1);
    }
  }

  /** `string.Length`: the number of UTF-16 code units, two for a character
      outside the Basic Multilingual Plane. */
  function Utf16Length(s: string): (n: nat)
    ensures |s| <= n <= 2 * |s|
  {
    if s == [] then 0
    else Utf16Length(s[..|s| - 1]) + (if s[|s| - 1] as int < 0x10000 then 1 else 2)
  }

  lemma {:induction false} Utf16LengthAppend(a: string, b: string)
    ensures Utf16Length(a + b) == Utf16Length(a) + Utf16Length(b)
    decreases |b|
  {
    if b != [] {
      Utf16LengthAppend(a, b[..|b| - 1]);
      assert (a + b)[..|a + b| - 1] == a + b[..|b| - 1];
    } else {
      assert a + b == a;
    }
  }

  /** The UTF-8 encoding of one character. */
  function Utf8Char(c: char): (bytes: seq<byte>)
    ensures 1 <= |bytes| <= 4
    ensures |bytes| == 1 <==> c as int < 0x80
    ensures c as int < 0x80 ==> bytes[0] == c as int
  {
    var cp := c as int;
    if cp < 0x80 then [cp]
    else if cp < 0x800 then [0xC0 + cp / 0x40, 0x80 + cp % 0x40]
    else if cp < 0x1_0000 then
      [0xE0 + cp / 0x1000, 0x80 + cp / 0x40 % 0x40, 0x80 + cp % 0x40]
    else
      [0xF0 + cp / 0x4_0000, 0x80 + cp / 0x1000 % 0x40, 0x80 + cp / 0x40 % 0x40, 0x80 + cp % 0x40]
  }

  /** `Encoding.UTF8.GetBytes(s)`. */
  function Utf8Encode(s: string): (bytes: seq<byte>)
    ensures |s| <= |bytes| <= 4 * |s|
  {
    if s == [] then [] else Utf8Encode(s[..|s| - 1]) + Utf8Char(s[|s| - 1])
  }

  predicate IsAscii(s: string) {
    forall i | 0 <= i < |s| :: s[i] as int < 0x80
  }

  /** An ASCII string encodes to one byte per character, each the character's code. */
  lemma {:induction false} Utf8OfAscii(s: string)
    requires IsAscii(s)
    ensures |Utf8Encode(s)| == |s|
    ensures forall i | 0 <= i < |s| :: Utf8Encode(s)[i] == s[i] as int
    decreases |s|
  {
    if s != [] {
      Utf8OfAscii(s[..|s| - 1]);
    }
  }
}
