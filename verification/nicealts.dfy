/**
 * `NiceAltsApiHelper.ParseSteamAccountFromResponse`: pulls one
 * `username----token` line out of the text the account shop returns.
 *
 * The response is cut into lines; each line is searched, in order, for a
 * Steam token (three `ey…` segments joined by dots). With a token, the
 * username is the local part of the first e-mail address on the line, or
 * else the word in front of a `token` label. Without either, a line that
 * already reads `username----ey….….…` is taken as it stands. The first line
 * that yields a result wins.
 *
 * The three regular expressions are modelled by what a leftmost,
 * backtracking match of each particular pattern returns: `TokenAt`,
 * `EmailAt` and `UserAt` compute the match that starts at one position, and
 * `Leftmost` tries the positions from left to right as `Regex.Match` does.
 * Each of them is proved equal to a declarative reading of its pattern
 * (`IsTokenText`, `IsEmailText`, `UserMatchAt`).
 */
module NiceAlts {
  import opened Wrappers
  import opened TextUtil

  /** The separator between username and token in an account line. */
  const Separator: string := "----"

  // ---------------------------------------------------------------------
  // Lines of the response
  // ---------------------------------------------------------------------

  /** `accountData.Split(new[] { '\n', '\r' }, StringSplitOptions.RemoveEmptyEntries)`:
      the maximal stretches without a line break, empty ones dropped. */
  function ResponseLines(s: string): (lines: seq<string>)
    ensures forall k | 0 <= k < |lines| :: lines[k] != [] && HasNoLineBreak(lines[k])
    decreases |s|
  {
    match FirstLineBreak(s)
    case None => if s == [] then [] else [s]
    case Some(i) => (if i == 0 then [] else [s[..i]]) + ResponseLines(s[i + 1..])
  }

  /** The first line break is the one at `i` when there is none before it. */
  lemma FirstLineBreakIs(s: string, i: nat)
    requires i < |s| && IsLineBreak(s[i]) && HasNoLineBreak(s[..i])
    ensures FirstLineBreak(s) == Some(i)
  {
    assert !HasNoLineBreak(s);
    assert forall k | 0 <= k < i :: s[..i][k] == s[k];
    assert forall j | i < j <= |s| :: s[..j][i] == s[i];
  }

  /** A non-empty text without a line break is one line. */
  lemma ResponseLinesOfLine(s: string)
    requires s != [] && HasNoLineBreak(s)
    ensures ResponseLines(s) == [s]
  {
  }

  /** The lines of a text are those before its first line break, then
      those after it. */
  lemma ResponseLinesAtFirstBreak(s: string, i: nat)
    requires FirstLineBreak(s) == Some(i)
    ensures ResponseLines(s) == (if i == 0 then [] else [s[..i]]) + ResponseLines(s[i + 1..])
  {
  }

  /** A break right after a text without breaks ends that text's one line. */
  lemma ResponseLinesAfterLine(a: string, c: char, b: string)
    requires IsLineBreak(c) && HasNoLineBreak(a)
    ensures ResponseLines(a + [c] + b) == ResponseLines(a) + ResponseLines(b)
  {
    var s := a + [c] + b;
    assert s[..|a|] == a;
    assert s[|a| + 1..] == b;
    FirstLineBreakIs(s, |a|);
    ResponseLinesAtFirstBreak(s, |a|);
    if a != [] {
      ResponseLinesOfLine(a);
    }
  }

  /** A line break cuts the response in two independent halves: whatever
      comes before and after it, and however many breaks follow in a row,
      no line spans it and no empty line appears. */
  lemma {:induction false} ResponseLinesAtBreak(a: string, c: char, b: string)
    requires IsLineBreak(c)
    ensures ResponseLines(a + [c] + b) == ResponseLines(a) + ResponseLines(b)
    decreases |a|
  {
    match FirstLineBreak(a)
    case None => ResponseLinesAfterLine(a, c, b);
    case Some(i) =>
      var s := a + [c] + b;
      assert s[..i] == a[..i];
      assert s[i + 1..] == a[i + 1..] + [c] + b;
      FirstLineBreakIs(s, i);
      var head := if i == 0 then [] else [a[..i]];
      calc {
        ResponseLines(s);
      == { ResponseLinesAtFirstBreak(s, i); }
        head + ResponseLines(a[i + 1..] + [c] + b);
      == { ResponseLinesAtBreak(a[i + 1..], c, b); }
        head + (ResponseLines(a[i + 1..]) + ResponseLines(b));
      ==
        (head + ResponseLines(a[i + 1..])) + ResponseLines(b);
      == { ResponseLinesAtFirstBreak(a, i); }
        ResponseLines(a) + ResponseLines(b);
      }
  }

  // ---------------------------------------------------------------------
  // Character classes and runs
  // ---------------------------------------------------------------------

  predicate IsAsciiLetter(c: char) {
    ('A' <= c <= 'Z') || ('a' <= c <= 'z')
  }

  predicate IsDigit(c: char) {
    '0' <= c <= '9'
  }

  /** `[A-Za-z0-9\-_]`, the characters of a token segment. */
  predicate IsTokenChar(c: char) {
    IsAsciiLetter(c) || IsDigit(c) || c == '-' || c == '_'
  }

  /** `[a-zA-Z0-9._%+-]`, the characters of an e-mail local part. */
  predicate IsLocalChar(c: char) {
    IsAsciiLetter(c) || IsDigit(c) || c == '.' || c == '_' || c == '%' || c == '+' || c == '-'
  }

  /** `[a-zA-Z0-9.-]`, the characters of an e-mail domain. */
  predicate IsDomainChar(c: char) {
    IsAsciiLetter(c) || IsDigit(c) || c == '.' || c == '-'
  }

  /** `[a-zA-Z0-9_]`, the characters of a username. */
  predicate IsWordChar(c: char) {
    IsAsciiLetter(c) || IsDigit(c) || c == '_'
  }

  /** `[:\s]`, what may stand between a username and the rest of its line. */
  predicate IsLabelSeparator(c: char) {
    c == ':' || IsWhiteSpace(c)
  }

  /** The length of the longest run of `cls` characters starting at `i`:
      what a greedy `[…]+` consumes before it has to give anything back. */
  function Run(s: string, i: nat, cls: char -> bool): (n: nat)
    requires i <= |s|
    ensures i + n <= |s|
    ensures forall k | i <= k < i + n :: cls(s[k])
    ensures i + n == |s| || !cls(s[i + n])
    decreases |s| - i
  {
    if i < |s| && cls(s[i]) then 1 + Run(s, i + 1, cls) else 0
  }

  /** The run from `i` is exactly `n` long when `n` class characters are
      followed by the end or by a character outside the class. */
  lemma RunIs(s: string, i: nat, cls: char -> bool, n: nat)
    requires i + n <= |s|
    requires forall k | i <= k < i + n :: cls(s[k])
    requires i + n == |s| || !cls(s[i + n])
    ensures Run(s, i, cls) == n
  {
  }

  /** `Regex.Match` tries the start positions from left to right and takes
      the first one where the pattern matches. `at(p)` is the end of the
      match that starts at `p`, if any. */
  function Leftmost(s: string, p: nat, at: nat -> Option<nat>): (r: Option<(nat, nat)>)
    requires p <= |s|
    ensures r.Some? ==> p <= r.value.0 <= |s| && at(r.value.0) == Some(r.value.1)
    ensures r.Some? ==> forall q | p <= q < r.value.0 :: at(q).None?
    ensures r.None? ==> forall q | p <= q <= |s| :: at(q).None?
    decreases |s| - p
  {
    match at(p)
    case Some(e) => Some((p, e))
    case None => if p == |s| then None else Leftmost(s, p + 1, at)
  }

  // ---------------------------------------------------------------------
  // The token pattern (ey[A-Za-z0-9\-_]+\.ey[A-Za-z0-9\-_]+\.ey[A-Za-z0-9\-_]+)
  // ---------------------------------------------------------------------

  /** One segment `ey[A-Za-z0-9\-_]+`. */
  predicate IsSegment(w: string) {
    |w| >= 3 && w[0] == 'e' && w[1] == 'y' && forall k | 0 <= k < |w| :: IsTokenChar(w[k])
  }

  /** Token text read with its two dots at `i` and `j`. */
  ghost predicate TokenSplitAt(t: string, i: nat, j: nat) {
    && 0 < i < j < |t| && t[i] == '.' && t[j] == '.'
    && IsSegment(t[..i]) && IsSegment(t[i + 1..j]) && IsSegment(t[j + 1..])
  }

  /** The text of a token: three segments joined by dots. */
  ghost predicate IsTokenText(t: string) {
    exists i, j :: TokenSplitAt(t, i, j)
  }

  /** The end of the segment starting at `i`. The class holds no dot, so
      the greedy run can only be followed by the dot if it is not cut short:
      the segment is the whole run. */
  function SegmentEnd(s: string, i: nat): (r: Option<nat>)
    requires i <= |s|
    ensures r.Some? ==> i < r.value <= |s| && IsSegment(s[i..r.value])
    ensures r.Some? ==> r.value == |s| || !IsTokenChar(s[r.value])
  {
    var n := Run(s, i, IsTokenChar);
    if n >= 3 && s[i] == 'e' && s[i + 1] == 'y' then Some(i + n) else None
  }

  /** The end of the token match that starts at `p`, if one does. */
  function TokenAt(s: string, p: nat): (r: Option<nat>)
    ensures r.Some? ==> p < r.value <= |s|
  {
    if p > |s| then None
    else match SegmentEnd(s, p)
      case None => None
      case Some(e1) =>
        if e1 < |s| && s[e1] == '.' then
          match SegmentEnd(s, e1 + 1)
          case None => None
          case Some(e2) =>
            if e2 < |s| && s[e2] == '.' then SegmentEnd(s, e2 + 1) else None
        else None
  }

  /** What `TokenAt` finds is token text, and the last segment takes every
      token character that follows, as the greedy final `+` does. */
  lemma TokenAtSound(s: string, p: nat)
    requires TokenAt(s, p).Some?
    ensures var e := TokenAt(s, p).value;
      && IsTokenText(s[p..e])
      && (e == |s| || !IsTokenChar(s[e]))
  {
    var e1 := SegmentEnd(s, p).value;
    var e2 := SegmentEnd(s, e1 + 1).value;
    var e := SegmentEnd(s, e2 + 1).value;
    SegmentsMakeToken(s, p, e1, e2, e);
  }

  /** Three segments at `p`, with dots at `e1` and `e2` between them, are
      token text. */
  lemma SegmentsMakeToken(s: string, p: nat, e1: nat, e2: nat, e: nat)
    requires p < e1 < e2 < e <= |s| && s[e1] == '.' && s[e2] == '.'
    requires IsSegment(s[p..e1]) && IsSegment(s[e1 + 1..e2]) && IsSegment(s[e2 + 1..e])
    ensures IsTokenText(s[p..e])
  {
    var t := s[p..e];
    var i, j := e1 - p, e2 - p;
    assert t[..i] == s[p..e1];
    assert t[i + 1..j] == s[e1 + 1..e2] by {
      var mid, seg := t[i + 1..j], s[e1 + 1..e2];
      forall k | 0 <= k < |mid| ensures mid[k] == seg[k] {
        assert t[i + 1 + k] == s[e1 + 1 + k];
      }
    }
    assert t[j + 1..] == s[e2 + 1..e];
    assert t[i] == s[e1] && t[j] == s[e2];
    assert TokenSplitAt(t, i, j);
  }

  /** A segment written at `i` is found there, and when a dot follows it the
      match ends exactly at that dot. */
  lemma SegmentEndAt(s: string, i: nat, w: string)
    requires i + |w| <= |s| && IsSegment(w)
    requires forall k | 0 <= k < |w| :: s[i + k] == w[k]
    ensures SegmentEnd(s, i).Some? && SegmentEnd(s, i).value >= i + |w|
    ensures i + |w| < |s| && s[i + |w|] == '.' ==> SegmentEnd(s, i) == Some(i + |w|)
  {
    assert forall k | i <= k < i + |w| :: s[k] == w[k - i];
    if i + |w| < |s| && s[i + |w|] == '.' {
      RunIs(s, i, IsTokenChar, |w|);
    }
  }

  /** Any token text at `p` is matched from `p`, and the match reaches at
      least as far: `TokenAt` is the longest match at `p`. */
  lemma TokenAtLongest(s: string, p: nat, e: nat)
    requires p <= e <= |s| && IsTokenText(s[p..e])
    ensures TokenAt(s, p).Some? && e <= TokenAt(s, p).value
  {
    var i: nat, j: nat :| TokenSplitAt(s[p..e], i, j);
    TokenAtSplit(s, p, e, i, j);
  }

  /** `TokenAtLongest` for the token text read with its dots at `i` and `j`. */
  lemma TokenAtSplit(s: string, p: nat, e: nat, i: nat, j: nat)
    requires p <= e <= |s| && TokenSplitAt(s[p..e], i, j)
    ensures TokenAt(s, p).Some? && e <= TokenAt(s, p).value
  {
    SegmentsFound(s, p, e, i, j);
    TokenAtChain(s, p, p + i, p + j);
  }

  /** The segments of token text at `p` are found one after the other. */
  lemma SegmentsFound(s: string, p: nat, e: nat, i: nat, j: nat)
    requires p <= e <= |s| && TokenSplitAt(s[p..e], i, j)
    ensures SegmentEnd(s, p) == Some(p + i) && s[p + i] == '.'
    ensures SegmentEnd(s, p + i + 1) == Some(p + j) && s[p + j] == '.'
    ensures SegmentEnd(s, p + j + 1).Some? && SegmentEnd(s, p + j + 1).value >= e
  {
    var t := s[p..e];
    assert t[i] == s[p + i] && t[j] == s[p + j];
    assert t[..i] == t[0..i] && t[j + 1..] == t[j + 1..e - p];
    SegmentInWindow(s, p, e, p, p + i);
    SegmentInWindow(s, p, e, p + i + 1, p + j);
    SegmentInWindow(s, p, e, p + j + 1, e);
  }

  /** `SegmentEndAt` for a segment `s[a..b]` read inside the window `s[p..e]`. */
  lemma SegmentInWindow(s: string, p: nat, e: nat, a: nat, b: nat)
    requires p <= a <= b <= e <= |s| && IsSegment(s[p..e][a - p..b - p])
    ensures SegmentEnd(s, a).Some? && SegmentEnd(s, a).value >= b
    ensures b < |s| && s[b] == '.' ==> SegmentEnd(s, a) == Some(b)
  {
    var w := s[p..e][a - p..b - p];
    assert forall k | 0 <= k < |w| :: s[a + k] == w[k];
    SegmentEndAt(s, a, w);
  }

  /** A match is three segments found one after the other, with the dots
      between them. */
  lemma TokenAtChain(s: string, p: nat, e1: nat, e2: nat)
    requires p <= |s| && SegmentEnd(s, p) == Some(e1) && e1 < |s| && s[e1] == '.'
    requires SegmentEnd(s, e1 + 1) == Some(e2) && e2 < |s| && s[e2] == '.'
    ensures TokenAt(s, p) == SegmentEnd(s, e2 + 1)
  {
  }

  /** Start and end of the token `Regex.Match` finds on a line. */
  function TokenMatch(line: string): (r: Option<(nat, nat)>)
    ensures r.Some? ==> TokenAt(line, r.value.0) == Some(r.value.1)
    ensures r.Some? ==> forall q | 0 <= q < r.value.0 :: TokenAt(line, q).None?
    ensures r.None? ==> forall q | 0 <= q <= |line| :: TokenAt(line, q).None?
  {
    var at := q => TokenAt(line, q);
    assert forall q :: at(q) == TokenAt(line, q);
    Leftmost(line, 0, at)
  }

  /** `tokenMatch.Groups[1].Value`, when the token pattern matches. */
  function FindToken(line: string): Option<string>
  {
    match TokenMatch(line)
    case None => None
    case Some((p, e)) => Some(line[p..e])
  }

  /** No token text starts before `p`. */
  ghost predicate NoTokenBefore(line: string, p: nat) {
    forall q, f | 0 <= q < p && q <= f <= |line| :: !IsTokenText(line[q..f])
  }

  /** A token found is token text. */
  lemma FindTokenIsToken(line: string)
    ensures FindToken(line).Some? ==> IsTokenText(FindToken(line).value)
  {
    if TokenMatch(line).Some? {
      TokenAtSound(line, TokenMatch(line).value.0);
    }
  }

  /** The token found is the leftmost token text of the line, and the
      longest one that starts there; none is found exactly when the line
      holds no token text at all. */
  lemma FindTokenLeftmostLongest(line: string)
    ensures TokenMatch(line).Some? ==>
      && FindToken(line) == Some(line[TokenMatch(line).value.0..TokenMatch(line).value.1])
      && NoTokenBefore(line, TokenMatch(line).value.0)
      && forall f | TokenMatch(line).value.1 < f <= |line| ::
           !IsTokenText(line[TokenMatch(line).value.0..f])
    ensures FindToken(line).None? <==>
      forall q, f | 0 <= q <= f <= |line| :: !IsTokenText(line[q..f])
  {
    forall q, f | 0 <= q <= f <= |line| && IsTokenText(line[q..f])
      ensures TokenAt(line, q).Some? && f <= TokenAt(line, q).value
    {
      TokenAtLongest(line, q, f);
    }
    if TokenMatch(line).Some? {
      var (p, e) := TokenMatch(line).value;
      TokenAtSound(line, p);
    }
  }

  // ---------------------------------------------------------------------
  // The e-mail pattern ([a-zA-Z0-9._%+-]+@[a-zA-Z0-9.-]+\.[a-zA-Z]{2,})
  // ---------------------------------------------------------------------

  /** `[a-zA-Z0-9.-]+\.[a-zA-Z]{2,}` read with the dot at `j`. */
  ghost predicate DomainSplitAt(d: string, j: nat) {
    && 1 <= j && j + 3 <= |d| && d[j] == '.'
    && (forall k | 0 <= k < j :: IsDomainChar(d[k]))
    && (forall k | j < k < |d| :: IsAsciiLetter(d[k]))
  }

  /** E-mail text read with its `@` at `a`: a non-empty local part before
      it and a domain after it. */
  ghost predicate EmailSplitAt(t: string, a: nat) {
    && 1 <= a < |t| && t[a] == '@'
    && (forall k | 0 <= k < a :: IsLocalChar(t[k]))
    && IsDomainText(t[a + 1..])
  }

  /** The text of an e-mail address. */
  ghost predicate IsEmailText(t: string) {
    exists a :: EmailSplitAt(t, a)
  }

  /** `[a-zA-Z0-9.-]+\.[a-zA-Z]{2,}` matches the whole of `d`. */
  ghost predicate IsDomainText(d: string) {
    exists j :: DomainSplitAt(d, j)
  }

  /** Whether a domain can be matched from `i`: within the run of domain
      characters there, a dot after the first character with two letters
      after it (the greedy `+` gives characters back until it finds one). */
  predicate DomainAt(s: string, i: nat)
    requires i <= |s|
  {
    exists j | i < j < |s| :: DomainDotAt(s, i, j)
  }

  /** The dot at `j` lies in the run of domain characters from `i`, after
      its first character, and two letters follow it. */
  predicate DomainDotAt(s: string, i: nat, j: nat)
    requires i <= |s|
  {
    && i < j && j + 2 < |s| && s[j] == '.'
    && IsAsciiLetter(s[j + 1]) && IsAsciiLetter(s[j + 2])
    && j < i + Run(s, i, IsDomainChar)
  }

  /** Where the `@` of the e-mail match that starts at `p` is, if one does:
      the local part is the whole run of local characters from `p`, since
      `@` is outside that class. */
  function EmailAt(s: string, p: nat): (r: Option<nat>)
    ensures r.Some? ==> p < r.value < |s| && s[r.value] == '@'
    ensures r.Some? ==> forall k | p <= k < r.value :: IsLocalChar(s[k])
  {
    if p > |s| then None
    else
      var a := p + Run(s, p, IsLocalChar);
      if p < a < |s| && s[a] == '@' && DomainAt(s, a + 1) then Some(a) else None
  }

  /** The first `@` of a text whose earlier characters are all local ones. */
  lemma FirstAt(t: string, a: nat)
    requires a < |t| && t[a] == '@' && forall k | 0 <= k < a :: IsLocalChar(t[k])
    ensures '@' in t && IndexOfChar(t, '@') == a
  {
    assert forall j | a < j <= |t| :: t[..j][a] == '@';
  }

  /** Some e-mail address starts at `p` and has its first `@` at `a`. */
  ghost predicate EmailFoundAt(s: string, p: nat, a: nat) {
    p <= a && exists e | a < e <= |s| :: EmailSplitAt(s[p..e], a - p)
  }

  /** A run of characters that can stand for the pattern is at least as
      long as they are. */
  lemma RunAtLeast(s: string, i: nat, cls: char -> bool, n: nat)
    requires i + n <= |s|
    requires forall k | i <= k < i + n :: cls(s[k])
    ensures Run(s, i, cls) >= n
  {
  }

  /** A dot in the run of domain characters, followed by two letters, ends
      a domain. */
  lemma DomainFound(s: string, i: nat, j: nat)
    requires i <= |s| && DomainDotAt(s, i, j)
    ensures IsDomainText(s[i..j + 3])
  {
    var d := s[i..j + 3];
    assert forall k | 0 <= k < |d| :: d[k] == s[i + k];
    assert DomainSplitAt(d, j - i);
  }

  /** A domain written at `i` is seen by `DomainAt`. */
  lemma DomainMatched(s: string, i: nat, f: nat)
    requires i <= f <= |s| && IsDomainText(s[i..f])
    ensures DomainAt(s, i)
  {
    var d := s[i..f];
    var j: nat :| DomainSplitAt(d, j);
    assert forall k | 0 <= k < |d| :: d[k] == s[i + k];
    RunAtLeast(s, i, IsDomainChar, j + 1);
    assert DomainDotAt(s, i, i + j);
  }

  /** The local part holds no `@`: e-mail text has only one reading. */
  lemma EmailSplitUnique(t: string, a: nat, b: nat)
    requires EmailSplitAt(t, a) && EmailSplitAt(t, b)
    ensures a == b
  {
    assert !IsLocalChar('@');
  }

  /** What `EmailAt` finds is the start of an e-mail address whose `@` is
      the one it reports. */
  lemma EmailAtSound(s: string, p: nat)
    requires EmailAt(s, p).Some?
    ensures EmailFoundAt(s, p, EmailAt(s, p).value)
  {
    var a := EmailAt(s, p).value;
    var j :| a + 1 < j < |s| && DomainDotAt(s, a + 1, j);
    DomainFound(s, a + 1, j);
    EmailFromParts(s, p, a, j + 3);
  }

  /** Local characters from `p`, the `@` at `a` and a domain up to `e` are an
      e-mail address. */
  lemma EmailFromParts(s: string, p: nat, a: nat, e: nat)
    requires p < a < e <= |s| && s[a] == '@'
    requires forall k | p <= k < a :: IsLocalChar(s[k])
    requires IsDomainText(s[a + 1..e])
    ensures EmailFoundAt(s, p, a)
  {
    var t := s[p..e];
    assert forall k | 0 <= k < |t| :: t[k] == s[p + k];
    assert t[a - p + 1..] == s[a + 1..e];
    assert EmailSplitAt(t, a - p);
  }

  /** The e-mail match from `p` is decided by the run of local characters,
      the `@` after it and a domain after that. */
  lemma EmailAtIs(s: string, p: nat, a: nat)
    requires p < a < |s| && Run(s, p, IsLocalChar) == a - p && s[a] == '@'
    requires DomainAt(s, a + 1)
    ensures EmailAt(s, p) == Some(a)
  {
  }

  /** Any e-mail address starting at `p` is found from `p`, with its `@`. */
  lemma EmailAtComplete(s: string, p: nat, e: nat, i: nat)
    requires p <= e <= |s| && EmailSplitAt(s[p..e], i)
    ensures EmailAt(s, p) == Some(p + i)
  {
    var t := s[p..e];
    assert forall k | 0 <= k < |t| :: t[k] == s[p + k];
    RunIs(s, p, IsLocalChar, i);
    assert t[i + 1..] == s[p + i + 1..e];
    DomainMatched(s, p + i + 1, e);
    EmailAtIs(s, p, p + i);
  }

  /** The `@` of the e-mail `Regex.Match` finds on a line, with its start. */
  function EmailMatch(line: string): (r: Option<(nat, nat)>)
    ensures r.Some? ==> EmailAt(line, r.value.0) == Some(r.value.1)
    ensures r.Some? ==> forall q | 0 <= q < r.value.0 :: EmailAt(line, q).None?
    ensures r.None? ==> forall q | 0 <= q <= |line| :: EmailAt(line, q).None?
  {
    var at := q => EmailAt(line, q);
    assert forall q :: at(q) == EmailAt(line, q);
    Leftmost(line, 0, at)
  }

  /** `email.Split('@')[0]` of the e-mail found on a line. */
  function EmailLocalPart(line: string): (r: Option<string>)
    ensures r.Some? ==> r.value != [] && forall k | 0 <= k < |r.value| :: IsLocalChar(r.value[k])
  {
    match EmailMatch(line)
    case None => None
    case Some((p, a)) => Some(line[p..a])
  }

  /** No e-mail address starts before `p`. */
  ghost predicate NoEmailBefore(line: string, p: nat) {
    forall q, f | 0 <= q < p && q <= f <= |line| :: !IsEmailText(line[q..f])
  }

  /** The local part comes from the leftmost e-mail address of the line, as
      the text before its `@`; there is none exactly when the line holds no
      e-mail address. */
  lemma EmailLocalPartLeftmost(line: string)
    ensures EmailMatch(line).Some? ==>
      && EmailFoundAt(line, EmailMatch(line).value.0, EmailMatch(line).value.1)
      && NoEmailBefore(line, EmailMatch(line).value.0)
    ensures EmailLocalPart(line).None? <==>
      forall q, f | 0 <= q <= f <= |line| :: !IsEmailText(line[q..f])
  {
    forall q, f | 0 <= q <= f <= |line| && IsEmailText(line[q..f])
      ensures EmailAt(line, q).Some?
    {
      var i: nat :| EmailSplitAt(line[q..f], i);
      EmailAtComplete(line, q, f, i);
    }
    if EmailMatch(line).Some? {
      EmailAtSound(line, EmailMatch(line).value.0);
    }
  }

  /** `email.Split('@')[0]` of the matched address is the local part. */
  lemma EmailLocalPartIsSplitHead(line: string, e: nat)
    requires EmailMatch(line).Some?
    requires EmailMatch(line).value.1 < e <= |line|
    requires IsEmailText(line[EmailMatch(line).value.0..e])
    ensures Split(line[EmailMatch(line).value.0..e], '@')[0] == EmailLocalPart(line).value
  {
    var (p, a) := EmailMatch(line).value;
    var t := line[p..e];
    var i: nat :| EmailSplitAt(t, i);
    EmailAtComplete(line, p, e, i);
    assert a == p + i;
    assert t[..i] == line[p..a];
    FirstAt(t, i);
    SplitHead(t, '@', i);
  }

  /** The first piece of a split is the text before the first separator. */
  lemma SplitHead(t: string, c: char, i: nat)
    requires c in t && IndexOfChar(t, c) == i
    ensures Split(t, c)[0] == t[..i]
  {
  }

  // ---------------------------------------------------------------------
  // The username pattern ([a-zA-Z0-9_]+)[:\s]+.*?(?=mctoken|token|Accesstoken)
  // matched ignoring case
  // ---------------------------------------------------------------------

  /** `s` starts with `w`, ignoring the case of ASCII letters. */
  predicate StartsWithIgnoreCase(s: string, w: string) {
    |w| <= |s| && EqualsIgnoreCaseAscii(s[..|w|], w)
  }

  /** One of the three labels of the look-ahead. */
  predicate IsTokenLabelAt(s: string, k: nat)
    requires k <= |s|
  {
    || StartsWithIgnoreCase(s[k..], "mctoken")
    || StartsWithIgnoreCase(s[k..], "token")
    || StartsWithIgnoreCase(s[k..], "accesstoken")
  }

  /** The pattern matched from `p`: the name `s[p..w]`, separators up to
      `e`, then any characters other than `'\n'` up to a label at `k`. */
  ghost predicate UserMatchAt(s: string, p: nat, w: nat, e: nat, k: nat) {
    && p < w < e <= k <= |s|
    && (forall q | p <= q < w :: IsWordChar(s[q]))
    && (forall q | w <= q < e :: IsLabelSeparator(s[q]))
    && (forall q | e <= q < k :: s[q] != '\n')
    && IsTokenLabelAt(s, k)
  }

  /** Where the name of the username match that starts at `p` ends, for a
      line without line breaks. The name is the whole run of word
      characters (a separator is not one), and the other two labels contain
      `token`, so a match needs a `token` somewhere after the first
      separator. */
  function UserAt(s: string, p: nat): (r: Option<nat>)
    ensures r.Some? ==> p < r.value < |s| && IsLabelSeparator(s[r.value])
    ensures r.Some? ==> forall q | p <= q < r.value :: IsWordChar(s[q])
  {
    if p > |s| then None
    else
      var w := p + Run(s, p, IsWordChar);
      if p < w < |s| && IsLabelSeparator(s[w])
         && exists k | w < k <= |s| :: StartsWithIgnoreCase(s[k..], "token")
      then Some(w)
      else None
  }

  /** A `token` label inside a longer label. */
  lemma LabelContainsToken(s: string, k: nat)
    requires k <= |s| && IsTokenLabelAt(s, k)
    ensures exists m | k <= m <= |s| :: StartsWithIgnoreCase(s[m..], "token")
  {
    if StartsWithIgnoreCase(s[k..], "mctoken") {
      assert s[k + 2..][..5] == s[k..][..7][2..];
      assert "mctoken"[2..] == "token";
      assert StartsWithIgnoreCase(s[k + 2..], "token");
    } else if StartsWithIgnoreCase(s[k..], "accesstoken") {
      assert s[k + 6..][..5] == s[k..][..11][6..];
      assert "accesstoken"[6..] == "token";
      assert StartsWithIgnoreCase(s[k + 6..], "token");
    }
  }

  /** Any username match from `p` is found, with the same name. */
  lemma UserAtComplete(s: string, p: nat, w: nat, e: nat, k: nat)
    requires UserMatchAt(s, p, w, e, k)
    ensures UserAt(s, p) == Some(w)
  {
    assert !IsWordChar(s[w]);
    RunIs(s, p, IsWordChar, w - p);
    LabelContainsToken(s, k);
  }

  /** The pattern matches from `p` with the name ending at `w` and a
      single separator. */
  ghost predicate UserFoundAt(s: string, p: nat, w: nat, e: nat) {
    exists k | w < k <= |s| :: UserMatchAt(s, p, w, e, k)
  }

  /** On a line without line breaks, what `UserAt` finds is a username
      match with a single separator. */
  lemma UserAtSound(s: string, p: nat)
    requires HasNoLineBreak(s) && UserAt(s, p).Some?
    ensures UserFoundAt(s, p, UserAt(s, p).value, UserAt(s, p).value + 1)
  {
    var w := UserAt(s, p).value;
    var k :| w < k <= |s| && StartsWithIgnoreCase(s[k..], "token");
    assert forall q | w + 1 <= q < k :: !IsLineBreak(s[q]);
    assert UserMatchAt(s, p, w, w + 1, k);
  }

  /** The name of the username `Regex.Match` finds on a line, with its start. */
  function UserMatch(line: string): (r: Option<(nat, nat)>)
    ensures r.Some? ==> UserAt(line, r.value.0) == Some(r.value.1)
    ensures r.Some? ==> forall q | 0 <= q < r.value.0 :: UserAt(line, q).None?
    ensures r.None? ==> forall q | 0 <= q <= |line| :: UserAt(line, q).None?
  {
    var at := q => UserAt(line, q);
    assert forall q :: at(q) == UserAt(line, q);
    Leftmost(line, 0, at)
  }

  /** `usernameMatch.Groups[1].Value`, when the username pattern matches. */
  function UserName(line: string): (r: Option<string>)
    ensures r.Some? ==> r.value != [] && forall k | 0 <= k < |r.value| :: IsWordChar(r.value[k])
  {
    match UserMatch(line)
    case None => None
    case Some((p, w)) => Some(line[p..w])
  }

  /** On a line without line breaks the username is the name of the leftmost
      match of the pattern; there is none exactly when the pattern matches
      nowhere. */
  lemma UserNameLeftmost(line: string)
    requires HasNoLineBreak(line)
    ensures UserMatch(line).Some? ==>
      && UserFoundAt(line, UserMatch(line).value.0, UserMatch(line).value.1, UserMatch(line).value.1 + 1)
      && forall q: nat, w': nat, e: nat, k: nat | q < UserMatch(line).value.0 ::
           !UserMatchAt(line, q, w', e, k)
    ensures UserName(line).None? <==>
      forall q: nat, w': nat, e: nat, k: nat :: !UserMatchAt(line, q, w', e, k)
  {
    forall q: nat, w': nat, e: nat, k: nat | UserMatchAt(line, q, w', e, k)
      ensures UserAt(line, q) == Some(w')
    {
      UserAtComplete(line, q, w', e, k);
    }
    if UserMatch(line).Some? {
      var (p, w) := UserMatch(line).value;
      UserAtSound(line, p);
    }
  }

  // ---------------------------------------------------------------------
  // One line, and the whole response
  // ---------------------------------------------------------------------

  /** Trimming keeps a `----` that the text holds. */
  lemma TrimKeepsSeparator(s: string)
    requires Contains(s, Separator)
    ensures Contains(Trim(s), Separator)
  {
    var a := TrimWindow(s);
    WindowKeepsSeparator(s, Trim(s), a);
  }

  /** A window of `s` outside which `s` is white space holds every `----`
      of `s`. */
  lemma WindowKeepsSeparator(s: string, r: string, a: nat)
    requires a + |r| <= |s| && forall k | 0 <= k < |r| :: r[k] == s[a + k]
    requires forall m | 0 <= m < a :: IsWhiteSpace(s[m])
    requires forall m | a + |r| <= m < |s| :: IsWhiteSpace(s[m])
    requires Contains(s, Separator)
    ensures Contains(r, Separator)
  {
    var i :| 0 <= i <= |s| && StartsWith(s[i..], Separator);
    assert s[i] == s[i..][..4][0] && s[i + 3] == s[i..][..4][3];
    assert a <= i && i + 4 <= a + |r|;
    forall m | 0 <= m < 4 ensures r[i - a + m] == Separator[m] {
      assert r[i - a + m] == s[i + m] == s[i..][..4][m];
    }
    assert r[i - a..][..4] == Separator;
  }

  /** `Trim` cuts white space off both ends and keeps what lies between. */
  lemma TrimWindow(s: string) returns (a: nat)
    ensures a + |Trim(s)| <= |s|
    ensures forall k | 0 <= k < |Trim(s)| :: Trim(s)[k] == s[a + k]
    ensures forall m | 0 <= m < a :: IsWhiteSpace(s[m])
    ensures forall m | a + |Trim(s)| <= m < |s| :: IsWhiteSpace(s[m])
  {
    var t := TrimStart(s);
    var r := Trim(s);
    assert r == TrimEnd(t);
    a := |s| - |t|;
    CutBothEnds(s, t, r, a);
  }

  /** Cutting a blank prefix and then a blank suffix leaves a window of the
      text with white space on either side. */
  lemma CutBothEnds(s: string, t: string, r: string, a: nat)
    requires |t| <= |s| && a == |s| - |t| && t == s[a..] && forall i | 0 <= i < a :: IsWhiteSpace(s[i])
    requires |r| <= |t| && r == t[..|r|] && forall i | |r| <= i < |t| :: IsWhiteSpace(t[i])
    ensures a + |r| <= |s|
    ensures forall k | 0 <= k < |r| :: r[k] == s[a + k]
    ensures forall m | a + |r| <= m < |s| :: IsWhiteSpace(s[m])
  {
    forall m | a + |r| <= m < |s| ensures IsWhiteSpace(s[m]) {
      assert t[m - a] == s[m];
    }
  }

  /** `username----token` holds the separator. */
  lemma JoinedHasSeparator(user: string, token: string)
    ensures Contains(user + Separator + token, Separator)
  {
    assert (user + Separator + token)[|user|..][..4] == Separator;
  }

  /** The fallback for a line already written as `username----token`: the
      second `----` part, trimmed, starts with `ey` and has exactly two dots.
      The result still holds the separator and is its own trimmed form. */
  function Fallback(line: string): (r: Option<string>)
    ensures r.Some? ==> Contains(r.value, Separator) && Trim(r.value) == r.value
  {
    if Contains(line, Separator) then
      var parts := SplitOn(line, Separator);
      if |parts| >= 2 then
        var token := Trim(parts[1]);
        if StartsWith(token, "ey") && |Split(token, '.')| == 3 then
          TrimKeepsSeparator(line);
          TrimIsIdempotent(line);
          Some(Trim(line))
        else None
      else None
    else None
  }

  /** Trimming twice is trimming once. */
  lemma TrimIsIdempotent(s: string)
    ensures Trim(Trim(s)) == Trim(s)
  {
    TrimmedIsFixed(Trim(s));
  }

  /** A dot count of two is what three dot-separated segments means. */
  lemma ThreeSegmentsTwoDots(token: string)
    ensures |Split(token, '.')| == 3 <==> multiset(token)['.'] == 2
  {
  }

  /** The fallback fires exactly for a line with `----` whose second part,
      trimmed, starts with `ey` and holds two dots. It returns the line
      trimmed. */
  lemma FallbackExactly(line: string)
    ensures Fallback(line).Some? <==>
      Contains(line, Separator) && |SplitOn(line, Separator)| >= 2
      && var token := Trim(SplitOn(line, Separator)[1]);
      StartsWith(token, "ey") && multiset(token)['.'] == 2
    ensures Fallback(line).Some? ==> Fallback(line) == Some(Trim(line))
  {
    SplitOnFirst(line, Separator);
  }

  /** The loop body for one line: a token with an e-mail or a labelled
      username gives `username----token`; otherwise the fallback decides. */
  function LineResult(line: string): (r: Option<string>)
    ensures r.Some? ==> Contains(r.value, Separator)
  {
    match FindToken(line)
    case Some(token) =>
      (match EmailLocalPart(line)
       case Some(user) => JoinedHasSeparator(user, token); Some(user + Separator + token)
       case None =>
         match UserName(line)
         case Some(user) => JoinedHasSeparator(user, token); Some(user + Separator + token)
         case None => Fallback(line))
    case None => Fallback(line)
  }

  /** A line without a token, or with a token but neither an e-mail nor a
      labelled username, gets the fallback's answer. */
  lemma LineResultFallsBack(line: string)
    requires FindToken(line).None? || (EmailLocalPart(line).None? && UserName(line).None?)
    ensures LineResult(line) == Fallback(line)
  {
  }

  /** With a token on the line, the result joins a username from the line to
      that token; the e-mail's local part takes precedence over a label. */
  lemma LineResultWithToken(line: string)
    requires FindToken(line).Some?
    requires EmailLocalPart(line).Some? || UserName(line).Some?
    ensures var user := if EmailLocalPart(line).Some? then EmailLocalPart(line).value
                        else UserName(line).value;
      && user != []
      && LineResult(line) == Some(user + Separator + FindToken(line).value)
      && IsTokenText(FindToken(line).value)
  {
    FindTokenIsToken(line);
  }

  /** The first line, in order, for which `resultOf` gives a result. */
  function FirstYield(lines: seq<string>, resultOf: string -> Option<string>): Option<string>
  {
    if lines == [] then None
    else match resultOf(lines[0])
      case Some(v) => Some(v)
      case None => FirstYield(lines[1..], resultOf)
  }

  /** A result is the result of some line. */
  lemma {:induction false} FirstYieldFromLine(lines: seq<string>, resultOf: string -> Option<string>)
    ensures FirstYield(lines, resultOf).Some? ==>
      exists i | 0 <= i < |lines| :: resultOf(lines[i]) == FirstYield(lines, resultOf)
    decreases |lines|
  {
    if lines != [] && resultOf(lines[0]).None? {
      FirstYieldFromLine(lines[1..], resultOf);
      if FirstYield(lines[1..], resultOf).Some? {
        var i :| 0 <= i < |lines[1..]| && resultOf(lines[1..][i]) == FirstYield(lines[1..], resultOf);
        assert resultOf(lines[i + 1]) == FirstYield(lines, resultOf);
      }
    }
  }

  /** The result is that of the first line that yields one. */
  lemma {:induction false} FirstYieldAt(lines: seq<string>, resultOf: string -> Option<string>, i: nat)
    requires i < |lines| && resultOf(lines[i]).Some?
    requires forall j | 0 <= j < i :: resultOf(lines[j]).None?
    ensures FirstYield(lines, resultOf) == resultOf(lines[i])
    decreases i
  {
    if i > 0 {
      assert resultOf(lines[0]).None?;
      FirstYieldAt(lines[1..], resultOf, i - 1);
    }
  }

  /** There is no result exactly when no line yields one. */
  lemma {:induction false} FirstYieldNone(lines: seq<string>, resultOf: string -> Option<string>)
    ensures FirstYield(lines, resultOf).None? <==>
      forall j | 0 <= j < |lines| :: resultOf(lines[j]).None?
    decreases |lines|
  {
    if lines != [] {
      FirstYieldNone(lines[1..], resultOf);
      assert forall j | 1 <= j < |lines| :: lines[j] == lines[1..][j - 1];
    }
  }

  /** `ParseSteamAccountFromResponse`: `None` stands for `null`. Every result
      holds the separator, since every line's result does. */
  function ParseSteamAccountFromResponse(accountData: string): (r: Option<string>)
    ensures r.Some? ==> Contains(r.value, Separator)
  {
    var lines := ResponseLines(accountData);
    FirstYieldFromLine(lines, LineResult);
    FirstYield(lines, LineResult)
  }

  /** The result is that of the first line of the response that yields one. */
  lemma ParseFirstYieldingLine(accountData: string, i: nat)
    requires i < |ResponseLines(accountData)|
    requires LineResult(ResponseLines(accountData)[i]).Some?
    requires forall j | 0 <= j < i :: LineResult(ResponseLines(accountData)[j]).None?
    ensures ParseSteamAccountFromResponse(accountData) == LineResult(ResponseLines(accountData)[i])
  {
    FirstYieldAt(ResponseLines(accountData), LineResult, i);
  }

  /** When no line of the response yields a result, there is none. */
  lemma ParseNone(accountData: string)
    requires forall j | 0 <= j < |ResponseLines(accountData)| :: LineResult(ResponseLines(accountData)[j]).None?
    ensures ParseSteamAccountFromResponse(accountData).None?
  {
    FirstYieldNone(ResponseLines(accountData), LineResult);
  }

  /** When there is no result, line `j` of the response yielded none. */
  lemma ParseNoneAtLine(accountData: string, j: nat)
    requires ParseSteamAccountFromResponse(accountData).None?
    requires j < |ResponseLines(accountData)|
    ensures LineResult(ResponseLines(accountData)[j]).None?
  {
    FirstYieldNone(ResponseLines(accountData), LineResult);
  }
}
