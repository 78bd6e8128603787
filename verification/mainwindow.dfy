/**
 * The account logic of `MainWindow`. This file covers:
 *  - the `username----token` lines that the paste, drop and file import
 *    handlers read and the export handler writes;
 *  - the choice of the account to log in with;
 *  - the counters of the two delete handlers.
 *
 * `_dbHelper` is an `AccountStore?`, null when the database could not be
 * opened. The answers of the confirmation and file dialogs are parameters.
 * Message boxes and the grid are not modelled.
 */
module Window {
  import opened Wrappers
  import opened Bits
  import opened TextUtil
  import opened Models
  import opened Database
  import opened Crc32
  import opened Login

  /** The field separator of the interchange format. */
  const Separator: string := "----"

  /** One `username----token` entry. */
  datatype Credential = Credential(username: string, token: string)

  /** Not empty, and no white space at either end: what `Trim` leaves of a
      field that is not white space only. */
  predicate Clean(s: string) {
    s != [] && !IsWhiteSpace(s[0]) && !IsWhiteSpace(s[|s| - 1])
  }

  /** A clean field is not white space only, and trimming leaves it alone. */
  lemma CleanIsTrimmed(s: string)
    requires Clean(s)
    ensures !IsBlank(s) && Trim(s) == s
  {
    TrimmedIsFixed(s);
  }

  /** Both fields as the import loops accept them. */
  predicate Usable(c: Credential) {
    Clean(c.username) && Clean(c.token)
  }

  // ---------------------------------------------------------------------
  // Reading lines

  /** The body of each import loop for one line. The line is split on
      `"----"`. It needs at least two parts. The first two parts are
      trimmed, and neither may be white space only. */
  function ParseLine(line: string): (r: Option<Credential>)
    ensures r.Some? ==> Usable(r.value)
  {
    var parts := SplitOn(line, Separator);
    if |parts| < 2 then None else FromFields(parts[0], parts[1])
  }

  /** A line yields an entry only when it holds the separator. The username
      is then the trimmed text before its first occurrence, and the token the
      trimmed text after it, up to the next occurrence or the end of the
      line. */
  lemma ParseLineFacts(line: string)
    ensures ParseLine(line).Some? ==> Contains(line, Separator) && Find(line, Separator).Some?
    ensures ParseLine(line).Some? ==> ParseLine(line).value.username == Trim(line[..Find(line, Separator).value])
    ensures ParseLine(line).Some? ==>
      var rest := line[Find(line, Separator).value + |Separator|..];
      ParseLine(line).value.token
        == Trim(if Find(rest, Separator).Some? then rest[..Find(rest, Separator).value] else rest)
    ensures !Contains(line, Separator) ==> ParseLine(line).None?
  {
    SplitOnFirst(line, Separator);
    if Find(line, Separator).Some? {
      var rest := line[Find(line, Separator).value + |Separator|..];
      assert SplitOn(line, Separator)[1] == SplitOn(rest, Separator)[0];
    }
  }

  /** The entry made of the first two fields of a line: both trimmed, and
      rejected when either is white space only (a field is white space only
      exactly when its trimmed form is empty). */
  function FromFields(first: string, second: string): (r: Option<Credential>)
    ensures r.Some? ==> Usable(r.value)
  {
    if IsBlank(first) || IsBlank(second) then None
    else Some(Credential(Trim(first), Trim(second)))
  }

  /** Whatever follows a second `"----"` is ignored: the line parses like its
      first two fields joined again. */
  lemma ExtraFieldsIgnored(line: string)
    requires |SplitOn(line, Separator)| >= 3
    ensures var parts := SplitOn(line, Separator);
      ParseLine(line) == ParseLine(parts[0] + Separator + parts[1])
  {
    FirstTwoFields(line, Separator);
  }

  /** The first two fields of a line with at least three, joined by the
      separator, split into those two fields again. */
  lemma FirstTwoFields(line: string, sep: string)
    requires sep != [] && |SplitOn(line, sep)| >= 3
    ensures var parts := SplitOn(line, sep);
      SplitOn(parts[0] + sep + parts[1], sep) == parts[..2]
  {
    var i := Find(line, sep).value;
    var a, rest := line[..i], line[i + |sep|..];
    assert SplitOn(line, sep) == [a] + SplitOn(rest, sep);
    var b := SplitOn(rest, sep)[0];
    assert !Contains(b, sep) by {
      SplitOnFirst(rest, sep);
    }
    FirstOccurrence(line, sep, i);
    SplitOnPair(a, sep, b);
  }

  /** Before the first occurrence of `sep` at `i`, no occurrence of `sep`
      starts in `s[..i] + sep` either. */
  lemma FirstOccurrence(s: string, sep: string, i: nat)
    requires sep != [] && Find(s, sep) == Some(i)
    ensures forall j | 0 <= j < i :: !StartsWith((s[..i] + sep)[j..], sep)
  {
    FindCorrect(s, sep);
    var a := s[..i];
    assert s[..i + |sep|] == a + sep by {
      assert s[i..][..|sep|] == s[i..i + |sep|];
    }
    forall j | 0 <= j < i ensures !StartsWith((a + sep)[j..], sep) {
      assert !StartsWith(s[j..], sep);
      assert (a + sep)[j..] == s[j..i + |sep|];
      assert s[j..][..|sep|] == s[j..j + |sep|];
    }
  }

  /** `File.ReadAllLines`: the text cut at `"\r\n"`, `"\r"` and `"\n"`. A
      break at the very end does not start another line, and an empty file
      has no lines. */
  function ReadAllLines(text: string): (lines: seq<string>)
    ensures forall k | 0 <= k < |lines| :: HasNoLineBreak(lines[k])
    ensures text == [] ==> lines == []
  {
    var all := SplitLines(text);
    if all[|all| - 1] == [] then all[..|all| - 1] else all
  }

  /** The entries the import loops find in a sequence of lines, in order. */
  function Candidates(lines: seq<string>): (cs: seq<Credential>)
    ensures |cs| <= |lines|
  {
    if lines == [] then []
    else
      var rest := Candidates(lines[..|lines| - 1]);
      match ParseLine(lines[|lines| - 1])
      case None => rest
      case Some(c) => rest + [c]
  }

  /** Every entry the import loops find has both fields trimmed and not
      white space only. */
  lemma {:induction false} CandidatesUsable(lines: seq<string>)
    ensures forall k | 0 <= k < |Candidates(lines)| :: Usable(Candidates(lines)[k])
  {
    if lines != [] {
      CandidatesUsable(lines[..|lines| - 1]);
    }
  }

  /** A line without `"----"`, such as an empty line, contributes nothing. */
  lemma CandidatesSkip(lines: seq<string>, line: string)
    requires !Contains(line, Separator)
    ensures Candidates(lines + [line]) == Candidates(lines)
  {
    ParseLineFacts(line);
    assert (lines + [line])[..|lines|] == lines;
  }

  // ---------------------------------------------------------------------
  // Writing lines

  /** The line export writes for an entry. */
  function FormatLine(c: Credential): (line: string)
    ensures StartsWith(line, c.username) && EndsWith(line, c.token)
    ensures |line| == |c.username| + |Separator| + |c.token|
  {
    var line := c.username + Separator + c.token;
    assert line[..|c.username|] == c.username;
    assert line[|line| - |c.token|..] == c.token;
    line
  }

  function FormatLines(cs: seq<Credential>): (lines: seq<string>)
    ensures |lines| == |cs|
    ensures forall k | 0 <= k < |cs| :: lines[k] == FormatLine(cs[k])
  {
    seq(|cs|, k requires 0 <= k < |cs| => FormatLine(cs[k]))
  }

  /** `StreamWriter.WriteLine` for each line in turn: the line and then
      `Environment.NewLine`. */
  function WriteLines(lines: seq<string>): string {
    if lines == [] then [] else lines[0] + NewLine + WriteLines(lines[1..])
  }

  lemma {:induction false} WriteLinesAppend(lines: seq<string>, line: string)
    ensures WriteLines(lines + [line]) == WriteLines(lines) + line + NewLine
    decreases |lines|
  {
    if lines == [] {
      assert WriteLines([line]) == line + NewLine + WriteLines([]);
    } else {
      assert (lines + [line])[1..] == lines[1..] + [line];
      WriteLinesAppend(lines[1..], line);
    }
  }

  /** Exporting one more entry appends its line to the text. */
  lemma ExportAppend(cs: seq<Credential>, c: Credential)
    ensures WriteLines(FormatLines(cs + [c])) == WriteLines(FormatLines(cs)) + FormatLine(c) + NewLine
  {
    assert FormatLines(cs + [c]) == FormatLines(cs) + [FormatLine(c)];
    WriteLinesAppend(FormatLines(cs), FormatLine(c));
  }

  /** Cutting written lines at their breaks gives the lines back and one
      empty line after the last break. */
  lemma {:induction false} SplitWritten(lines: seq<string>)
    requires forall k | 0 <= k < |lines| :: HasNoLineBreak(lines[k])
    ensures SplitLines(WriteLines(lines)) == lines + [[]]
    decreases |lines|
  {
    if lines == [] {
      assert FirstLineBreak([]) == None;
    } else {
      var first, others := lines[0], lines[1..];
      assert HasNoLineBreak(first);
      assert forall k | 0 <= k < |others| :: others[k] == lines[k + 1];
      SplitWritten(others);
      assert WriteLines(lines) == first + NewLine + WriteLines(others);
      SplitLinesCrLf(first, WriteLines(others));
      assert lines == [first] + others;
    }
  }

  /** Reading a written file gives back exactly the lines written. */
  lemma ReadWritten(lines: seq<string>)
    requires forall k | 0 <= k < |lines| :: HasNoLineBreak(lines[k])
    ensures ReadAllLines(WriteLines(lines)) == lines
  {
    SplitWritten(lines);
    assert (lines + [[]])[..|lines|] == lines;
  }

  // ---------------------------------------------------------------------
  // The round trip

  /** An entry that survives the round trip. Both fields are usable. Neither
      holds the separator or a line break. The username does not end in
      `'-'`, since that dash would join the separator. */
  predicate Exportable(c: Credential) {
    && Usable(c)
    && !Contains(c.username, Separator) && !Contains(c.token, Separator)
    && c.username[|c.username| - 1] != '-'
    && HasNoLineBreak(c.username) && HasNoLineBreak(c.token)
  }

  /** A username without the separator and not ending in `'-'` cannot share
      an occurrence of the separator with what follows it. */
  lemma NoStraddle(a: string)
    requires !Contains(a, Separator) && a != [] && a[|a| - 1] != '-'
    ensures forall j | 0 <= j < |a| :: !StartsWith((a + Separator)[j..], Separator)
  {
    var sep := Separator;
    forall j | 0 <= j < |a| ensures !StartsWith((a + sep)[j..], sep) {
      if j + |sep| <= |a| {
        assert a[j..][..|sep|] == (a + sep)[j..][..|sep|];
        assert !StartsWith(a[j..], sep);
      } else {
        assert (a + sep)[j..][|a| - 1 - j] == a[|a| - 1];
      }
    }
  }

  /** An exportable entry's line parses back to the entry. */
  lemma ParseFormatted(c: Credential)
    requires Exportable(c)
    ensures ParseLine(FormatLine(c)) == Some(c)
  {
    NoStraddle(c.username);
    SplitOnPair(c.username, Separator, c.token);
  }

  /** The two fields the line below is read back as are already trimmed. */
  lemma ShiftedFieldsAreTrimmed()
    ensures !IsBlank("ab") && Trim("ab") == "ab"
    ensures !IsBlank("-eyX") && Trim("-eyX") == "-eyX"
  {
    assert !IsWhiteSpace("ab"[0]) && !IsWhiteSpace("-eyX"[0]);
    CleanIsTrimmed("ab");
    CleanIsTrimmed("-eyX");
  }

  /** A username that ends in `'-'` does not survive the round trip: the
      line `ab-----eyX` reads as user `ab` with token `-eyX`. */
  lemma DashEndingUsernameShifts()
    ensures ParseLine(FormatLine(Credential("ab-", "eyX"))) == Some(Credential("ab", "-eyX"))
  {
    ShiftedFieldsAreTrimmed();
    assert FormatLine(Credential("ab-", "eyX")) == "ab" + Separator + "-eyX";
    assert !Contains("-eyX", Separator) by {
      forall i | 0 <= i <= 4 ensures !StartsWith("-eyX"[i..], Separator) {
        if i == 0 {
          assert "-eyX"[0..][..4][1] == 'e';
        }
      }
    }
    assert ("ab" + Separator)[0..][0] == 'a';
    assert ("ab" + Separator)[1..][0] == 'b';
    SplitOnPair("ab", Separator, "-eyX");
  }

  lemma {:induction false} CandidatesOfFormatted(cs: seq<Credential>)
    requires forall k | 0 <= k < |cs| :: Exportable(cs[k])
    ensures Candidates(FormatLines(cs)) == cs
    decreases |cs|
  {
    if cs != [] {
      var n := |cs|;
      var init, c := cs[..n - 1], cs[n - 1];
      assert cs == init + [c];
      var lines := FormatLines(cs);
      assert lines[..n - 1] == FormatLines(init);
      assert lines[n - 1] == FormatLine(c);
      assert Candidates(lines) == Candidates(FormatLines(init)) + [c] by {
        ParseFormatted(c);
      }
      assert forall k | 0 <= k < n - 1 :: init[k] == cs[k];
      CandidatesOfFormatted(init);
    }
  }

  lemma FormattedHasNoBreak(cs: seq<Credential>)
    requires forall k | 0 <= k < |cs| :: Exportable(cs[k])
    ensures forall k | 0 <= k < |cs| :: HasNoLineBreak(FormatLines(cs)[k])
  {
    forall k | 0 <= k < |cs| ensures HasNoLineBreak(FormatLines(cs)[k]) {
      var c := cs[k];
      var line := c.username + Separator + c.token;
      forall i | 0 <= i < |line| ensures !IsLineBreak(line[i]) {
        if i < |c.username| {
          assert line[i] == c.username[i];
        } else if i >= |c.username| + 4 {
          assert line[i] == c.token[i - |c.username| - 4];
        }
      }
    }
  }

  /** Export followed by import gives the same entries in the same order. This
      holds whether the file is read by `File.ReadAllLines` or dropped as text
      cut at every line break. */
  lemma ExportImportRoundTrip(cs: seq<Credential>)
    requires forall k | 0 <= k < |cs| :: Exportable(cs[k])
    ensures Candidates(ReadAllLines(WriteLines(FormatLines(cs)))) == cs
    ensures Candidates(SplitLines(WriteLines(FormatLines(cs)))) == cs
  {
    var lines := FormatLines(cs);
    FormattedHasNoBreak(cs);
    ReadWritten(lines);
    SplitWritten(lines);
    CandidatesOfFormatted(cs);
    assert !Contains([], Separator) by {
      assert !StartsWith([], Separator);
    }
    CandidatesSkip(lines, []);
  }

  // ---------------------------------------------------------------------
  // Import

  /** An entry that makes `AddAccount` return true. Its token must carry a
      `sub` claim, since `AddAccount` is only called then. It must also pass
      the store's guards. */
  predicate Accepted(connected: bool, c: Credential, steamIdOf: string -> string) {
    steamIdOf(c.token) != "" && AddAccepted(connected, c.username, c.token)
  }

  /** The entries for which `AddAccount` returned true, in order. */
  function AcceptedOf(connected: bool, cs: seq<Credential>, steamIdOf: string -> string): (added: seq<Credential>)
    ensures !connected ==> added == []
  {
    if cs == [] then []
    else
      var rest := AcceptedOf(connected, cs[..|cs| - 1], steamIdOf);
      var c := cs[|cs| - 1];
      if Accepted(connected, c, steamIdOf) then rest + [c] else rest
  }

  /** The entries `AcceptedOf` keeps are exactly the accepted ones, in order. */
  lemma {:induction false} AcceptedOfExactly(connected: bool, cs: seq<Credential>, steamIdOf: string -> string)
    ensures forall k | 0 <= k < |AcceptedOf(connected, cs, steamIdOf)| ::
      AcceptedOf(connected, cs, steamIdOf)[k] in cs && Accepted(connected, AcceptedOf(connected, cs, steamIdOf)[k], steamIdOf)
    ensures (forall k | 0 <= k < |cs| :: Accepted(connected, cs[k], steamIdOf)) ==> AcceptedOf(connected, cs, steamIdOf) == cs
    decreases |cs|
  {
    if cs != [] {
      var init := cs[..|cs| - 1];
      assert cs == init + [cs[|cs| - 1]];
      AcceptedOfExactly(connected, init, steamIdOf);
    }
  }

  /** The table after `AddAccount` was called for one entry, if its token
      has a `sub` claim. `prime` stands for the web lookup of
      `CheckPrimeStatus`. */
  function AddEntry(connected: bool, rows: seq<Row>, c: Credential,
                    steamIdOf: string -> string, prime: string -> bool): (r: seq<Row>)
    ensures Accepted(connected, c, steamIdOf) ==> HasUser(r, c.username)
    ensures !Accepted(connected, c, steamIdOf) ==> r == rows
  {
    var id := steamIdOf(c.token);
    if Accepted(connected, c, steamIdOf) then InsertOrIgnore(rows, Row(c.username, id, c.token, prime(id)))
    else rows
  }

  /** The table after `AddEntry` for every entry in turn. */
  function ImportRows(connected: bool, rows: seq<Row>, cs: seq<Credential>,
                      steamIdOf: string -> string, prime: string -> bool): (r: seq<Row>)
    ensures rows <= r
    ensures UniqueUsernames(rows) ==> UniqueUsernames(r)
    ensures !connected ==> r == rows
  {
    if cs == [] then rows
    else AddEntry(connected, ImportRows(connected, rows, cs[..|cs| - 1], steamIdOf, prime), cs[|cs| - 1], steamIdOf, prime)
  }

  /** Every accepted entry's username is in the table afterwards, and the
      table grows by at most one row per accepted entry. */
  lemma {:induction false} ImportRowsFacts(connected: bool, rows: seq<Row>, cs: seq<Credential>,
                                           steamIdOf: string -> string, prime: string -> bool)
    ensures |ImportRows(connected, rows, cs, steamIdOf, prime)| <= |rows| + |AcceptedOf(connected, cs, steamIdOf)|
    ensures forall k | 0 <= k < |cs| :: Accepted(connected, cs[k], steamIdOf) ==>
      HasUser(ImportRows(connected, rows, cs, steamIdOf, prime), cs[k].username)
    decreases |cs|
  {
    if cs != [] {
      var init := cs[..|cs| - 1];
      var rest := ImportRows(connected, rows, init, steamIdOf, prime);
      var r := ImportRows(connected, rows, cs, steamIdOf, prime);
      var c := cs[|cs| - 1];
      ImportRowsFacts(connected, rows, init, steamIdOf, prime);
      assert rest <= r;
      forall k | 0 <= k < |cs| && Accepted(connected, cs[k], steamIdOf)
        ensures HasUser(r, cs[k].username)
      {
        if k < |cs| - 1 {
          assert cs[k] == init[k];
          var i :| 0 <= i < |rest| && rest[i].username == cs[k].username;
          assert r[i] == rest[i];
        } else if !HasUser(rest, c.username) {
          assert r[|rest|].username == c.username;
        }
      }
    }
  }

  /** Importing never overwrites a stored token: `INSERT OR IGNORE` leaves an
      existing username's row alone. */
  lemma {:induction false} ImportKeepsStoredTokens(connected: bool, rows: seq<Row>, cs: seq<Credential>,
                                                   steamIdOf: string -> string, prime: string -> bool, username: string)
    requires UniqueUsernames(rows) && HasUser(rows, username)
    ensures TokenOf(ImportRows(connected, rows, cs, steamIdOf, prime), username) == TokenOf(rows, username)
    decreases |cs|
  {
    if cs != [] {
      var rest := ImportRows(connected, rows, cs[..|cs| - 1], steamIdOf, prime);
      ImportKeepsStoredTokens(connected, rows, cs[..|cs| - 1], steamIdOf, prime, username);
      var c := cs[|cs| - 1];
      var id := steamIdOf(c.token);
      if Accepted(connected, c, steamIdOf) {
        var i :| 0 <= i < |rows| && rows[i].username == username;
        assert rest[i] == rows[i];
        InsertOrIgnoreTokens(rest, Row(c.username, id, c.token, prime(id)), username);
      }
    }
  }

  /** A new username gets the token of the first accepted entry that names it.
      Later entries with the same username are ignored. */
  lemma {:induction false} ImportStoresFirstToken(connected: bool, rows: seq<Row>, cs: seq<Credential>,
                                                  steamIdOf: string -> string, prime: string -> bool, k: nat)
    requires UniqueUsernames(rows) && k < |cs| && Accepted(connected, cs[k], steamIdOf)
    requires !HasUser(rows, cs[k].username)
    requires forall j | 0 <= j < k :: Accepted(connected, cs[j], steamIdOf) ==> cs[j].username != cs[k].username
    ensures TokenOf(ImportRows(connected, rows, cs, steamIdOf, prime), cs[k].username) == Some(cs[k].token)
    decreases |cs|
  {
    var n := |cs|;
    var rest := ImportRows(connected, rows, cs[..n - 1], steamIdOf, prime);
    var c := cs[n - 1];
    var id := steamIdOf(c.token);
    var u := cs[k].username;
    if k == n - 1 {
      assert !HasUser(rest, u) by {
        if HasUser(rest, u) {
          TokenOfNew(connected, rows, cs[..n - 1], steamIdOf, prime, u);
        }
      }
      InsertOrIgnoreTokens(rest, Row(c.username, id, c.token, prime(id)), u);
    } else {
      assert cs[k] == cs[..n - 1][k];
      assert forall j | 0 <= j < k :: cs[j] == cs[..n - 1][j];
      ImportStoresFirstToken(connected, rows, cs[..n - 1], steamIdOf, prime, k);
      if Accepted(connected, c, steamIdOf) {
        TokenOfFound(rest, u);
        InsertOrIgnoreTokens(rest, Row(c.username, id, c.token, prime(id)), u);
      }
    }
  }

  /** A username that neither the table nor any accepted entry names stays
      absent. */
  lemma {:induction false} TokenOfNew(connected: bool, rows: seq<Row>, cs: seq<Credential>,
                                      steamIdOf: string -> string, prime: string -> bool, u: string)
    requires !HasUser(rows, u)
    requires forall j | 0 <= j < |cs| :: Accepted(connected, cs[j], steamIdOf) ==> cs[j].username != u
    ensures !HasUser(ImportRows(connected, rows, cs, steamIdOf, prime), u)
    decreases |cs|
  {
    if cs != [] {
      assert forall j | 0 <= j < |cs| - 1 :: cs[j] == cs[..|cs| - 1][j];
      TokenOfNew(connected, rows, cs[..|cs| - 1], steamIdOf, prime, u);
    }
  }

  /** One more line extends the import by at most one `AddAccount` call. */
  lemma ImportStep(connected: bool, rows: seq<Row>, lines: seq<string>, i: nat,
                   steamIdOf: string -> string, prime: string -> bool, took: bool)
    requires i < |lines|
    requires took <==> ParseLine(lines[i]).Some? && Accepted(connected, ParseLine(lines[i]).value, steamIdOf)
    ensures var before := ImportRows(connected, rows, Candidates(lines[..i]), steamIdOf, prime);
      ImportRows(connected, rows, Candidates(lines[..i + 1]), steamIdOf, prime) ==
        if ParseLine(lines[i]).Some? then AddEntry(connected, before, ParseLine(lines[i]).value, steamIdOf, prime)
        else before
    ensures |AcceptedOf(connected, Candidates(lines[..i + 1]), steamIdOf)| ==
      |AcceptedOf(connected, Candidates(lines[..i]), steamIdOf)| + (if took then 1 else 0)
  {
    assert lines[..i + 1][..i] == lines[..i];
    var cs := Candidates(lines[..i]);
    match ParseLine(lines[i]) {
      case None =>
      case Some(c) =>
        assert Candidates(lines[..i + 1]) == cs + [c];
        assert (cs + [c])[..|cs|] == cs;
    }
  }

  /** The body of the import loops for one line: the line is parsed, and
      `AddAccount` is called when the token has a `sub` claim and the store
      exists. `took` is the result of that call. */
  method ImportLine(store: AccountStore?, line: string, steamIdOf: string -> string, prime: string -> bool)
    returns (took: bool)
    requires store != null ==> store.Valid()
    modifies store
    ensures store == null ==> !took
    ensures store != null ==> store.Valid() && store.connected == old(store.connected)
    ensures store != null ==> took == (ParseLine(line).Some? && Accepted(store.connected, ParseLine(line).value, steamIdOf))
    ensures store != null ==>
              store.rows == (if ParseLine(line).Some? then AddEntry(store.connected, old(store.rows), ParseLine(line).value, steamIdOf, prime)
                             else old(store.rows))
  {
    took := false;
    var entry := ParseLine(line);
    if entry.Some? {
      var steamId := steamIdOf(entry.value.token);
      if steamId != "" && store != null {
        took := store.AddAccount(entry.value.username, entry.value.token, steamId, prime(steamId));
      }
    }
  }

  /** The loop shared by `HandlePaste`, `ImportAccountsFromText` and
      `LoadFromFile`. It returns `addedCount`, the number of `AddAccount`
      calls that returned true. `AddAccount` is only called for an entry
      whose token yields a steam id. The drop handler skips the entry when
      `_dbHelper` is null before decoding the token. The other two handlers
      decode first and skip afterwards. Decoding changes nothing, so the
      order does not show. */
  method ImportLines(store: AccountStore?, lines: seq<string>, steamIdOf: string -> string, prime: string -> bool)
    returns (added: nat)
    requires store != null ==> store.Valid()
    modifies store
    ensures store == null ==> added == 0
    ensures store != null ==> store.Valid() && store.connected == old(store.connected)
    ensures store != null ==> store.rows == ImportRows(store.connected, old(store.rows), Candidates(lines), steamIdOf, prime)
    ensures store != null ==> added == |AcceptedOf(store.connected, Candidates(lines), steamIdOf)|
  {
    added := 0;
    ghost var connected, start := if store != null then store.connected else false, if store != null then store.rows else [];
    for i := 0 to |lines|
      invariant store == null ==> added == 0
      invariant store != null ==> store.Valid() && store.connected == connected
      invariant store != null ==> store.rows == ImportRows(connected, start, Candidates(lines[..i]), steamIdOf, prime)
      invariant store != null ==> added == |AcceptedOf(connected, Candidates(lines[..i]), steamIdOf)|
    {
      var took := ImportLine(store, lines[i], steamIdOf, prime);
      if took {
        added := added + 1;
      }
      if store != null {
        ImportStep(connected, start, lines, i, steamIdOf, prime, took);
      }
    }
    assert lines[..|lines|] == lines;
  }

  /** `HandlePaste`: clipboard text that is white space only is ignored.
      Otherwise it is cut at `"\r\n"`, `"\r"` and `"\n"`, keeping empty
      lines. */
  method HandlePaste(store: AccountStore?, clipboard: string, steamIdOf: string -> string, prime: string -> bool)
    returns (added: nat)
    requires store != null ==> store.Valid()
    modifies store
    ensures IsBlank(clipboard) ==> added == 0 && (store != null ==> store.rows == old(store.rows))
    ensures store != null ==> store.Valid() && store.connected == old(store.connected)
    ensures store != null && !IsBlank(clipboard) ==>
      store.rows == ImportRows(store.connected, old(store.rows), Candidates(SplitLines(clipboard)), steamIdOf, prime)
      && added == |AcceptedOf(store.connected, Candidates(SplitLines(clipboard)), steamIdOf)|
  {
    if IsBlank(clipboard) {
      return 0;
    }
    added := ImportLines(store, SplitLines(clipboard), steamIdOf, prime);
  }

  /** `ImportAccountsFromText`, the target of a text drop. */
  method ImportAccountsFromText(store: AccountStore?, text: string, steamIdOf: string -> string, prime: string -> bool)
    returns (added: nat)
    requires store != null ==> store.Valid()
    modifies store
    ensures store == null ==> added == 0
    ensures store != null ==> store.Valid() && store.connected == old(store.connected)
    ensures store != null ==>
      store.rows == ImportRows(store.connected, old(store.rows), Candidates(SplitLines(text)), steamIdOf, prime)
      && added == |AcceptedOf(store.connected, Candidates(SplitLines(text)), steamIdOf)|
  {
    added := ImportLines(store, SplitLines(text), steamIdOf, prime);
  }

  /** `LoadFromFile`. `file` is the file's text as UTF-8 decoded, or `None`
      when `File.Exists` says no. The result is `None` in that case and the
      number of accounts added otherwise. */
  method LoadFromFile(store: AccountStore?, file: Option<string>, steamIdOf: string -> string, prime: string -> bool)
    returns (added: Option<nat>)
    requires store != null ==> store.Valid()
    modifies store
    ensures added.None? <==> file.None?
    ensures file.None? && store != null ==> store.rows == old(store.rows)
    ensures store == null ==> added.None? || added == Some(0)
    ensures store != null ==> store.Valid() && store.connected == old(store.connected)
    ensures store != null && file.Some? ==>
      store.rows == ImportRows(store.connected, old(store.rows), Candidates(ReadAllLines(file.value)), steamIdOf, prime)
      && added == Some(|AcceptedOf(store.connected, Candidates(ReadAllLines(file.value)), steamIdOf)|)
  {
    if file.None? {
      return None;
    }
    var n := ImportLines(store, ReadAllLines(file.value), steamIdOf, prime);
    added := Some(n);
  }

  // ---------------------------------------------------------------------
  // Export

  /** The token export writes for an account. It is the account's own token
      unless that is white space only. Then it is the stored token, unless
      that is missing or white space only too. */
  function ExportToken(a: Account, stored: Option<string>): (t: Option<string>)
    ensures t.Some? ==> !IsBlank(t.value)
    ensures !IsBlank(a.token) ==> t == Some(a.token)
    ensures IsBlank(a.token) && stored.Some? && !IsBlank(stored.value) ==> t == stored
    ensures IsBlank(a.token) && (stored.None? || IsBlank(stored.value)) ==> t.None?
  {
    if !IsBlank(a.token) then Some(a.token)
    else if stored.Some? && !IsBlank(stored.value) then stored
    else None
  }

  /** The entry export writes for one account, if any: none for a username
      that is white space only. `stored` is what `GetToken` answers. */
  function ExportEntry(a: Account, stored: Option<string>): (c: Option<Credential>)
    ensures c.Some? ==> c.value.username == a.username && !IsBlank(a.username) && !IsBlank(c.value.token)
  {
    if IsBlank(a.username) then None
    else match ExportToken(a, stored)
      case None => None
      case Some(t) => Some(Credential(a.username, t))
  }

  /** The entries export writes, in the order of the accounts. */
  function ExportEntries(accounts: seq<Account>, connected: bool, rows: seq<Row>): (cs: seq<Credential>)
    ensures |cs| <= |accounts|
  {
    if accounts == [] then []
    else
      var rest := ExportEntries(accounts[..|accounts| - 1], connected, rows);
      var a := accounts[|accounts| - 1];
      match ExportEntry(a, if connected then TokenOf(rows, a.username) else None)
      case None => rest
      case Some(c) => rest + [c]
  }

  /** Every entry written has a username and a token that are not white
      space only, and there is at most one entry per account. */
  lemma {:induction false} ExportEntriesUsable(accounts: seq<Account>, connected: bool, rows: seq<Row>)
    ensures |ExportEntries(accounts, connected, rows)| <= |accounts|
    ensures forall k | 0 <= k < |ExportEntries(accounts, connected, rows)| ::
      !IsBlank(ExportEntries(accounts, connected, rows)[k].username)
      && !IsBlank(ExportEntries(accounts, connected, rows)[k].token)
    decreases |accounts|
  {
    if accounts != [] {
      ExportEntriesUsable(accounts[..|accounts| - 1], connected, rows);
    }
  }

  /** One more account adds its entry, if it has one. */
  lemma ExportStep(accounts: seq<Account>, connected: bool, rows: seq<Row>, i: nat)
    requires i < |accounts|
    ensures var e := ExportEntry(accounts[i], if connected then TokenOf(rows, accounts[i].username) else None);
      ExportEntries(accounts[..i + 1], connected, rows) ==
        if e.Some? then ExportEntries(accounts[..i], connected, rows) + [e.value]
        else ExportEntries(accounts[..i], connected, rows)
  {
    assert accounts[..i + 1][..i] == accounts[..i];
  }

  /** When every account carries a usable username and token, export writes
      one entry per account: its own username and token. */
  lemma {:induction false} ExportEveryAccount(accounts: seq<Account>, connected: bool, rows: seq<Row>)
    requires forall k | 0 <= k < |accounts| :: !IsBlank(accounts[k].username) && !IsBlank(accounts[k].token)
    ensures |ExportEntries(accounts, connected, rows)| == |accounts|
    ensures forall k | 0 <= k < |accounts| ::
      ExportEntries(accounts, connected, rows)[k] == Credential(accounts[k].username, accounts[k].token)
    decreases |accounts|
  {
    if accounts != [] {
      var n := |accounts|;
      var init, a := accounts[..n - 1], accounts[n - 1];
      assert forall k | 0 <= k < n - 1 :: init[k] == accounts[k];
      ExportEveryAccount(init, connected, rows);
      var c := Credential(a.username, a.token);
      assert ExportEntry(a, if connected then TokenOf(rows, a.username) else None) == Some(c);
      var rest := ExportEntries(init, connected, rows);
      assert ExportEntries(accounts, connected, rows) == rest + [c];
    }
  }

  /** What the export handler ends with. */
  datatype ExportResult =
    | NotInitialized              // `_dbHelper` is null
    | NothingToExport             // the grid holds no account
    | Cancelled                   // the save dialog was dismissed
    | Exported(text: string, count: nat)

  /** `ExportButton_Click`. `accepted` is the save dialog's answer. The
      result holds the file text and `exportedCount`. */
  method Export(store: AccountStore?, accounts: seq<Account>, accepted: bool) returns (r: ExportResult)
    ensures store == null <==> r == NotInitialized
    ensures store != null && accounts == [] ==> r == NothingToExport
    ensures store != null && accounts != [] && !accepted ==> r == Cancelled
    ensures store != null && accounts != [] && accepted ==>
      var cs := ExportEntries(accounts, store.connected, store.rows);
      r == Exported(WriteLines(FormatLines(cs)), |cs|)
  {
    if store == null {
      return NotInitialized;
    }
    if |accounts| == 0 {
      return NothingToExport;
    }
    if !accepted {
      return Cancelled;
    }
    var text := "";
    var count := 0;
    ghost var connected, rows := store.connected, store.rows;
    for i := 0 to |accounts|
      invariant text == WriteLines(FormatLines(ExportEntries(accounts[..i], connected, rows)))
      invariant count == |ExportEntries(accounts[..i], connected, rows)|
    {
      ghost var previous := ExportEntries(accounts[..i], connected, rows);
      var a := accounts[i];
      ghost var e := ExportEntry(a, if connected then TokenOf(rows, a.username) else None);
      ExportStep(accounts, connected, rows, i);
      if !IsBlank(a.username) {
        var token := a.token;
        if IsBlank(token) {
          var stored := store.GetToken(a.username);
          token := if stored.Some? then stored.value else "";
        }
        if !IsBlank(token) {
          var c := Credential(a.username, token);
          assert e == Some(c);
          ExportAppend(previous, c);
          text := text + FormatLine(c) + NewLine;
          count := count + 1;
        } else {
          assert e.None?;
        }
      }
    }
    assert accounts[..|accounts|] == accounts;
    r := Exported(text, count);
  }

  /** `exportedCount` is the number of lines in the written file when no
      exported field holds a line break. */
  lemma ExportedCountIsLineCount(cs: seq<Credential>)
    requires forall k | 0 <= k < |cs| :: HasNoLineBreak(cs[k].username) && HasNoLineBreak(cs[k].token)
    ensures |ReadAllLines(WriteLines(FormatLines(cs)))| == |cs|
  {
    forall k | 0 <= k < |cs| ensures HasNoLineBreak(FormatLines(cs)[k]) {
      var c := cs[k];
      var line := c.username + Separator + c.token;
      forall i | 0 <= i < |line| ensures !IsLineBreak(line[i]) {
        if i < |c.username| {
          assert line[i] == c.username[i];
        } else if i >= |c.username| + 4 {
          assert line[i] == c.token[i - |c.username| - 4];
        }
      }
    }
    ReadWritten(FormatLines(cs));
  }

  // ---------------------------------------------------------------------
  // Login

  /** The account passed in, or the grid's selection. */
  datatype Selection = Given(account: Account) | Selected(items: seq<Account>)

  /** The account `LoginToAccount` proceeds with: a given one, or the only
      selected one. */
  function Chosen(sel: Selection): (a: Option<Account>)
    ensures a.Some? <==> sel.Given? || |sel.items| == 1
    ensures sel.Given? ==> a == Some(sel.account)
    ensures sel.Selected? && a.Some? ==> a.value == sel.items[0]
  {
    match sel
    case Given(account) => Some(account)
    case Selected(items) => if |items| == 1 then Some(items[0]) else None
  }

  /** The login `LoginToAccount` starts, if any: `None` when no single
      account is chosen or no token is stored for it. */
  function LoginAttempt(sel: Selection, connected: bool, rows: seq<Row>, startSteam: bool, h: Host): (r: Option<Outcome>)
    requires ValidHost(h)
    ensures r.Some? <==> Chosen(sel).Some? && connected && HasUser(rows, Chosen(sel).value.username)
  {
    match Chosen(sel)
    case None => None
    case Some(a) =>
      TokenOfFound(rows, a.username);
      if !connected then None
      else match TokenOf(rows, a.username)
        case None => None
        case Some(token) => Some(LoginSpec(a.username, token, startSteam, h))
  }

  /** `LoginToAccount`. It returns true exactly when `DoLogin` reports
      `"Success"`. The effects are those `DoLogin` carried out, and none when
      it was not called. */
  method LoginToAccount(table: array<u32>, store: AccountStore?, sel: Selection, startSteam: bool, h: Host)
    returns (ok: bool, effects: seq<Effect>)
    requires IsCrcTable(table) && ValidHost(h)
    ensures var r := LoginAttempt(sel, store != null && store.connected,
                                  if store != null then store.rows else [], startSteam, h);
      && (ok <==> r.Some? && r.value.success)
      && effects == (if r.Some? then r.value.effects else [])
  {
    ok, effects := false, [];
    var account: Option<Account> := None;
    match sel {
      case Given(a) =>
        account := Some(a);
      case Selected(items) =>
        if |items| == 0 {
          // "select an account" message
        } else if |items| > 1 {
          // "select only one account" message
        } else {
          account := Some(items[0]);
        }
    }
    assert account == Chosen(sel);
    ghost var connected, rows := store != null && store.connected, if store != null then store.rows else [];
    if account.Some? && store != null {
      var token := store.GetToken(account.value.username);
      if token.Some? {
        ghost var r := LoginSpec(account.value.username, token.value, startSteam, h);
        assert LoginAttempt(sel, connected, rows, startSteam, h) == Some(r);
        var status, message;
        status, message, effects := DoLogin(table, account.value.username, token.value, startSteam, h);
        assert status == "Success" <==> r.success by {
          assert "Error"[0] != "Success"[0];
        }
        ok := status == "Success";
      } else {
        assert LoginAttempt(sel, connected, rows, startSteam, h).None?;
      }
    } else {
      assert LoginAttempt(sel, connected, rows, startSteam, h).None?;
    }
  }

  /** With no selection or several selected accounts, nothing happens. */
  lemma SelectionMustBeSingle(items: seq<Account>, connected: bool, rows: seq<Row>, startSteam: bool, h: Host)
    requires ValidHost(h) && |items| != 1
    ensures LoginAttempt(Selected(items), connected, rows, startSteam, h).None?
  {
  }

  /** A login reported as successful logged in with the chosen account's stored
      token. It set the registry value and completed every file write. */
  lemma LoginSucceeded(sel: Selection, connected: bool, rows: seq<Row>, startSteam: bool, h: Host)
    requires ValidHost(h)
    requires var r := LoginAttempt(sel, connected, rows, startSteam, h); r.Some? && r.value.success
    ensures Chosen(sel).Some? && connected && TokenOf(rows, Chosen(sel).value.username).Some?
    ensures TokenCheck(TokenOf(rows, Chosen(sel).value.username).value, h.codecs).Ok?
    ensures h.installPath != "" && h.registry == ValueSet && AllWritten(h)
  {
    var a := Chosen(sel).value;
    SuccessMeansConfigured(a.username, TokenOf(rows, a.username).value, startSteam, h);
  }

  // ---------------------------------------------------------------------
  // Deleting

  /** The table after `DeleteAccount` was called for each name in turn. */
  function RemoveAll(rows: seq<Row>, names: seq<string>): (left: seq<Row>)
    ensures |left| <= |rows|
  {
    if names == [] then rows
    else
      RemoveUserSubset(RemoveAll(rows, names[..|names| - 1]), names[|names| - 1]);
      RemoveUser(RemoveAll(rows, names[..|names| - 1]), names[|names| - 1])
  }

  /** After the deletions none of the names is left, only rows of the table
      remain, and usernames stay unique. */
  lemma {:induction false} RemoveAllFacts(rows: seq<Row>, names: seq<string>)
    ensures |RemoveAll(rows, names)| <= |rows|
    ensures forall i | 0 <= i < |RemoveAll(rows, names)| :: RemoveAll(rows, names)[i] in rows
    ensures forall k | 0 <= k < |names| :: !HasUser(RemoveAll(rows, names), names[k])
    ensures UniqueUsernames(rows) ==> UniqueUsernames(RemoveAll(rows, names))
    decreases |names|
  {
    if names != [] {
      var init, last := names[..|names| - 1], names[|names| - 1];
      var rest := RemoveAll(rows, init);
      var r := RemoveUser(rest, last);
      assert RemoveAll(rows, names) == r;
      RemoveAllFacts(rows, init);
      RemoveUserSubset(rest, last);
      forall k | 0 <= k < |names| - 1 ensures !HasUser(r, names[k]) {
        assert names[k] == init[k];
      }
      if UniqueUsernames(rows) {
        RemoveUserUnique(rest, last);
      }
    }
  }

  /** How many of those calls returned true. */
  function DeletedCount(rows: seq<Row>, names: seq<string>): (n: nat)
    ensures n <= |names|
  {
    if names == [] then 0
    else
      DeletedCount(rows, names[..|names| - 1])
      + (if HasUser(RemoveAll(rows, names[..|names| - 1]), names[|names| - 1]) then 1 else 0)
  }

  /** Each true answer removed exactly one row, so the count is the number of
      rows that went. */
  lemma {:induction false} DeletedCountIsRowsRemoved(rows: seq<Row>, names: seq<string>)
    requires UniqueUsernames(rows)
    ensures DeletedCount(rows, names) == |rows| - |RemoveAll(rows, names)|
    decreases |names|
  {
    if names != [] {
      var rest := RemoveAll(rows, names[..|names| - 1]);
      DeletedCountIsRowsRemoved(rows, names[..|names| - 1]);
      RemoveAllFacts(rows, names[..|names| - 1]);
      if HasUser(rest, names[|names| - 1]) {
        RemoveUserCount(rest, names[|names| - 1]);
      } else {
        RemoveUserSubset(rest, names[|names| - 1]);
      }
    }
  }

  /** Rows whose username is not among the names keep their token. */
  lemma {:induction false} RemoveAllKeepsOthers(rows: seq<Row>, names: seq<string>, username: string)
    requires username !in names
    ensures TokenOf(RemoveAll(rows, names), username) == TokenOf(rows, username)
    decreases |names|
  {
    if names != [] {
      assert username !in names[..|names| - 1];
      RemoveAllKeepsOthers(rows, names[..|names| - 1], username);
      RemoveUserTokens(RemoveAll(rows, names[..|names| - 1]), names[|names| - 1], username);
    }
  }

  function Usernames(accounts: seq<Account>): (names: seq<string>)
    ensures |names| == |accounts|
    ensures forall k | 0 <= k < |accounts| :: names[k] == accounts[k].username
  {
    seq(|accounts|, k requires 0 <= k < |accounts| => accounts[k].username)
  }

  /** One more name: one more `DeleteAccount` call, counted when `ok`, its
      answer, is true. */
  lemma DeleteStep(rows: seq<Row>, names: seq<string>, i: nat, ok: bool)
    requires i < |names|
    requires ok <==> HasUser(RemoveAll(rows, names[..i]), names[i])
    ensures RemoveAll(rows, names[..i + 1]) == RemoveUser(RemoveAll(rows, names[..i]), names[i])
    ensures DeletedCount(rows, names[..i + 1]) == DeletedCount(rows, names[..i]) + (if ok then 1 else 0)
  {
    assert names[..i + 1][..i] == names[..i];
  }

  /** The loop of both delete handlers. It counts the `DeleteAccount` calls
      that returned true, and skips every name when `_dbHelper` is null. */
  method DeleteEach(store: AccountStore?, names: seq<string>) returns (deleted: nat)
    requires store != null ==> store.Valid()
    modifies store
    ensures store == null ==> deleted == 0
    ensures store != null ==> store.Valid() && store.connected == old(store.connected)
    ensures store != null ==>
      store.rows == (if store.connected then RemoveAll(old(store.rows), names) else old(store.rows))
      && deleted == (if store.connected then DeletedCount(old(store.rows), names) else 0)
  {
    deleted := 0;
    var i := 0;
    while i < |names|
      invariant 0 <= i <= |names|
      invariant store == null ==> deleted == 0
      invariant store != null ==> store.Valid() && store.connected == old(store.connected)
      invariant store != null && store.connected ==>
        store.rows == RemoveAll(old(store.rows), names[..i]) && deleted == DeletedCount(old(store.rows), names[..i])
      invariant store != null && !store.connected ==> store.rows == old(store.rows) && deleted == 0
    {
      if store != null {
        var ok := store.DeleteAccount(names[i]);
        if ok {
          deleted := deleted + 1;
        }
        if store.connected {
          DeleteStep(old(store.rows), names, i, ok);
        }
      }
      i := i + 1;
    }
    assert names[..i] == names;
  }

  /** What the clear-all handler ends with. */
  datatype ClearResult = NoAccounts | ClearDeclined | ClearNotInitialized | Cleared(count: nat)

  /** The clear-all handler over the accounts in the grid. `confirmed` is the
      answer to its question. */
  method ClearAll(store: AccountStore?, accounts: seq<Account>, confirmed: bool) returns (r: ClearResult)
    requires store != null ==> store.Valid()
    modifies store
    ensures accounts == [] ==> r == NoAccounts
    ensures accounts != [] && !confirmed ==> r == ClearDeclined
    ensures accounts != [] && confirmed && store == null ==> r == ClearNotInitialized
    ensures !r.Cleared? && store != null ==> store.rows == old(store.rows)
    ensures store != null ==> store.Valid() && store.connected == old(store.connected)
    ensures store != null && accounts != [] && confirmed ==>
      var names := Usernames(accounts);
      store.rows == (if store.connected then RemoveAll(old(store.rows), names) else old(store.rows))
      && r == Cleared(if store.connected then DeletedCount(old(store.rows), names) else 0)
  {
    if |accounts| == 0 {
      return NoAccounts;
    }
    if !confirmed {
      return ClearDeclined;
    }
    if store == null {
      return ClearNotInitialized;
    }
    var n := DeleteEach(store, Usernames(accounts));
    r := Cleared(n);
  }

  /** What the delete-selected handler ends with. */
  datatype DeleteResult = NoSelection | DeleteDeclined | Deleted(count: nat)

  /** The delete-selected handler. */
  method DeleteSelectedRows(store: AccountStore?, selected: seq<Account>, confirmed: bool) returns (r: DeleteResult)
    requires store != null ==> store.Valid()
    modifies store
    ensures selected == [] ==> r == NoSelection
    ensures selected != [] && !confirmed ==> r == DeleteDeclined
    ensures !r.Deleted? && store != null ==> store.rows == old(store.rows)
    ensures store == null && selected != [] && confirmed ==> r == Deleted(0)
    ensures store != null ==> store.Valid() && store.connected == old(store.connected)
    ensures store != null && selected != [] && confirmed ==>
      var names := Usernames(selected);
      store.rows == (if store.connected then RemoveAll(old(store.rows), names) else old(store.rows))
      && r == Deleted(if store.connected then DeletedCount(old(store.rows), names) else 0)
  {
    if |selected| == 0 {
      return NoSelection;
    }
    if !confirmed {
      return DeleteDeclined;
    }
    var n := DeleteEach(store, Usernames(selected));
    r := Deleted(n);
  }
}
