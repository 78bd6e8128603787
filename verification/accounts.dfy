/** `Models/Account.cs`: an account as the window shows it. */
module Models {
  /** A fresh `Account` has empty strings and `IsPrime == false`. */
  datatype Account = Account(
    username: string,
    steamId: string,
    token: string,
    isPrime: bool,
    profilePictureUrl: string)
}

/**
 * `DatabaseHelper`: the `accounts` table of the SQLite file, as far as the
 * account switcher uses it.
 *
 * The table is `accounts(id INTEGER PRIMARY KEY AUTOINCREMENT, username TEXT
 * NOT NULL UNIQUE, steamid, token, is_prime, …)`. Its rows are kept in
 * insertion (rowid) order; the UNIQUE constraint is the `Valid` invariant.
 * The connection is either open or absent (`_connection == null`).
 */
module Database {
  import opened Wrappers
  import opened TextUtil
  import opened Models

  datatype Row = Row(username: string, steamId: string, token: string, isPrime: bool)

  /** No two rows share a username. */
  predicate UniqueUsernames(rows: seq<Row>) {
    forall i, j | 0 <= i < j < |rows| :: rows[i].username != rows[j].username
  }

  predicate HasUser(rows: seq<Row>, username: string) {
    exists i | 0 <= i < |rows| :: rows[i].username == username
  }

  /** `SELECT token FROM accounts WHERE username = @username`. */
  function TokenOf(rows: seq<Row>, username: string): (r: Option<string>)
    ensures r.Some? <==> HasUser(rows, username)
  {
    if rows == [] then None
    else if rows[0].username == username then Some(rows[0].token)
    else TokenOf(rows[1..], username)
  }

  /** A token is found exactly when a row carries the name, and it is that
      row's token. */
  lemma {:induction false} TokenOfFound(rows: seq<Row>, username: string)
    ensures TokenOf(rows, username).Some? <==> HasUser(rows, username)
    ensures TokenOf(rows, username).Some? ==> exists i | 0 <= i < |rows| ::
      rows[i].username == username && rows[i].token == TokenOf(rows, username).value
  {
    if rows != [] && rows[0].username != username {
      TokenOfFound(rows[1..], username);
      assert forall i | 1 <= i < |rows| :: rows[i] == rows[1..][i - 1];
      assert HasUser(rows[1..], username) ==> HasUser(rows, username);
    }
  }

  /** In a table with unique usernames, the token found is the one of the
      row carrying the name. */
  lemma {:induction false} TokenOfRow(rows: seq<Row>, i: nat)
    requires UniqueUsernames(rows) && i < |rows|
    ensures TokenOf(rows, rows[i].username) == Some(rows[i].token)
  {
    if i > 0 {
      assert rows[0].username != rows[i].username;
      assert rows[1..][i - 1] == rows[i];
      TokenOfRow(rows[1..], i - 1);
    }
  }

  /** The input guards of `AddAccount`: an open connection, a username and a
      token that are not white space only, at most 255 and 2000 UTF-16 code
      units long. */
  predicate AddAccepted(connected: bool, username: string, token: string): (ok: bool)
    ensures ok ==> 1 <= |username| <= 255 && 1 <= |token| <= 2000
  {
    && connected
    && !IsBlank(username) && !IsBlank(token)
    && Utf16Length(username) <= 255 && Utf16Length(token) <= 2000
  }

  /** `INSERT OR IGNORE`: a new username is appended; an existing one leaves
      the table as it was. */
  function InsertOrIgnore(rows: seq<Row>, row: Row): (r: seq<Row>)
    ensures HasUser(rows, row.username) ==> r == rows
    ensures !HasUser(rows, row.username) ==> r == rows + [row]
    ensures UniqueUsernames(rows) ==> UniqueUsernames(r)
    ensures HasUser(r, row.username)
  {
    if HasUser(rows, row.username) then rows
    else
      assert (rows + [row])[|rows|] == row;
      rows + [row]
  }

  /** After an insert the name is present; its token is the inserted one for
      a new name and the stored one otherwise; other names keep their token. */
  lemma InsertOrIgnoreTokens(rows: seq<Row>, row: Row, other: string)
    requires UniqueUsernames(rows)
    ensures HasUser(rows, row.username) ==> TokenOf(InsertOrIgnore(rows, row), row.username) == TokenOf(rows, row.username)
    ensures !HasUser(rows, row.username) ==> TokenOf(InsertOrIgnore(rows, row), row.username) == Some(row.token)
    ensures other != row.username ==> TokenOf(InsertOrIgnore(rows, row), other) == TokenOf(rows, other)
  {
    var r := InsertOrIgnore(rows, row);
    if !HasUser(rows, row.username) {
      TokenOfRow(r, |rows|);
      if other != row.username {
        TokenOfAppend(rows, row, other);
      }
    }
  }

  lemma {:induction false} TokenOfAppend(rows: seq<Row>, row: Row, other: string)
    requires other != row.username
    ensures TokenOf(rows + [row], other) == TokenOf(rows, other)
  {
    if rows == [] {
      assert TokenOf([row][1..], other) == None;
    } else {
      assert (rows + [row])[1..] == rows[1..] + [row];
      TokenOfAppend(rows[1..], row, other);
    }
  }

  /** `DELETE FROM accounts WHERE username = @username`: the other rows, in
      their order. */
  function RemoveUser(rows: seq<Row>, username: string): (r: seq<Row>)
    ensures !HasUser(r, username)
  {
    if rows == [] then []
    else
      var tail := RemoveUser(rows[1..], username);
      if rows[0].username == username then tail else [rows[0]] + tail
  }

  /** Removing a name keeps only rows of the table, never adds one, and a
      name that is not there changes nothing. */
  lemma {:induction false} RemoveUserSubset(rows: seq<Row>, username: string)
    ensures |RemoveUser(rows, username)| <= |rows|
    ensures forall i | 0 <= i < |RemoveUser(rows, username)| :: RemoveUser(rows, username)[i] in rows
    ensures !HasUser(rows, username) ==> RemoveUser(rows, username) == rows
  {
    if rows != [] {
      RemoveUserSubset(rows[1..], username);
      assert forall i | 1 <= i < |rows| :: rows[i] == rows[1..][i - 1];
      assert rows == [rows[0]] + rows[1..];
    }
  }

  /** Dropping the first row keeps usernames unique. */
  lemma UniqueTail(rows: seq<Row>)
    requires rows != [] && UniqueUsernames(rows)
    ensures UniqueUsernames(rows[1..])
    ensures !HasUser(rows[1..], rows[0].username)
  {
    forall i, j | 0 <= i < j < |rows| - 1 ensures rows[1..][i].username != rows[1..][j].username {
      assert rows[1..][i] == rows[i + 1] && rows[1..][j] == rows[j + 1];
    }
    forall i | 0 <= i < |rows| - 1 ensures rows[1..][i].username != rows[0].username {
      assert rows[1..][i] == rows[i + 1];
    }
  }

  /** Removing a name keeps usernames unique. */
  lemma {:induction false} RemoveUserUnique(rows: seq<Row>, username: string)
    requires UniqueUsernames(rows)
    ensures UniqueUsernames(RemoveUser(rows, username))
  {
    if rows != [] {
      UniqueTail(rows);
      RemoveUserUnique(rows[1..], username);
      RemoveUserSubset(rows[1..], username);
      var tail := RemoveUser(rows[1..], username);
      if rows[0].username != username {
        var r := [rows[0]] + tail;
        forall i, j | 0 <= i < j < |r| ensures r[i].username != r[j].username {
          assert r[j] == tail[j - 1];
          if i == 0 {
            assert tail[j - 1] in rows[1..];
            var m :| 0 <= m < |rows| - 1 && rows[1..][m] == tail[j - 1];
          } else {
            assert r[i] == tail[i - 1];
          }
        }
      }
    }
  }

  /** In a table with unique usernames, removing a present name removes
      exactly one row. */
  lemma {:induction false} RemoveUserCount(rows: seq<Row>, username: string)
    requires UniqueUsernames(rows) && HasUser(rows, username)
    ensures |RemoveUser(rows, username)| == |rows| - 1
  {
    UniqueTail(rows);
    if rows[0].username == username {
      RemoveUserSubset(rows[1..], username);
    } else {
      var k :| 0 <= k < |rows| && rows[k].username == username;
      assert rows[1..][k - 1] == rows[k];
      RemoveUserCount(rows[1..], username);
    }
  }

  /** Removing a name leaves every other name's token alone. */
  lemma {:induction false} RemoveUserTokens(rows: seq<Row>, username: string, other: string)
    requires other != username
    ensures TokenOf(RemoveUser(rows, username), other) == TokenOf(rows, other)
  {
    if rows != [] {
      RemoveUserTokens(rows[1..], username, other);
      var tail := RemoveUser(rows[1..], username);
      if rows[0].username != username {
        assert ([rows[0]] + tail)[1..] == tail;
      }
    }
  }

  /** The account the grid shows for a row; `avatar` stands for
      `GetSteamAvatarUrl`, a web lookup. */
  function AccountOf(row: Row, avatar: string -> string): (a: Account)
    ensures a.username == row.username && a.steamId == row.steamId && a.token == row.token
    ensures a.isPrime == row.isPrime && a.profilePictureUrl == avatar(row.steamId)
  {
    Account(row.username, row.steamId, row.token, row.isPrime, avatar(row.steamId))
  }

  /** `DatabaseHelper.InitializeDatabase`'s handling of the absolute path:
      `'/'` becomes `'\'`, trailing `'\'`s are trimmed when the path is
      longer than three code units and ends with one, and the path must end
      with `.db` in any letter case. `None` stands for the exception. */
  function NormalizeDbPath(path: string): (r: Option<string>)
    ensures r.Some? ==> '/' !in r.value
    ensures r.Some? ==> EndsWithIgnoreCaseAscii(r.value, ".db")
    ensures r.Some? ==> r.value <= ReplaceChar(path, '/', '\\')
    ensures r.Some? ==> forall i | |r.value| <= i < |path| :: ReplaceChar(path, '/', '\\')[i] == '\\'
    ensures IsBlank(path) ==> r.None?
  {
    if IsBlank(path) then None
    else
      var p := ReplaceChar(path, '/', '\\');
      var q := if Utf16Length(p) > 3 && EndsWith(p, "\\") then TrimEndChar(p, '\\') else p;
      if EndsWithIgnoreCaseAscii(q, ".db") then Some(q) else None
  }

  /** `s.Replace(a, b)` for characters. */
  function ReplaceChar(s: string, a: char, b: char): (r: string)
    ensures |r| == |s|
    ensures forall i | 0 <= i < |s| :: r[i] == if s[i] == a then b else s[i]
  {
    seq(|s|, i requires 0 <= i < |s| => if s[i] == a then b else s[i])
  }

  /** `s.TrimEnd(c)`: removes every trailing occurrence of `c`. */
  function TrimEndChar(s: string, c: char): (r: string)
    ensures r <= s
    ensures forall i | |r| <= i < |s| :: s[i] == c
    ensures r == [] || r[|r| - 1] != c
    decreases |s|
  {
    if s != [] && s[|s| - 1] == c then TrimEndChar(s[..|s| - 1], c) else s
  }

  /** `s.EndsWith(p, StringComparison.OrdinalIgnoreCase)` for a suffix made of
      ASCII characters. */
  predicate EndsWithIgnoreCaseAscii(s: string, p: string) {
    |p| <= |s| && EqualsIgnoreCaseAscii(s[|s| - |p|..], p)
  }

  /** The result is exactly the path with `'/'` turned into `'\\'` and every
      trailing `'\\'` trimmed, accepted when that is not blank and ends with
      `.db`: the length guard on the trimming never changes the outcome. */
  lemma NormalizeDbPathExactly(path: string)
    ensures var t := TrimEndChar(ReplaceChar(path, '/', '\\'), '\\');
      NormalizeDbPath(path) == if !IsBlank(path) && EndsWithIgnoreCaseAscii(t, ".db") then Some(t) else None
  {
    TrimGuardIrrelevant(ReplaceChar(path, '/', '\\'));
  }

  /** Whether or not the trimming runs, the text that is tested for `.db` is
      accepted exactly when the fully trimmed text is, and is then that
      text. */
  lemma TrimGuardIrrelevant(p: string)
    ensures var q := if Utf16Length(p) > 3 && EndsWith(p, "\\") then TrimEndChar(p, '\\') else p;
      && (EndsWithIgnoreCaseAscii(q, ".db") <==> EndsWithIgnoreCaseAscii(TrimEndChar(p, '\\'), ".db"))
      && (EndsWithIgnoreCaseAscii(q, ".db") ==> q == TrimEndChar(p, '\\'))
  {
    var t := TrimEndChar(p, '\\');
    if p == [] || p[|p| - 1] != '\\' {
      assert !EndsWith(p, "\\") by {
        if p != [] {
          assert p[|p| - 1..][0] == p[|p| - 1];
        }
      }
    } else {
      assert EndsWith(p, "\\") by {
        assert p[|p| - 1..] == "\\";
      }
      if Utf16Length(p) <= 3 {
        assert !EndsWithIgnoreCaseAscii(p, ".db") by {
          assert ToLowerAscii(p[|p| - 1]) != 'b';
        }
        assert |t| < |p|;
      }
    }
  }

  /** A normalised path normalises to itself. */
  lemma NormalizeDbPathIdempotent(path: string)
    requires NormalizeDbPath(path).Some?
    ensures NormalizeDbPath(NormalizeDbPath(path).value) == NormalizeDbPath(path)
  {
    var q := NormalizeDbPath(path).value;
    assert ReplaceChar(q, '/', '\\') == q;
    assert q[|q| - 1] != '\\' by {
      assert ToLowerAscii(q[|q| - 1]) == 'b';
    }
    assert !IsBlank(q) by {
      assert !IsWhiteSpace(q[|q| - 1]);
    }
  }

  /** A path with no `'/'`, longer than three units, ending in `.db\\` loses
      its trailing separators and is accepted. */
  lemma TrailingSeparatorTrimmed(stem: string)
    requires '/' !in stem && |stem| >= 1
    ensures NormalizeDbPath(stem + ".db\\") == Some(stem + ".db")
  {
    var p := stem + ".db\\";
    var q := stem + ".db";
    assert !IsWhiteSpace(p[|p| - 2]);
    assert ReplaceChar(p, '/', '\\') == p;
    assert Utf16Length(p) > 3;
    assert EndsWith(p, "\\") by { assert p[|p| - 1..] == "\\"; }
    assert p[..|p| - 1] == q;
    assert TrimEndChar(q, '\\') == q;
    assert q[|q| - 3..] == ".db";
  }

  /**
   * The connection and its `accounts` table. `connected` is false when the
   * connection is null; every operation then reports failure.
   */
  class AccountStore {
    var connected: bool
    var rows: seq<Row>

    ghost predicate Valid()
      reads this
    {
      UniqueUsernames(rows)
    }

    constructor(connected: bool)
      ensures Valid() && this.connected == connected && rows == []
    {
      this.connected := connected;
      rows := [];
    }

    /** `GetToken(username)`: `None` for null. */
    function GetToken(username: string): (r: Option<string>)
      reads this
      ensures r.Some? <==> connected && HasUser(rows, username)
    {
      TokenOfFound(rows, username);
      if !connected then None else TokenOf(rows, username)
    }

    /** `AddAccount(username, token, steamId)`; `isPrime` is what
        `CheckPrimeStatus(steamId)`, a web lookup, answered. True when the
        guards pass, also when the username was already stored, in which
        case the stored row stays as it was. */
    method AddAccount(username: string, token: string, steamId: string, isPrime: bool) returns (ok: bool)
      requires Valid()
      modifies this
      ensures Valid() && connected == old(connected)
      ensures ok == AddAccepted(connected, username, token)
      ensures rows == if ok then InsertOrIgnore(old(rows), Row(username, steamId, token, isPrime)) else old(rows)
    {
      if !connected {
        return false;
      }
      if IsBlank(username) || IsBlank(token) {
        return false;
      }
      if Utf16Length(username) > 255 || Utf16Length(token) > 2000 {
        return false;
      }
      rows := InsertOrIgnore(rows, Row(username, steamId, token, isPrime));
      ok := true;
    }

    /** `DeleteAccount(username)`: true exactly when a row was deleted. */
    method DeleteAccount(username: string) returns (deleted: bool)
      requires Valid()
      modifies this
      ensures Valid() && connected == old(connected)
      ensures deleted <==> connected && HasUser(old(rows), username)
      ensures rows == if connected then RemoveUser(old(rows), username) else old(rows)
    {
      if !connected {
        return false;
      }
      deleted := HasUser(rows, username);
      RemoveUserUnique(rows, username);
      rows := RemoveUser(rows, username);
    }

    /** `GetAllAccounts`: one account per row, in row order. */
    method GetAllAccounts(avatar: string -> string) returns (accounts: seq<Account>)
      ensures connected ==> |accounts| == |rows|
      ensures !connected ==> accounts == []
      ensures forall i | 0 <= i < |accounts| :: accounts[i] == AccountOf(rows[i], avatar)
    {
      accounts := [];
      if !connected {
        return;
      }
      var i := 0;
      while i < |rows|
        invariant i <= |rows| && |accounts| == i
        invariant forall k | 0 <= k < i :: accounts[k] == AccountOf(rows[k], avatar)
      {
        accounts := accounts + [AccountOf(rows[i], avatar)];
        i := i + 1;
      }
    }
  }
}
