/**
 * The pure pieces of `ConfigHelper.DoLogin`: the account-name cut at `'@'`,
 * the `ConnectCache` key (`ComputeCrc32(name) + "1"`), the token payload
 * extraction of `ParseEya`, the hexadecimal rendering of the protected token
 * (`SteamEncrypt`) and the three documents written to disk.
 *
 * `Encoding.UTF8.GetString` and `ProtectedData.Protect` are library and
 * operating-system code; they are passed in as functions.
 */
module SteamConfig {
  import opened Wrappers
  import opened Bits
  import opened TextUtil
  import opened Hex
  import opened Crc32
  import Base64
  import opened Vdf

  /** The account name that `DoLogin` works with: the text before the first
      `'@'`, or the whole name when it has none. */
  function NormalizeAccountName(name: string): (r: string)
    ensures r <= name
    ensures '@' !in r
    ensures r == name || name[|r|] == '@'
    ensures '@' !in name ==> r == name
  {
    if '@' in name then Split(name, '@')[0] else name
  }

  /** Cutting again changes nothing. */
  lemma NormalizeIdempotent(name: string)
    ensures NormalizeAccountName(NormalizeAccountName(name)) == NormalizeAccountName(name)
  {
  }

  /** `ComputeCrc32`: the checksum of the UTF-8 bytes as `X8`, leading `'0'`s
      trimmed. */
  function CrcText(data: string): (r: string)
    ensures |r| <= 8
    ensures AllHexDigits(r) && forall i | 0 <= i < |r| :: IsUpperHexDigit(r[i])
    ensures r == [] || r[0] != '0'
    ensures HexValue(r) == Checksum(Utf8Encode(data))
  {
    var x8 := FormatX8(Checksum(Utf8Encode(data)));
    FormatX8RoundTrip(Checksum(Utf8Encode(data)));
    ValueTrimZeros(x8);
    UpperSuffix(x8, TrimStartChar(x8, '0'));
    TrimStartChar(x8, '0')
  }

  lemma UpperSuffix(s: string, r: string)
    requires |r| <= |s| && r == s[|s| - |r|..]
    requires forall i | 0 <= i < |s| :: IsUpperHexDigit(s[i])
    ensures forall i | 0 <= i < |r| :: IsUpperHexDigit(r[i])
  {
    forall i | 0 <= i < |r| ensures IsUpperHexDigit(r[i]) {
      assert r[i] == s[|s| - |r| + i];
    }
  }

  /** `ComputeCrc32` over the table-driven `Crc32.Compute`. */
  method ComputeCrc32(table: array<u32>, data: string) returns (r: string)
    requires IsCrcTable(table)
    ensures r == CrcText(data)
  {
    var crc := Compute(table, Utf8Encode(data));
    r := TrimStartChar(FormatX8(crc), '0');
  }

  /** The `ConnectCache` key for an account: `ComputeCrc32(name) + "1"`.
      It is one to eight upper-case hexadecimal digits without a leading
      zero, or none at all, followed by `'1'`; the digits read back as the
      checksum, and they are absent exactly when the checksum is zero. */
  function CacheKey(name: string): (k: string)
    ensures 1 <= |k| <= 9 && k[|k| - 1] == '1'
    ensures forall i | 0 <= i < |k| - 1 :: IsUpperHexDigit(k[i])
    ensures |k| > 1 ==> k[0] != '0'
    ensures AllHexDigits(k[..|k| - 1]) && HexValue(k[..|k| - 1]) == Checksum(Utf8Encode(name))
    ensures k == "1" <==> Checksum(Utf8Encode(name)) == 0
  {
    var digits := CrcText(name);
    assert (digits + "1")[..|digits|] == digits;
    if digits != [] then
      NonZeroLeadValue(digits);
      digits + "1"
    else
      digits + "1"
  }

  /** Digits that do not start with `'0'` denote a non-zero number. */
  lemma {:induction false} NonZeroLeadValue(s: string)
    requires AllHexDigits(s) && s != [] && s[0] != '0'
    ensures HexValue(s) != 0
    decreases |s|
  {
    if |s| > 1 {
      NonZeroLeadValue(s[..|s| - 1]);
    }
  }

  /** The key never holds a `"`, so it can be written into a document. */
  lemma CacheKeyQuoteFree(name: string)
    ensures '"' !in CacheKey(name)
  {
    var k := CacheKey(name);
    forall i | 0 <= i < |k| ensures k[i] != '"' {
      if i < |k| - 1 {
        assert IsUpperHexDigit(k[i]);
      }
    }
  }

  /** Pads the payload with `'='` to a multiple of four UTF-16 code units, as
      `payload += new string('=', 4 - padding)` does when `padding != 0`. */
  function PadPayload(p: string): (r: string)
    ensures p <= r
    ensures |r| - |p| <= 3
    ensures forall i | |p| <= i < |r| :: r[i] == '='
    ensures Utf16Length(r) % 4 == 0
    ensures Utf16Length(p) % 4 == 0 ==> r == p
  {
    var padding := Utf16Length(p) % 4;
    if padding == 0 then p
    else
      var pad := seq(4 - padding, _ => '=');
      PadLength(p, pad);
      p + pad
  }

  lemma PadLength(p: string, pad: string)
    requires forall i | 0 <= i < |pad| :: pad[i] == '='
    ensures Utf16Length(p + pad) == Utf16Length(p) + |pad|
  {
    Utf16LengthAppend(p, pad);
    AsciiUtf16Length(pad);
  }

  lemma {:induction false} AsciiUtf16Length(s: string)
    requires forall i | 0 <= i < |s| :: s[i] as int < 0x10000
    ensures Utf16Length(s) == |s|
    decreases |s|
  {
    if s != [] {
      AsciiUtf16Length(s[..|s| - 1]);
    }
  }

  /** The split-and-pad step shared by `ParseEya` and `JwtHelper.DecodeSteamId`:
      the token must split on `'.'` into exactly three segments, and the
      middle one is padded. */
  function TokenPayload(token: string): (r: Option<string>)
    ensures r.Some? <==> |Split(token, '.')| == 3
    ensures r.Some? ==> Split(token, '.')[1] <= r.value
    ensures r.Some? ==> Utf16Length(r.value) % 4 == 0
    ensures r.Some? ==> |r.value| - |Split(token, '.')[1]| <= 3
  {
    var parts := Split(token, '.');
    if |parts| != 3 then None else Some(PadPayload(parts[1]))
  }

  /** Exactly three segments means exactly two dots. */
  lemma TokenSegments(token: string)
    ensures TokenPayload(token).Some? <==> multiset(token)['.'] == 2
  {
  }

  /** `ParseEya`: the decoded payload text, or `""` when the token has the
      wrong shape or the payload is not base64. `utf8` is
      `Encoding.UTF8.GetString`, which replaces malformed input instead of
      failing. A non-empty result comes from a three-segment token whose
      padded payload decoded as standard base64. */
  function ParseEya(token: string, utf8: seq<byte> -> string): (r: string)
    ensures r != "" ==> |Split(token, '.')| == 3
    ensures r != "" ==> Base64.Decode(TokenPayload(token).value).Some?
    ensures r != "" ==> r == utf8(Base64.Decode(TokenPayload(token).value).value)
    ensures TokenPayload(token).Some? && Base64.Decode(TokenPayload(token).value).Some? ==>
      r == utf8(Base64.Decode(TokenPayload(token).value).value)
  {
    match TokenPayload(token)
    case None => ""
    case Some(payload) =>
      match Base64.Decode(payload)
      case None => ""
      case Some(bytes) => utf8(bytes)
  }

  /** A payload segment in base64url (section 5 of RFC 4648), carrying `-` or
      `_`, is rejected. */
  lemma ParseEyaRejectsUrlSafe(token: string, utf8: seq<byte> -> string, i: nat)
    requires |Split(token, '.')| == 3
    requires i < |Split(token, '.')[1]|
    requires Split(token, '.')[1][i] in "-_"
    ensures ParseEya(token, utf8) == ""
  {
    var payload := TokenPayload(token).value;
    assert payload[i] == Split(token, '.')[1][i];
    Base64.UrlSafeCharFails(payload, i);
  }

  /** `SteamEncrypt`: DPAPI-protect the UTF-8 token with the UTF-8 account
      name as entropy, and render the blob as lower-case hexadecimal; `None`
      when `protect` fails. */
  function SteamEncrypt(token: string, accountName: string,
                        protect: (seq<byte>, seq<byte>) -> Option<seq<byte>>): (r: Option<string>)
    ensures r.None? <==> protect(Utf8Encode(token), Utf8Encode(accountName)).None?
    ensures r.Some? ==> var blob := protect(Utf8Encode(token), Utf8Encode(accountName)).value;
      && AllLowerHexDigits(r.value)
      && |r.value| == 2 * |blob|
      && DecodePairs(r.value) == blob
  {
    match protect(Utf8Encode(token), Utf8Encode(accountName))
    case None => None
    case Some(blob) =>
      SteamHexRoundTrip(blob);
      Some(SteamHex(blob))
  }

  /** The rendered blob never holds a `"`. */
  lemma SteamHexQuoteFree(blob: seq<byte>)
    ensures '"' !in SteamHex(blob)
  {
    SteamHexRoundTrip(blob);
    var h := SteamHex(blob);
    forall i | 0 <= i < |h| ensures h[i] != '"' {
      assert IsLowerHexDigit(h[i]);
    }
  }

  /** The `MTBF` value: nine characters `'0' + random.Next(10)`; the draws
      are a parameter. */
  function Mtbf(draws: seq<int>): (r: string)
    requires |draws| == 9 && forall i | 0 <= i < 9 :: 0 <= draws[i] < 10
    ensures |r| == 9
    ensures forall i | 0 <= i < 9 :: '0' <= r[i] <= '9' && r[i] as int - '0' as int == draws[i]
  {
    seq(9, i requires 0 <= i < 9 => ('0' as int + draws[i]) as char)
  }

  /** `long.ToString()`: decimal digits, `'-'` in front of a negative value. */
  function DecimalText(n: int): (r: string)
    ensures r != []
  {
    if n < 0 then "-" + Digits(-n) else Digits(n)
  }

  function Digits(n: nat): (r: string)
    ensures r != [] && forall i | 0 <= i < |r| :: '0' <= r[i] <= '9'
  {
    if n < 10 then [('0' as int + n) as char]
    else Digits(n / 10) + [('0' as int + n % 10) as char]
  }

  /** The value decimal digits denote. */
  function DigitsValue(s: string): nat
    requires forall i | 0 <= i < |s| :: '0' <= s[i] <= '9'
  {
    if s == [] then 0 else 10 * DigitsValue(s[..|s| - 1]) + (s[|s| - 1] as int - '0' as int)
  }

  /** The digits read back as the number, with no superfluous leading zero. */
  lemma {:induction false} DigitsRoundTrip(n: nat)
    ensures DigitsValue(Digits(n)) == n
    ensures |Digits(n)| > 1 ==> Digits(n)[0] != '0'
  {
    if n >= 10 {
      DigitsRoundTrip(n / 10);
      var d := Digits(n);
      assert d[..|d| - 1] == Digits(n / 10);
    }
  }

  /** `BuildConfig`'s dictionary. */
  function ConfigTree(mtbf: string, steamId: string, accountName: string): seq<Entry> {
    [Entry("InstallConfigStore", Section([
      Entry("Software", Section([
        Entry("Valve", Section([
          Entry("Steam", Section([
            Entry("AutoUpdateWindowEnabled", Text("0")),
            Entry("Accounts", Section([
              Entry(accountName, Section([Entry("SteamID", Text(steamId))]))])),
            Entry("MTBF", Text(mtbf))]))]))]))]))]
  }

  /** The per-user fields of `loginusers.vdf`; `timestamp` is the current
      Unix time in seconds. */
  function UserFields(accountName: string, timestamp: int): seq<Entry> {
    [Entry("AccountName", Text(accountName)),
     Entry("PersonaName", Text("nicealts")),
     Entry("RememberPassword", Text("1")),
     Entry("WantsOfflineMode", Text("0")),
     Entry("SkipOfflineModeWarning", Text("0")),
     Entry("AllowAutoLogin", Text("1")),
     Entry("MostRecent", Text("1")),
     Entry("Timestamp", Text(DecimalText(timestamp)))]
  }

  /** `BuildLoginUsers`'s dictionary. */
  function LoginUsersTree(steamId: string, accountName: string, timestamp: int): seq<Entry> {
    [Entry("users", Section([Entry(steamId, Section(UserFields(accountName, timestamp)))]))]
  }

  /** `BuildLocal`'s dictionary. */
  function LocalTree(crc: string, jwt: string): seq<Entry> {
    [Entry("MachineUserConfigStore", Section([
      Entry("Software", Section([
        Entry("Valve", Section([
          Entry("Steam", Section([
            Entry("ConnectCache", Section([Entry(crc, Text(jwt))]))]))]))]))]))]
  }

  /** `BuildConfig`: the text of `config.vdf`. When no value holds a `"`,
      reading the text back recovers the dictionary. */
  function BuildConfig(mtbf: string, steamId: string, accountName: string): (text: string)
    ensures '"' !in mtbf && '"' !in steamId && '"' !in accountName ==>
      Parse(text) == Some(ConfigTree(mtbf, steamId, accountName))
  {
    var tree := ConfigTree(mtbf, steamId, accountName);
    if '"' !in mtbf && '"' !in steamId && '"' !in accountName then
      ConfigTreeQuoteFree(mtbf, steamId, accountName);
      ParseRender(tree);
      RenderEntries(tree, 0)
    else
      RenderEntries(tree, 0)
  }

  /** `BuildLoginUsers`: the text of `loginusers.vdf`. When neither the Steam
      ID nor the name holds a `"`, reading the text back recovers the
      dictionary. */
  function BuildLoginUsers(steamId: string, accountName: string, timestamp: int): (text: string)
    ensures '"' !in steamId && '"' !in accountName ==>
      Parse(text) == Some(LoginUsersTree(steamId, accountName, timestamp))
  {
    var tree := LoginUsersTree(steamId, accountName, timestamp);
    if '"' !in steamId && '"' !in accountName then
      LoginUsersTreeQuoteFree(steamId, accountName, timestamp);
      ParseRender(tree);
      RenderEntries(tree, 0)
    else
      RenderEntries(tree, 0)
  }

  /** `BuildLocal`: the text of `local.vdf`. When neither the key nor the
      token holds a `"`, reading the text back recovers the dictionary. */
  function BuildLocal(crc: string, jwt: string): (text: string)
    ensures '"' !in crc && '"' !in jwt ==> Parse(text) == Some(LocalTree(crc, jwt))
  {
    var tree := LocalTree(crc, jwt);
    if '"' !in crc && '"' !in jwt then
      LocalTreeQuoteFree(crc, jwt);
      ParseRender(tree);
      RenderEntries(tree, 0)
    else
      RenderEntries(tree, 0)
  }

  /** A one-entry section is quote-free when its entry is. */
  lemma QuoteFreeOne(e: Entry)
    requires QuoteFreeEntry(e)
    ensures QuoteFreeEntries([e])
  {
    assert [e][1..] == [];
  }

  lemma LocalTreeQuoteFree(crc: string, jwt: string)
    requires '"' !in crc && '"' !in jwt
    ensures QuoteFreeEntries(LocalTree(crc, jwt))
  {
    var cache := [Entry(crc, Text(jwt))];
    QuoteFreeOne(cache[0]);
    var steam := [Entry("ConnectCache", Section(cache))];
    QuoteFreeOne(steam[0]);
    var valve := [Entry("Steam", Section(steam))];
    QuoteFreeOne(valve[0]);
    var software := [Entry("Valve", Section(valve))];
    QuoteFreeOne(software[0]);
    var store := [Entry("Software", Section(software))];
    QuoteFreeOne(store[0]);
    QuoteFreeOne(Entry("MachineUserConfigStore", Section(store)));
  }

  /** `local.vdf` holds exactly one scalar, `crc` mapped to `jwt`, under
      `MachineUserConfigStore/Software/Valve/Steam/ConnectCache`. */
  lemma LocalDocument(crc: string, jwt: string)
    ensures Lookup(LocalTree(crc, jwt), ["MachineUserConfigStore", "Software", "Valve", "Steam", "ConnectCache"])
      == Some(Section([Entry(crc, Text(jwt))]))
  {
    var cache := [Entry(crc, Text(jwt))];
    var steam := [Entry("ConnectCache", Section(cache))];
    var valve := [Entry("Steam", Section(steam))];
    var software := [Entry("Valve", Section(valve))];
    var store := [Entry("Software", Section(software))];
    assert Lookup(steam, ["ConnectCache"]) == Some(Section(cache));
    assert Lookup(valve, ["Steam", "ConnectCache"]) == Some(Section(cache));
    assert Lookup(software, ["Valve", "Steam", "ConnectCache"]) == Some(Section(cache));
    assert Lookup(store, ["Software", "Valve", "Steam", "ConnectCache"]) == Some(Section(cache));
  }

  lemma QuoteFreeCons(e: Entry, rest: seq<Entry>)
    requires QuoteFreeEntry(e) && QuoteFreeEntries(rest)
    ensures QuoteFreeEntries([e] + rest)
  {
    assert ([e] + rest)[1..] == rest;
  }

  lemma TimestampQuoteFree(timestamp: int)
    ensures '"' !in DecimalText(timestamp)
  {
    var t := DecimalText(timestamp);
    if timestamp < 0 {
      var d := Digits(-timestamp);
      assert t == "-" + d;
      assert forall i | 1 <= i < |t| :: t[i] == d[i - 1];
    }
  }

  lemma UserFieldLiteralsQuoteFree()
    ensures '"' !in "AccountName" && '"' !in "PersonaName" && '"' !in "nicealts"
    ensures '"' !in "RememberPassword" && '"' !in "WantsOfflineMode" && '"' !in "SkipOfflineModeWarning"
    ensures '"' !in "AllowAutoLogin" && '"' !in "MostRecent" && '"' !in "Timestamp"
    ensures '"' !in "0" && '"' !in "1"
  {
    NameLiteralsQuoteFree();
    FlagLiteralsQuoteFree();
  }

  lemma NameLiteralsQuoteFree()
    ensures '"' !in "AccountName" && '"' !in "PersonaName" && '"' !in "nicealts"
    ensures '"' !in "AllowAutoLogin" && '"' !in "MostRecent" && '"' !in "Timestamp"
  {
  }

  lemma FlagLiteralsQuoteFree()
    ensures '"' !in "RememberPassword" && '"' !in "WantsOfflineMode" && '"' !in "SkipOfflineModeWarning"
    ensures '"' !in "0" && '"' !in "1"
  {
  }

  lemma UserFieldsQuoteFree(accountName: string, timestamp: int)
    requires '"' !in accountName
    ensures QuoteFreeEntries(UserFields(accountName, timestamp))
  {
    UserFieldLiteralsQuoteFree();
    TimestampQuoteFree(timestamp);
    var f8 := [Entry("Timestamp", Text(DecimalText(timestamp)))];
    QuoteFreeOne(f8[0]);
    var f7 := [Entry("MostRecent", Text("1"))] + f8;
    QuoteFreeCons(f7[0], f8);
    var f6 := [Entry("AllowAutoLogin", Text("1"))] + f7;
    QuoteFreeCons(f6[0], f7);
    var f5 := [Entry("SkipOfflineModeWarning", Text("0"))] + f6;
    QuoteFreeCons(f5[0], f6);
    var f4 := [Entry("WantsOfflineMode", Text("0"))] + f5;
    QuoteFreeCons(f4[0], f5);
    var f3 := [Entry("RememberPassword", Text("1"))] + f4;
    QuoteFreeCons(f3[0], f4);
    var f2 := [Entry("PersonaName", Text("nicealts"))] + f3;
    QuoteFreeCons(f2[0], f3);
    var f1 := [Entry("AccountName", Text(accountName))] + f2;
    QuoteFreeCons(f1[0], f2);
    assert UserFields(accountName, timestamp) == f1;
  }

  lemma LoginUsersTreeQuoteFree(steamId: string, accountName: string, timestamp: int)
    requires '"' !in steamId && '"' !in accountName
    ensures QuoteFreeEntries(LoginUsersTree(steamId, accountName, timestamp))
  {
    var fields := UserFields(accountName, timestamp);
    UserFieldsQuoteFree(accountName, timestamp);
    var user := Entry(steamId, Section(fields));
    QuoteFreeOne(user);
    QuoteFreeOne(Entry("users", Section([user])));
    assert LoginUsersTree(steamId, accountName, timestamp) == [Entry("users", Section([user]))];
  }

  lemma UserFieldValues(accountName: string, timestamp: int)
    ensures var fields := UserFields(accountName, timestamp);
      && Get(fields, "AccountName") == Some(Text(accountName))
      && Get(fields, "RememberPassword") == Some(Text("1"))
      && Get(fields, "AllowAutoLogin") == Some(Text("1"))
      && Get(fields, "MostRecent") == Some(Text("1"))
      && Get(fields, "WantsOfflineMode") == Some(Text("0"))
  {
    var fields := UserFields(accountName, timestamp);
    GetAt(fields, 0, "AccountName");
    GetAt(fields, 2, "RememberPassword");
    GetAt(fields, 3, "WantsOfflineMode");
    GetAt(fields, 5, "AllowAutoLogin");
    GetAt(fields, 6, "MostRecent");
  }

  /** `loginusers.vdf` keys `users` by the Steam ID, with the account name and
      the fixed flags under it. */
  lemma LoginUsersDocument(steamId: string, accountName: string, timestamp: int)
    ensures var users := LoginUsersTree(steamId, accountName, timestamp);
      && Lookup(users, ["users", steamId]) == Some(Section(UserFields(accountName, timestamp)))
      && Get(UserFields(accountName, timestamp), "AccountName") == Some(Text(accountName))
      && Get(UserFields(accountName, timestamp), "RememberPassword") == Some(Text("1"))
      && Get(UserFields(accountName, timestamp), "AllowAutoLogin") == Some(Text("1"))
      && Get(UserFields(accountName, timestamp), "MostRecent") == Some(Text("1"))
      && Get(UserFields(accountName, timestamp), "WantsOfflineMode") == Some(Text("0"))
  {
    var fields := UserFields(accountName, timestamp);
    var user := [Entry(steamId, Section(fields))];
    assert LoginUsersTree(steamId, accountName, timestamp) == [Entry("users", Section(user))];
    assert Lookup(user, [steamId]) == Some(Section(fields));
    UserFieldValues(accountName, timestamp);
  }

  lemma ConfigLiteralsQuoteFree()
    ensures '"' !in "InstallConfigStore" && '"' !in "Software" && '"' !in "Valve" && '"' !in "Steam"
    ensures '"' !in "AutoUpdateWindowEnabled" && '"' !in "Accounts" && '"' !in "SteamID" && '"' !in "MTBF"
    ensures '"' !in "0"
  {
  }

  lemma ConfigTreeQuoteFree(mtbf: string, steamId: string, accountName: string)
    requires '"' !in mtbf && '"' !in steamId && '"' !in accountName
    ensures QuoteFreeEntries(ConfigTree(mtbf, steamId, accountName))
  {
    ConfigLiteralsQuoteFree();
    var account := Entry("SteamID", Text(steamId));
    QuoteFreeOne(account);
    var accounts := Entry(accountName, Section([account]));
    QuoteFreeOne(accounts);
    var s3 := [Entry("MTBF", Text(mtbf))];
    QuoteFreeOne(s3[0]);
    var s2 := [Entry("Accounts", Section([accounts]))] + s3;
    QuoteFreeCons(s2[0], s3);
    var steam := [Entry("AutoUpdateWindowEnabled", Text("0"))] + s2;
    QuoteFreeCons(steam[0], s2);
    var valve := Entry("Steam", Section(steam));
    QuoteFreeOne(valve);
    var software := Entry("Valve", Section([valve]));
    QuoteFreeOne(software);
    var store := Entry("Software", Section([software]));
    QuoteFreeOne(store);
    QuoteFreeOne(Entry("InstallConfigStore", Section([store])));
    assert steam == [Entry("AutoUpdateWindowEnabled", Text("0")), Entry("Accounts", Section([accounts])), Entry("MTBF", Text(mtbf))];
    assert ConfigTree(mtbf, steamId, accountName) == [Entry("InstallConfigStore", Section([store]))];
  }

  /** The `Software/Valve/Steam` section of `config.vdf`. */
  function ConfigSteam(mtbf: string, steamId: string, accountName: string): seq<Entry> {
    ConfigTree(mtbf, steamId, accountName)[0].value.entries[0].value.entries[0].value.entries[0].value.entries
  }

  /** `config.vdf` maps `Accounts/accountName/SteamID` to the Steam ID and
      carries the nine-digit `MTBF`. */
  lemma ConfigDocument(mtbf: string, steamId: string, accountName: string)
    ensures Lookup(ConfigTree(mtbf, steamId, accountName), ["InstallConfigStore", "Software", "Valve", "Steam"])
      == Some(Section(ConfigSteam(mtbf, steamId, accountName)))
    ensures var steam := ConfigSteam(mtbf, steamId, accountName);
      && Lookup(steam, ["Accounts", accountName, "SteamID"]) == Some(Text(steamId))
      && Get(steam, "MTBF") == Some(Text(mtbf))
      && Get(steam, "AutoUpdateWindowEnabled") == Some(Text("0"))
  {
    var steam := ConfigSteam(mtbf, steamId, accountName);
    var valve := [Entry("Steam", Section(steam))];
    var software := [Entry("Valve", Section(valve))];
    var store := [Entry("Software", Section(software))];
    assert ConfigTree(mtbf, steamId, accountName) == [Entry("InstallConfigStore", Section(store))];
    assert Lookup(valve, ["Steam"]) == Some(Section(steam));
    assert Lookup(software, ["Valve", "Steam"]) == Some(Section(steam));
    var accounts := [Entry(accountName, Section([Entry("SteamID", Text(steamId))]))];
    assert steam[1] == Entry("Accounts", Section(accounts));
    GetAt(steam, 1, "Accounts");
    GetAt(steam, 2, "MTBF");
    assert Lookup(accounts, [accountName, "SteamID"]) == Some(Text(steamId));
  }
}
