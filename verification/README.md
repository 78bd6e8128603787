# Steam account switcher: verified model of its core

The program is a Windows account switcher for the Steam client. It keeps a
small SQLite table of accounts, `username` plus a refresh token (a JWT). To
switch accounts it stops Steam and writes three Valve KeyValues ("VDF")
documents that make the client sign in with the stored token: `config.vdf`,
`loginusers.vdf` and `local.vdf`. Along the way it computes a CRC-32 cache
key, encrypts the token with DPAPI and renders the ciphertext as hex. It
also sets the registry's auto-login user and, optionally, restarts Steam.
Accounts come in and go out as `username----token` lines. These come from
the clipboard, a dropped text, a file, or an account-generation web service
whose free-form reply is searched for such a line.

This Dafny project models the deterministic core of that program and proves
what it promises:

- `crc32.dfy`: the table-driven CRC-32, including the static constructor
  that fills the table. `bits.dfy` supplies the arithmetic XOR it is proved
  with.
- `config.dfy`: account-name normalisation, the cache key, the token
  payload, the ciphertext rendering, the random `MTBF`, and the three
  document trees.
- `hex.dfy`: hex digit rendering and `BitConverter.ToString`.
- `base64.dfy`: the standard-alphabet base64 decoder the program relies on,
  as in section 4 of RFC 4648, with .NET's skipping of white space.
- `vdf.dfy`: the VDF renderer over a `StringBuilder` class, plus a reader
  that recovers the tree.
- `login.dfy`: `DoLogin`'s control flow, with its three retry loops, over
  an abstract host.
- `jwt.dfy`: `JwtHelper.DecodeSteamId`.
- `accounts.dfy`: the account table as a class holding the rows in rowid
  order.
- `mainwindow.dfy`: the import, export, login and delete handlers.
- `nicealts.dfy`: the reply parser, with its three regular expressions
  written out as their leftmost-match semantics.
- `converter.dfy`: the prime-status value converter.
- `text.dfy`: the string primitives the source calls, such as
  `Trim`, `Split` and `IndexOf`.
- `wrappers.dfy`: the `Option` and `Result` types.

The operating system is an oracle. A `Host` value carries the answers the
machine would give:

- the install path and `LOCALAPPDATA`;
- whether `local.vdf` exists, and the outcome of each delete of it;
- the registry write;
- the outcome of each write attempt, per document and per attempt;
- whether `steam.exe` exists and how starting it ends;
- the nine random digits and the clock;
- the DPAPI `Protect` function;
- the UTF-8 decoder and the JSON `sub` reader.

`DoLogin` returns the sequence of state-changing operating-system calls it
made: kills, sleeps, the pre-delete of `local.vdf`, the directory creation,
the registry write, the document write attempts and the start of Steam.
The `File.Exists` and `File.SetAttributes` calls, and the delete of
`local.vdf` inside its write loop, are folded into each write attempt's
outcome and not recorded. The properties about ordering and retries are
stated over that sequence.

Where a natural reading of the program and its code disagree, the model
follows the code:

- A JWT segment is naturally read as base64url. The code decodes with
  `Convert.FromBase64String`, which uses the standard alphabet, so a payload
  containing `-` or `_` is rejected (`SteamConfig.ParseEyaRejectsUrlSafe`,
  `Jwt.UrlSafePayloadRejected`).
- A retry loop around the document writes reads as a retry on transient
  I/O errors. The code retries only on `UnauthorizedAccessException`. Any
  other exception ends the login with "Failed to write config files"
  (`Login.RetryPolicy`).
- The write loop does not delete every stale target first. It deletes only
  `local.vdf`, after the pre-delete of the same file, which runs when the
  file exists.
- The 2 s settle delay after stopping Steam is inside `KillSteam`, which is
  not modelled. `DoLogin` itself sleeps 1000 ms after each kill, and those
  sleeps are the ones modelled.

## Model

| member | source | states |
|---|---|---|
| Crc32.BuildTable | ConfigHelper.cs:595-606 | the 256 entries filled by the nested loops are each eight reflected shift/xor rounds with 0xEDB88320 applied to the index |
| Crc32.TableStep | ConfigHelper.cs:613 | one table lookup plus a shift by eight bits equals eight bitwise rounds over the byte XORed into the register |
| Crc32.RoundsShift | ConfigHelper.cs:613 | k rounds are linear over the bits shifted out, which is what lets the table replace the bitwise loop |
| Crc32.Register | ConfigHelper.cs:608-616 | the bitwise register, starting at 0xFFFFFFFF and folded over the bytes, stays within 32 bits |
| Crc32.Compute | ConfigHelper.cs:608-616 | the table-driven loop returns the bitwise CRC-32 definition: the complement of the register after all the bytes |
| Crc32.ChecksumOfEmpty | ConfigHelper.cs:610-615 | the checksum of no bytes is 0, because the initial value is complemented straight back |
| SteamConfig.NormalizeAccountName | ConfigHelper.cs:20-23 | the result is the prefix before the first '@', contains no '@', and is the name itself when there is no '@' |
| SteamConfig.NormalizeIdempotent | ConfigHelper.cs:20-23 | normalising a normalised name changes nothing |
| SteamConfig.CrcText | ConfigHelper.cs:317-322 | at most eight upper-case hex digits, with no leading '0', whose value is the CRC-32 of the name's UTF-8 bytes |
| SteamConfig.ComputeCrc32 | ConfigHelper.cs:317-322 | the method returns exactly that digit string |
| SteamConfig.CacheKey | ConfigHelper.cs:25 | the cache key is 1 to 9 characters long and ends in '1'; the characters before it are upper-case hex digits without a leading '0' that read back as the checksum; it is just "1" exactly when the checksum is 0 |
| SteamConfig.CacheKeyQuoteFree | ConfigHelper.cs:25 | the cache key never contains a double quote, so it can be a VDF key |
| SteamConfig.PadPayload | ConfigHelper.cs:211-215 | the payload is a prefix of the result; at most three '=' are added; the UTF-16 length becomes a multiple of 4; an already aligned payload is unchanged |
| SteamConfig.TokenPayload | ConfigHelper.cs:206-215 | there is a payload exactly when the token has three '.'-segments; it is the padded middle segment |
| SteamConfig.TokenSegments | ConfigHelper.cs:206-208 | three segments means exactly two dots |
| SteamConfig.ParseEya | ConfigHelper.cs:204-226 | a token with three segments whose padded payload decodes as standard base64 gives the UTF-8 text of those bytes; a non-empty result implies three segments and such a decode, and is that text |
| SteamConfig.ParseEyaRejectsUrlSafe | ConfigHelper.cs:217-225 | a payload holding '-' or '_' yields "" |
| SteamConfig.SteamEncrypt | ConfigHelper.cs:324-332 | no result exactly when Protect fails; otherwise the result is lower-case hex, two characters per ciphertext byte, and reads back as the ciphertext |
| SteamConfig.SteamHexQuoteFree | ConfigHelper.cs:331 | the rendered ciphertext never contains a double quote |
| SteamConfig.Mtbf | ConfigHelper.cs:45-46 | MTBF is nine characters, each the decimal digit of the corresponding random draw |
| SteamConfig.DigitsRoundTrip | ConfigHelper.cs:380 | the decimal timestamp reads back as the number and has no leading zero |
| SteamConfig.TimestampQuoteFree | ConfigHelper.cs:380 | the rendered timestamp never contains a double quote |
| SteamConfig.LocalDocument | ConfigHelper.cs:388-411 | the local.vdf tree holds exactly one entry, cache key to the encrypted token, under MachineUserConfigStore/Software/Valve/Steam/ConnectCache |
| SteamConfig.LoginUsersDocument | ConfigHelper.cs:365-386 | in the loginusers.vdf tree, users/steamId holds AccountName = name with RememberPassword, AllowAutoLogin and MostRecent "1" and WantsOfflineMode "0" |
| SteamConfig.UserFieldValues | ConfigHelper.cs:371-381 | the user section's fields carry the account name and the fixed flags |
| SteamConfig.ConfigDocument | ConfigHelper.cs:334-363 | in the config.vdf tree, Accounts/name/SteamID is the Steam id; MTBF is the nonce; AutoUpdateWindowEnabled is "0" |
| SteamConfig.BuildConfig | ConfigHelper.cs:334-363 | when the nonce, the Steam id and the name hold no double quote, the rendered config.vdf reads back as its tree |
| SteamConfig.BuildLoginUsers | ConfigHelper.cs:365-386 | when the Steam id and the name hold no double quote, the rendered loginusers.vdf reads back as its tree |
| SteamConfig.BuildLocal | ConfigHelper.cs:388-411 | when the cache key and the encrypted token hold no double quote, the rendered local.vdf reads back as its tree |
| SteamConfig.ConfigTreeQuoteFree | ConfigHelper.cs:334-363 | the config tree is free of double quotes when its three inputs are |
| SteamConfig.LoginUsersTreeQuoteFree | ConfigHelper.cs:365-386 | the loginusers tree is free of double quotes when the Steam id and the name are |
| SteamConfig.LocalTreeQuoteFree | ConfigHelper.cs:388-411 | the local tree is free of double quotes when the key and the ciphertext are |
| Hex.FormatX8RoundTrip | ConfigHelper.cs:321 | ToString("X8") gives eight upper-case hex digits whose value is the number |
| Hex.FormatX8 | ConfigHelper.cs:321 | ToString("X8") is exactly eight characters, whatever the number |
| Hex.FixedRoundTrip | ConfigHelper.cs:321 | n fixed-width digits read back as the value they render |
| Hex.ValueTrimZeros | ConfigHelper.cs:321 | TrimStart('0') keeps the digits' value |
| Hex.DashesRemoved | ConfigHelper.cs:331 | BitConverter.ToString with its dashes removed is the upper-case byte pairs |
| Hex.PairsLowered | ConfigHelper.cs:331 | ToLower turns the upper-case pairs into the lower-case pairs |
| Hex.SteamHex | ConfigHelper.cs:331 | the rendering is the lower-case byte pairs, high nibble first, two characters per byte, with the dashes gone |
| Hex.PairsAt | ConfigHelper.cs:331 | byte i occupies characters 2i and 2i+1, high nibble first |
| Hex.SteamHexRoundTrip | ConfigHelper.cs:331 | the rendering is lower-case hex of even length and decodes back to the bytes |
| Hex.PairsRoundTrip | ConfigHelper.cs:331 | the digit pairs of either case decode back to the bytes |
| Base64.DecodeEncode | JwtHelper.cs:25 | decoding the standard encoding of any byte string gives those bytes back |
| Base64.Decode | JwtHelper.cs:25 | decoding succeeds only when the text without white space is a whole number of four-character groups, and gives three bytes per group, less one or two for padding |
| Base64.EncodedLength | JwtHelper.cs:25 | an encoding is four characters per started group of three bytes |
| Base64.EncodeChars | JwtHelper.cs:25 | an encoding uses only the standard alphabet and '=' |
| Base64.CharOf | JwtHelper.cs:25 | every sextet has an alphabet character that maps back to it |
| Base64.ForeignCharFails | JwtHelper.cs:25 | any character outside the alphabet, '=' and the skipped white space makes decoding fail |
| Base64.UrlSafeCharFails | JwtHelper.cs:25 | '-' and '_' (the base64url characters) make decoding fail |
| Base64.RemoveSkippedNone | JwtHelper.cs:25 | text without white space is decoded as it stands |
| Jwt.DecodeSteamId | JwtHelper.cs:10-40 | "" unless the token has three segments; a payload that decodes yields the `sub` claim read from its UTF-8 text ("" when the claim is missing, null, not a string or the JSON is unreadable); a non-empty id implies the payload decoded |
| Jwt.DecodeThroughParseEya | JwtHelper.cs:14-32 | whenever ParseEya yields text, the decoder's answer is the sub claim read from that same text |
| Jwt.SegmentRuleShared | JwtHelper.cs:14-16 | a token without exactly two dots is rejected by DecodeSteamId and by ParseEya alike |
| Jwt.DecodedIdOrigin | JwtHelper.cs:14-32 | a non-empty id implies three segments, a decodable payload, and a sub claim that is this string |
| Jwt.UrlSafePayloadRejected | JwtHelper.cs:25-27 | a payload holding '-' or '_' gives "" |
| Jwt.MissingSubRejected | JwtHelper.cs:29-32 | a payload without a string sub (absent, null or not a string) gives "" |
| Jwt.SubValue | JwtHelper.cs:29-32 | a non-empty id is the sub string, and a sub string is returned as it is |
| Vdf.StringBuilder.Append | ConfigHelper.cs:426-428 | the buffer becomes its old content followed by the text |
| Vdf.StringBuilder.AppendLine | ConfigHelper.cs:432-437 | the buffer becomes its old content, the text and a CRLF |
| Vdf.StringBuilder.AppendRepeated | ConfigHelper.cs:425 | the buffer gains n copies of the character |
| Vdf.BuildVdfRecursive | ConfigHelper.cs:421-448 | the buffer gains exactly the rendering of the entries, in sequence order, at the given depth |
| Vdf.AppendEntry | ConfigHelper.cs:423-446 | a scalar adds one tab-indented "key" "value" line; a section adds a key line, a '{' line, its children one level deeper and a '}' line |
| Vdf.BuildVdf | ConfigHelper.cs:413-419 | the document is the rendering of the entries at depth 0 |
| Vdf.RenderEntriesAppend | ConfigHelper.cs:423-447 | rendering a concatenation renders each part in turn |
| Vdf.ParseRender | ConfigHelper.cs:413-448 | when no key or value contains a double quote, reading the rendered text back recovers the same ordered tree |
| Vdf.ParseRenderEntries | ConfigHelper.cs:423-447 | the rendered entries at any depth read back as themselves, leaving the text that follows |
| Vdf.ParseRenderSection | ConfigHelper.cs:430-438 | a rendered section reads back as the same key and children |
| Vdf.ParseRenderEntry | ConfigHelper.cs:423-446 | a rendered entry of either kind reads back as itself |
| Vdf.ReadQuoted | ConfigHelper.cs:441-445 | the text up to the next double quote is split off exactly, and there is none exactly when no quote follows |
| Vdf.GetAt | ConfigHelper.cs:413-448 | a lookup finds the first entry carrying the key |
| Login.PathCombine | ConfigHelper.cs:97-102 | the combined path ends with the file name and starts with the directory |
| Login.TokenCheck | ConfigHelper.cs:26-40 | a token passes exactly when its payload text is non-empty and its Steam id is non-empty, and then yields that id; an unreadable payload gives the JWT-unreadable message |
| Login.TokenCheckAccepts | ConfigHelper.cs:26-40 | a token whose payload decodes to non-empty text with a non-empty `sub` claim passes with that claim as its Steam id |
| Login.WriteAttempts | ConfigHelper.cs:107-124 | each attempt of the retry loop starts with the file write |
| Login.AttemptStep | ConfigHelper.cs:107-124 | a success or another error ends the loop at once; access denied on the third attempt is final; before that it kills Steam, sleeps 1000 ms and tries again |
| Login.WriteWithRetry | ConfigHelper.cs:107-124 | the counted loop performs exactly the attempts, kills and sleeps of the specification |
| Login.CheckToken | ConfigHelper.cs:26-40 | the token checks give the specified Steam id or error message |
| Login.RemoveLocalVdf | ConfigHelper.cs:55-79 | the pre-delete of local.vdf, retried once after 500 ms, does what the specification says |
| Login.PreDelete | ConfigHelper.cs:55-79 | the pre-delete writes no document and does nothing when local.vdf is absent |
| Login.CreateConfigDirectory | ConfigHelper.cs:81 | creating the config directory writes no document |
| Login.SetRegistry | ConfigHelper.cs:83-95 | setting AutoLoginUser writes no document and succeeds exactly when the registry accepts the value |
| Login.WriteRegistry | ConfigHelper.cs:83-95 | the registry step gives the specified result |
| Login.WriteDocument | ConfigHelper.cs:104-163 | one document's write stage gives the specified result |
| Login.StartSteam | ConfigHelper.cs:174-194 | the launch stage gives the specified result |
| Login.Launch | ConfigHelper.cs:174-194 | launching Steam writes no document |
| Login.StopAndLocate | ConfigHelper.cs:42-53 | killing Steam, the sleep, encrypting and locating the install path give the specified head of the login |
| Login.Setup | ConfigHelper.cs:55-95 | the pre-delete, the directory and the registry stages give the specified result |
| Login.WriteFiles | ConfigHelper.cs:97-172 | the three documents are built and written in the specified order and manner |
| Login.WriteTexts | ConfigHelper.cs:104-172 | the three retry loops, run in order, give the specified result |
| Login.Provision | ConfigHelper.cs:42-194 | every stage after the token checks gives the specified result |
| Login.Login | ConfigHelper.cs:16-202 | success, message and the calls made are exactly those of the login specification |
| Login.DoLogin | ConfigHelper.cs:16-202 | the status is "Success" or "Error" as the specification says; the message and the calls made are the specified ones |
| Login.Finish | ConfigHelper.cs:196-201 | success exactly when no stage failed; otherwise the message is the first failure's |
| Login.Then | ConfigHelper.cs:16-202 | a failed stage stops the sequence; a successful one passes on to the next |
| Login.ChainAppend | ConfigHelper.cs:16-202 | running two stage lists in a row is running their concatenation |
| Login.RetryPolicy | ConfigHelper.cs:107-172 | a document is written 1 to 3 times and the writes are of that document only; there are n-1 kills for n writes; every write before the last was access denied; the loop ends done, failed or denied exactly as the last attempt did; denied only after three access-denied attempts |
| Login.AttemptsShape | ConfigHelper.cs:107-124 | from any attempt on, the calls made are n writes with kills between; the earlier attempts were denied; the last attempt decides the result |
| Login.AttemptEffectsCounts | ConfigHelper.cs:107-124 | n attempts write the document n times, kill Steam n-1 times, and make no other call than a write, a kill or a 1000 ms sleep |
| Login.TokenFailureTouchesNothing | ConfigHelper.cs:26-40 | a token failure returns its error before any call to the system, with no kill, no registry change and no file |
| Login.MissingInstallPath | ConfigHelper.cs:48-53 | an empty install path fails the login after at most the kill and its sleep |
| Login.RegistryFailureWritesNothing | ConfigHelper.cs:83-95 | a registry failure fails the login before any document is written |
| Login.HeadStops | ConfigHelper.cs:42-53 | the head of the login only kills and sleeps, and fails when the path is empty |
| Login.SetupFails | ConfigHelper.cs:55-95 | the setup writes no document, and fails when the registry refuses |
| Login.WritesInOrder | ConfigHelper.cs:104-172 | over the whole login, documents are written in the order config, loginusers, local, each at most three times |
| Login.WriteGroupShape | ConfigHelper.cs:104-172 | the three write loops write in order and at most three times each |
| Login.DeniedAbortsLaterFiles | ConfigHelper.cs:104-168 | when a document is denied on every attempt, the login fails; no later document is written; if that document was reached, the message is "Access denied" with the last error |
| Login.WriteGroupDenied | ConfigHelper.cs:104-168 | within the write stage, a document denied three times stops the later ones with its access-denied error |
| Login.HappyPath | ConfigHelper.cs:16-202 | when every oracle succeeds, the login succeeds. The calls are the kill and sleep, the pre-delete, the directory, the registry, the three documents with their exact texts, and the start when requested |
| Login.SuccessMeansConfigured | ConfigHelper.cs:16-202 | a successful login had a valid token, an install path and the registry value, and each document's last write went through |
| Login.WriteStepDone | ConfigHelper.cs:107-124 | a write stage that succeeded ended with a write that went through |
| Login.WriteGroupDone | ConfigHelper.cs:104-163 | a write stage without error means all three documents' last writes went through |
| Login.Writes | ConfigHelper.cs:104-163 | the documents written are read off the calls made |
| Login.WritesAppend | ConfigHelper.cs:104-163 | the documents written by two runs in a row are those of each in turn |
| Login.NoWritesNone | ConfigHelper.cs:104-163 | a run without write calls writes no document |
| Login.LoginSpecGroups | ConfigHelper.cs:16-202 | after the token checks the login is the head, the setup, the writes and the launch in that order |
| Login.LoginSpec | ConfigHelper.cs:16-202 | a token the checks reject fails with their message and makes no operating-system call; a successful login passed the checks and reports "Login configured successfully." |
| Login.LoginSteps | ConfigHelper.cs:42-194 | the login after the token checks has ten stages |
| Login.HeadOk | ConfigHelper.cs:42-53 | with a ciphertext and an install path, the head only kills Steam and sleeps 1000 ms |
| Login.SetupOk | ConfigHelper.cs:55-95 | when the oracles agree, the setup is the pre-delete, the directory creation and the registry write |
| Login.WritesOk | ConfigHelper.cs:104-163 | when every first attempt goes through, each document is written once in order |
| Login.LaunchOk | ConfigHelper.cs:174-194 | when starting is requested and possible, the launch starts steam.exe from the install path; otherwise nothing |
| Login.GroupWrites | ConfigHelper.cs:16-202 | only the write stage writes documents, and only when the head and setup succeeded |
| Login.ChainDenied | ConfigHelper.cs:104-168 | a failing write loop stops the later ones and its error is the login's |
| Login.Chain3Ok | ConfigHelper.cs:104-163 | three stages succeed together exactly when each does, and their calls add up |
| Login.GroupsOk | ConfigHelper.cs:16-202 | the four groups succeed together exactly when each does |
| Login.Assemble | ConfigHelper.cs:196 | when all four groups succeed the result is success with the fixed message |
| Window.ParseLine | MainWindow.xaml.cs:695-702 | a parsed line gives a username and a token that are trimmed and not white space only |
| Window.ParseLineFacts | MainWindow.xaml.cs:695-699 | a line without "----" gives nothing; the username is the trimmed text before the first "----"; the token is the trimmed text after it, up to the next "----" or the end of the line |
| Window.FromFields | MainWindow.xaml.cs:698-702 | the two trimmed fields are accepted only when neither is blank |
| Window.ExtraFieldsIgnored | MainWindow.xaml.cs:695-699 | anything after a second "----" is dropped |
| Window.CleanIsTrimmed | MainWindow.xaml.cs:698-702 | a field that survives the checks is non-blank and trimming leaves it unchanged |
| Window.ReadAllLines | MainWindow.xaml.cs:877 | the lines of a file contain no line break, and an empty file has no lines |
| Window.CandidatesUsable | MainWindow.xaml.cs:693-702 | every candidate an import loop keeps has a clean username and token |
| Window.Candidates | MainWindow.xaml.cs:693-702 | the import loops keep at most one entry per line |
| Window.CandidatesSkip | MainWindow.xaml.cs:695-696 | a line without "----" adds no candidate |
| Window.FormatLine | MainWindow.xaml.cs:267 | an export line is the username, "----" and the token |
| Window.FormatLines | MainWindow.xaml.cs:249-269 | one export line per entry, in order |
| Window.ParseFormatted | MainWindow.xaml.cs:267 | an exported line of a clean pair without "----", without line breaks and not ending in '-' parses back to the same pair |
| Window.DashEndingUsernameShifts | MainWindow.xaml.cs:267 | a username ending in '-' does not survive the round trip: "ab-" and "eyX" read back as "ab" and "-eyX" |
| Window.ExportImportRoundTrip | MainWindow.xaml.cs:249-269 | exporting such pairs and reading the text back, by file or by paste, gives the same pairs in the same order |
| Window.ExportedCountIsLineCount | MainWindow.xaml.cs:249-269 | the file holds exactly exportedCount lines |
| Window.AcceptedOf | MainWindow.xaml.cs:704-713 | without a database connection, no entry is accepted |
| Window.AcceptedOfExactly | MainWindow.xaml.cs:704-713 | the counted entries are the candidates with a decodable Steam id that AddAccount accepted; all are counted when all qualify |
| Window.AddEntry | MainWindow.xaml.cs:704-713 | an accepted entry's username is in the table afterwards; a rejected one leaves the table unchanged |
| Window.ImportRows | MainWindow.xaml.cs:693-719 | importing only appends rows, keeps usernames unique, and changes nothing without a connection |
| Window.ImportRowsFacts | MainWindow.xaml.cs:693-719 | every accepted username is in the table afterwards; at most one row is added per accepted entry |
| Window.ImportKeepsStoredTokens | DatabaseHelper.cs:391-397 | an import never changes the token of an account that was already stored |
| Window.ImportStoresFirstToken | DatabaseHelper.cs:391-397 | a new username gets the token of its first accepted line |
| Window.TokenOfNew | MainWindow.xaml.cs:704-713 | a username that no accepted line names stays absent |
| Window.ImportLine | MainWindow.xaml.cs:695-713 | one line is counted exactly when it parses, has a Steam id and AddAccount accepts it; the table gains its entry or stays as it was |
| Window.ImportLines | MainWindow.xaml.cs:693-719 | the loop leaves the table as the specified import and counts exactly the accepted entries |
| Window.HandlePaste | MainWindow.xaml.cs:682-734 | blank clipboard text does nothing; otherwise the text is split on CRLF, CR and LF, keeping empty lines, and imported; addedCount is the number of accepted entries |
| Window.ImportAccountsFromText | MainWindow.xaml.cs:809-863 | dropped text is split the same way and imported; the count is the number of accepted entries |
| Window.LoadFromFile | MainWindow.xaml.cs:865-925 | no file chosen, nothing happens; otherwise the file's lines are imported and counted |
| Window.ExportToken | MainWindow.xaml.cs:252-265 | the account's own non-blank token wins; otherwise the stored token if it is not blank; otherwise no line |
| Window.ExportEntry | MainWindow.xaml.cs:251-265 | an exported entry keeps the account's username, which is not blank, and a token that is not blank |
| Window.ExportEntriesUsable | MainWindow.xaml.cs:249-269 | at most one line per account, each with a non-blank username and token |
| Window.ExportEntries | MainWindow.xaml.cs:249-269 | export writes at most one entry per account |
| Window.ExportEveryAccount | MainWindow.xaml.cs:249-269 | accounts that all carry their own tokens are exported one line each, in order |
| Window.Export | MainWindow.xaml.cs:219-290 | no database gives the not-initialised outcome, no accounts nothing to export, a dismissed dialog a cancel; otherwise the text of the specified lines and their number |
| Window.Chosen | MainWindow.xaml.cs:516-534 | an account is chosen when one is given or exactly one row is selected |
| Window.LoginAttempt | MainWindow.xaml.cs:514-574 | DoLogin runs exactly when an account is chosen, the database is connected and a token is stored for it |
| Window.LoginToAccount | MainWindow.xaml.cs:514-574 | the method returns true exactly when DoLogin reports "Success"; the calls made are DoLogin's, and there are none when it was not called |
| Window.SelectionMustBeSingle | MainWindow.xaml.cs:516-534 | zero or several selected rows never start a login |
| Window.LoginSucceeded | MainWindow.xaml.cs:547-566 | a successful login used a stored token that passed the token checks, and all three documents were written |
| Window.RemoveAllFacts | MainWindow.xaml.cs:188-195 | after the deletions none of the names is left, only original rows remain, and usernames stay unique |
| Window.RemoveAll | MainWindow.xaml.cs:188-195 | the deletions never add a row |
| Window.DeletedCount | MainWindow.xaml.cs:188-195 | the counter never exceeds the number of names |
| Window.DeletedCountIsRowsRemoved | MainWindow.xaml.cs:188-195 | the counter is the number of rows that went |
| Window.RemoveAllKeepsOthers | MainWindow.xaml.cs:188-195 | accounts not named keep their tokens |
| Window.Usernames | MainWindow.xaml.cs:189-191 | the names deleted are the accounts' usernames, in order |
| Window.DeleteEach | MainWindow.xaml.cs:188-195 | the loop removes each named account and counts the DeleteAccount calls that returned true |
| Window.ClearAll | MainWindow.xaml.cs:162-211 | no accounts or no confirmation leaves the table alone; otherwise every account is deleted and the true answers counted |
| Window.DeleteSelectedRows | MainWindow.xaml.cs:633-668 | no selection or no confirmation leaves the table alone; otherwise the selected accounts are deleted and the true answers counted |
| Database.AccountStore.constructor | DatabaseHelper.cs:19-48 | a new table is empty, with or without a connection |
| Database.AccountStore.AddAccount | DatabaseHelper.cs:375-416 | true exactly when connected, username and token are non-blank, and within 255 and 2000 UTF-16 units; then INSERT OR IGNORE; otherwise the table is unchanged |
| Database.AddAccepted | DatabaseHelper.cs:379-384 | an accepted username is 1 to 255 characters and an accepted token 1 to 2000 characters long |
| Database.InsertOrIgnore | DatabaseHelper.cs:391-397 | an existing username leaves the table as it was; a new one is appended; usernames stay unique |
| Database.InsertOrIgnoreTokens | DatabaseHelper.cs:391-397 | an existing username keeps its token, a new username gets the added token, and other accounts are untouched |
| Database.AccountStore.GetToken | DatabaseHelper.cs:418-426 | there is a token exactly when connected and a row has the username |
| Database.TokenOfFound | DatabaseHelper.cs:418-426 | a token is found exactly when a row has the username, and it is that row's token |
| Database.TokenOf | DatabaseHelper.cs:418-426 | the query finds a token exactly when some row carries the username |
| Database.TokenOfRow | DatabaseHelper.cs:418-426 | with unique usernames, each row's token is the one found for its username |
| Database.AccountStore.DeleteAccount | DatabaseHelper.cs:428-443 | true exactly when connected and the username existed; the row is removed and the others remain |
| Database.RemoveUser | DatabaseHelper.cs:434-436 | after deleting, the username is absent |
| Database.RemoveUserTokens | DatabaseHelper.cs:434-436 | deleting one username keeps every other token |
| Database.RemoveUserCount | DatabaseHelper.cs:434-436 | deleting an existing username removes exactly one row |
| Database.RemoveUserSubset | DatabaseHelper.cs:434-436 | deleting keeps only original rows, and an absent username changes nothing |
| Database.RemoveUserUnique | DatabaseHelper.cs:434-436 | deleting keeps usernames unique |
| Database.AccountStore.GetAllAccounts | DatabaseHelper.cs:219-275 | one account per row, in row order, when connected; none otherwise |
| Database.AccountOf | DatabaseHelper.cs:230-251 | the account copies username, Steam id, token and prime flag from its row and asks for the avatar by Steam id |
| Database.NormalizeDbPath | DatabaseHelper.cs:76-91 | a blank path is rejected; an accepted path has no '/', ends in ".db" in any case, and is a prefix of the path with '/' replaced by '\\' whose removed tail is all '\\' |
| Database.NormalizeDbPathIdempotent | DatabaseHelper.cs:76-91 | an accepted path is accepted again unchanged |
| Database.NormalizeDbPathExactly | DatabaseHelper.cs:76-91 | the result is exactly: rejected when blank, else the path with '/' replaced and every trailing '\\' trimmed, accepted exactly when that ends in ".db" in any case |
| Database.TrimGuardIrrelevant | DatabaseHelper.cs:83-88 | the "longer than three" guard on the trim never changes which path is accepted, nor the accepted path |
| Database.TrailingSeparatorTrimmed | DatabaseHelper.cs:84-87 | a trailing '\\' after ".db" is trimmed |
| Database.ReplaceChar | DatabaseHelper.cs:82 | every '/' becomes '\\' and nothing else changes |
| Database.TrimEndChar | DatabaseHelper.cs:85 | only trailing copies of the character are removed, and all of them |
| PrimeConverter.Convert | BoolToPrimeConverter.cs:9-16 | the text is "True" or "False", and "True" exactly for a boxed true; any other value gives "False" |
| PrimeConverter.ConvertBack | BoolToPrimeConverter.cs:18-25 | true exactly for a string of four letters spelling "true" in any letter case; any other value gives false |
| PrimeConverter.RoundTrip | BoolToPrimeConverter.cs:9-25 | converting a bool and back gives the bool |
| NiceAlts.ResponseLines | NiceAltsApiHelper.cs:115 | the reply splits on '\n' and '\r' into non-empty lines without breaks |
| NiceAlts.ResponseLinesAtBreak | NiceAltsApiHelper.cs:115 | a break separates the lines before it from those after it |
| NiceAlts.Run | NiceAltsApiHelper.cs:120-125 | the greedy run of a character class is the longest one |
| NiceAlts.Leftmost | NiceAltsApiHelper.cs:121 | the match search returns the first start position where a match exists |
| NiceAlts.SegmentEnd | NiceAltsApiHelper.cs:120 | a token segment is "ey" followed by one or more of [A-Za-z0-9-_], taken as long as possible |
| NiceAlts.TokenAtSound | NiceAltsApiHelper.cs:120-125 | what the token search finds at a position is token text, and the text cannot extend further |
| NiceAlts.TokenAtLongest | NiceAltsApiHelper.cs:120-125 | any token text starting at the position lies within the match |
| NiceAlts.TokenMatch | NiceAltsApiHelper.cs:121 | the token match starts at the first position where one exists, and there is none exactly when no position has one |
| NiceAlts.FindTokenIsToken | NiceAltsApiHelper.cs:120-125 | the token found is three '.'-separated segments, each starting with "ey" |
| NiceAlts.FindTokenLeftmostLongest | NiceAltsApiHelper.cs:120-125 | the token found is the leftmost token text, taken as long as possible; there is none exactly when the line holds no token text |
| NiceAlts.EmailAt | NiceAltsApiHelper.cs:127 | an e-mail found at a position has a local part of [a-zA-Z0-9._%+-] up to its '@' |
| NiceAlts.EmailAtSound | NiceAltsApiHelper.cs:127 | what the e-mail search finds is a local part, '@', and a domain ending in a dot and two or more letters |
| NiceAlts.EmailAtComplete | NiceAltsApiHelper.cs:127 | every e-mail text starting at the position is found, with the same '@' |
| NiceAlts.EmailSplitUnique | NiceAltsApiHelper.cs:127 | an e-mail text has only one possible '@' |
| NiceAlts.EmailMatch | NiceAltsApiHelper.cs:127 | the e-mail match starts at the first position where one exists |
| NiceAlts.EmailLocalPart | NiceAltsApiHelper.cs:127-131 | the local part is non-empty text of [a-zA-Z0-9._%+-] |
| NiceAlts.EmailLocalPartLeftmost | NiceAltsApiHelper.cs:127-131 | the local part comes from the leftmost e-mail address, and there is none exactly when the line holds no e-mail address |
| NiceAlts.EmailLocalPartIsSplitHead | NiceAltsApiHelper.cs:131 | the local part is Split('@')[0] of the matched address |
| NiceAlts.UserAt | NiceAltsApiHelper.cs:135 | a username match ends a run of word characters at a ':' or white-space separator |
| NiceAlts.UserAtComplete | NiceAltsApiHelper.cs:135 | every username match at the position is found, with the same name |
| NiceAlts.UserAtSound | NiceAltsApiHelper.cs:135 | on a line without breaks, what the search finds is a name, a separator and text up to "mctoken", "token" or "Accesstoken" in any case |
| NiceAlts.UserMatch | NiceAltsApiHelper.cs:135 | the username match starts at the first position where one exists |
| NiceAlts.UserName | NiceAltsApiHelper.cs:135-139 | the name is non-empty text of [a-zA-Z0-9_] |
| NiceAlts.UserNameLeftmost | NiceAltsApiHelper.cs:135-139 | the name comes from the leftmost username match, and there is none exactly when the line holds no match |
| NiceAlts.FallbackExactly | NiceAltsApiHelper.cs:143-155 | the fallback answers exactly when the line has "----" and its trimmed second part starts with "ey" and has two dots; the answer is the trimmed line |
| NiceAlts.Fallback | NiceAltsApiHelper.cs:143-155 | a line kept by the fallback still contains "----" and is its own trimmed form |
| NiceAlts.TrimKeepsSeparator | NiceAltsApiHelper.cs:152 | trimming a line keeps its "----" |
| NiceAlts.TrimIsIdempotent | NiceAltsApiHelper.cs:152 | trimming twice is trimming once |
| NiceAlts.ThreeSegmentsTwoDots | NiceAltsApiHelper.cs:149 | three '.'-segments means exactly two dots |
| NiceAlts.JoinedHasSeparator | NiceAltsApiHelper.cs:132 | a user and a token joined by "----" contain "----" |
| NiceAlts.LineResult | NiceAltsApiHelper.cs:117-156 | any answer from a line contains "----" |
| NiceAlts.LineResultFallsBack | NiceAltsApiHelper.cs:117-156 | a line with no token, or with a token but neither an e-mail nor a labelled username, gets the fallback's answer |
| NiceAlts.LineResultWithToken | NiceAltsApiHelper.cs:123-140 | a line with a token and an e-mail or username answers with the e-mail local part, or else the username, then "----" and the token |
| NiceAlts.FirstYieldFromLine | NiceAltsApiHelper.cs:117-158 | an answer is the answer of one of the lines |
| NiceAlts.FirstYieldAt | NiceAltsApiHelper.cs:117-158 | the answer is the first line's that has one |
| NiceAlts.FirstYieldNone | NiceAltsApiHelper.cs:117-158 | null exactly when no line has an answer |
| NiceAlts.ParseSteamAccountFromResponse | NiceAltsApiHelper.cs:110-165 | every non-null result contains "----" |
| NiceAlts.ParseFirstYieldingLine | NiceAltsApiHelper.cs:117-156 | the result is the answer of the first reply line that has one |
| NiceAlts.ParseNone | NiceAltsApiHelper.cs:158 | when no line answers, the result is null |
| NiceAlts.ParseNoneAtLine | NiceAltsApiHelper.cs:117-158 | a null result means no line had an answer |
| TextUtil.Trim | MainWindow.xaml.cs:698-699 | the result has no white space at either end, and is empty exactly when the text is white space only |
| TextUtil.TrimmedIsFixed | MainWindow.xaml.cs:698-699 | text without white space at its ends is its own trim |
| TextUtil.TrimStartChar | ConfigHelper.cs:321 | only leading copies of the character are removed, and all of them |
| TextUtil.LowerAscii | ConfigHelper.cs:331 | ToLower maps each character and keeps the length |
| TextUtil.RemoveChar | ConfigHelper.cs:331 | Replace("-", "") leaves no dash |
| TextUtil.RemoveCharAppend | ConfigHelper.cs:331 | removal distributes over concatenation |
| TextUtil.IndexOfChar | NiceAltsApiHelper.cs:131 | the first occurrence of the character |
| TextUtil.Split | JwtHelper.cs:14 | one more part than separators, none containing the separator |
| TextUtil.JoinSplit | JwtHelper.cs:14 | joining the parts with the separator gives the text back |
| TextUtil.FindCorrect | MainWindow.xaml.cs:695 | Find returns the first occurrence of the pattern, and none exactly when there is none |
| TextUtil.SplitOnFirst | MainWindow.xaml.cs:695 | a split on "----" has two or more parts exactly when the line contains it; the first part is the text before the first occurrence |
| TextUtil.JoinSplitOn | MainWindow.xaml.cs:695 | joining the parts with "----" gives the line back |
| TextUtil.SplitOnPair | MainWindow.xaml.cs:695 | a + "----" + b splits into exactly [a, b] when the separator starts nowhere in a and does not occur in b |
| TextUtil.SplitOn | MainWindow.xaml.cs:695 | a split on "----" always has at least one part |
| TextUtil.SplitLines | MainWindow.xaml.cs:691 | splitting on CRLF, CR and LF gives at least one line, none containing a break |
| TextUtil.SplitLinesCrLf | MainWindow.xaml.cs:691 | a line followed by CRLF is split off as one line |
| TextUtil.FirstLineBreak | MainWindow.xaml.cs:691 | the first break character, with no break before it |
| TextUtil.Utf16Length | DatabaseHelper.cs:383-384 | .Length counts one or two UTF-16 units per character |
| TextUtil.Utf16LengthAppend | DatabaseHelper.cs:383-384 | UTF-16 lengths add up over concatenation |
| TextUtil.Utf8Encode | ConfigHelper.cs:319 | UTF-8 uses one to four bytes per character |
| TextUtil.Utf8OfAscii | ConfigHelper.cs:319 | ASCII text encodes to one byte per character, each its code |

## Left out

- The operating system is an oracle (`Login.Host`): DPAPI `ProtectedData.Protect`, the registry, process enumeration, kill and start, file existence, attributes, deletes and writes, `Directory.CreateDirectory`, and `Thread.Sleep`. Sleeps appear as recorded calls, not as time.
- `KillSteam`, `ResetSteam`, `StartSteam`, `GetCurrentAccount` and `SaveCurrentAccounts` (ConfigHelper.cs:450-588) are process and file plumbing. Inside `DoLogin` a kill is one recorded call.
- `GetSteamInstallPath` and `GetLocalVdfPath` (ConfigHelper.cs:228-315) are registry and environment lookups. The install path and `LOCALAPPDATA` are fields of the host.
- `Random` and `DateTime.UtcNow` are parameters: nine digit draws in 0..9, and the timestamp as the whole number of seconds the `(long)` cast at ConfigHelper.cs:380 leaves.
- UTF-8 decoding (`Encoding.UTF8.GetString`) and the JSON reader of `sub` are oracle functions in `Jwt.Codecs`. An exception from the JSON reader becomes the outer handler's "Login failed" message in `Login.TokenCheck` (ConfigHelper.cs:198-201).
- `Dictionary<string, object>` enumeration order is modelled as the insertion order, an ordered list of entries.
- `Environment.NewLine` is fixed to CRLF, as on Windows.
- The CRC-32 catalogue check value ("123456789" gives 0xCBF43926) is not proved. Evaluating the arithmetic XOR on 32-bit literals is beyond the verifier's budget. The definition itself is the bitwise one.
- Dafny strings hold Unicode scalar values, so C# strings with lone surrogates are not represented. `.Length` is modelled as the UTF-16 length (`TextUtil.Utf16Length`).
- Case-insensitive comparisons (`EndsWith(".db", OrdinalIgnoreCase)`, `string.Equals(..., OrdinalIgnoreCase)`, the `RegexOptions.IgnoreCase` username pattern) fold ASCII letters only. .NET also folds some non-ASCII letters, which the model does not.
- `NiceAlts.Fallback`: `token.StartsWith("ey")` (NiceAltsApiHelper.cs:150) is the culture-sensitive overload, which skips ignorable characters such as the soft hyphen U+00AD. The model compares character by character. So the line `u----` + U+00AD + `eyA.eyB.eyC` is kept by the program but not by the model.
- `Database.NormalizeDbPath`: `EndsWith("\\")` (DatabaseHelper.cs:83) is culture-sensitive too, and the model compares character by character. This changes no result: when the two comparisons disagree the last character is not `'\\'`, so `TrimEnd('\\')` removes nothing.
- The general exception handler of `ParseSteamAccountFromResponse` (NiceAltsApiHelper.cs:159-163) is left out. With a non-null reply, no exception can arise in the modelled code. A null `accountData` is not representable.
- `GenerateAccountAsync`, `GetApiKey` and `SaveApiKey` (NiceAltsApiHelper.cs:18-108) are HTTP and file I/O.
- `CheckPrimeStatus` and `GetSteamAvatarUrl` (DatabaseHelper.cs:277-373) are web scraping. They are the parameters `prime` and `avatar`.
- The SQLite plumbing is left out: connection building and opening, schema creation and migration, and `Close` (DatabaseHelper.cs:19-216, 445-451). The table is the list of rows in rowid order, with `connected` standing for a non-null `_connection`. Only the path normalisation of `InitializeDatabase` is modelled (`Database.NormalizeDbPath`).
- `Login.WriteAttempts`: an attempt is one recorded `WriteFile`. The `File.Exists` check and `File.SetAttributes` before each write, and for `local.vdf` the `File.Delete` of an existing file (ConfigHelper.cs:111-113, 130-132, 149-152), are folded into that attempt's outcome and not recorded in the trace.
- `Database.AccountStore.AddAccount`: a failing SQL statement is not modelled. In the program a failing first `INSERT` falls back to an `INSERT` without `is_prime` that still returns true (DatabaseHelper.cs:399-408), and any other exception returns false (DatabaseHelper.cs:411-414). The model's statements always succeed.
- `Database.AccountStore.DeleteAccount`: a failing `DELETE` is not modelled. In the program it returns false from the handler at DatabaseHelper.cs:438-442.
- `Database.AccountStore.GetAllAccounts`: a failing query is not modelled. In the program the handler at DatabaseHelper.cs:254-272 re-runs the query without `is_prime` and does not clear the list, so rows read before the failure appear twice.
- `Database.NormalizeDbPath`: `Path.GetFullPath` and the directory creation around it are left out. The model keeps the replacement, the trim and the extension check.
- `Window.*`: a null `_dbHelper` is a null `AccountStore?`.
- `Window.*`: `JwtHelper.DecodeSteamId` is passed to the handlers as the function `steamIdOf`. `Jwt.DecodeSteamId` models it on its own.
- `Window.*`: the UI is left out. This covers message boxes, dialogs, grid refreshes (`LoadAccounts`), drag-and-drop wiring, the status timer and the process-presence polling task (MainWindow.xaml.cs:27-124). Dialog answers are boolean parameters, and the save dialog's file write is the returned text.
- `Window.Export`: the `StreamWriter` is the returned text. Its UTF-8 byte-order mark is not modelled.
- `App.xaml.cs`, `SplashScreen.xaml.cs`, `ImageUrlConverter.cs` and `AppDataHelper.cs` are UI and environment-folder plumbing, so they are not part of this model.
- Concurrency: the handlers and `DoLogin` are modelled as running alone.
