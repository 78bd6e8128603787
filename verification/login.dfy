/**
 * `ConfigHelper.DoLogin`: switching Steam to an account by writing its
 * cached login token into Steam's files.
 *
 * The operating system is an oracle, `Host`: what the JSON reader says
 * about the payload, whether DPAPI protects the token, where Steam is
 * installed, and how each file deletion, registry write, file write and
 * process start turns out. `DoLogin` returns the pair the source returns
 * and the operating-system actions it performed, in order (`Effect`).
 *
 * `LoginSpec` states the control flow as a chain of steps; the method
 * `DoLogin` follows the source statement by statement, with the three
 * retry loops, and is proved to compute `LoginSpec`.
 */
module Login {
  import opened Wrappers
  import opened Bits
  import opened TextUtil
  import opened Crc32
  import opened Vdf
  import opened SteamConfig
  import opened Jwt

  /** The three files `DoLogin` writes, in the order it writes them. */
  datatype Document = ConfigFile | LoginUsersFile | LocalFile

  function Rank(d: Document): nat {
    match d
    case ConfigFile => 0
    case LoginUsersFile => 1
    case LocalFile => 2
  }

  /** One attempt at `SetAttributes` (and `Delete` for `local.vdf`) followed
      by `File.WriteAllText`. */
  datatype WriteOutcome = Written | AccessDenied(message: string) | WriteFailed(message: string)

  /** `Registry.CurrentUser.OpenSubKey(@"SOFTWARE\Valve\Steam", true)` and
      `SetValue("AutoLoginUser", …)`. */
  datatype RegistryOutcome =
    | KeyMissing              // `OpenSubKey` returns null
    | OpenFailed(message: string)
    | SetFailed(message: string)
    | ValueSet

  /** What the operating system answers. `draws` are the nine
      `random.Next(10)` values, `now` the Unix time in seconds. */
  datatype Host = Host(
    codecs: Codecs,
    protect: (seq<byte>, seq<byte>) -> Option<seq<byte>>,
    protectError: string,
    draws: seq<int>,
    installPath: string,
    localAppData: string,
    localExists: bool,
    firstDelete: Option<string>,
    secondDelete: Option<string>,
    createDirError: Option<string>,
    registry: RegistryOutcome,
    now: int,
    write: (Document, nat) -> WriteOutcome,
    steamExeExists: bool,
    startError: Option<string>)

  /** `Random.Next(10)` returns a value in `0..9`. */
  predicate ValidHost(h: Host) {
    |h.draws| == 9 && forall i | 0 <= i < 9 :: 0 <= h.draws[i] < 10
  }

  /** The operating-system actions, in the order they happen. */
  datatype Effect =
    | KillSteam
    | Sleep(ms: nat)
    | DeleteFile(path: string)
    | CreateDirectory(path: string)
    | SetAutoLoginUser(name: string)
    | WriteFile(doc: Document, path: string, text: string)
    | StartProcess(path: string)

  /** The second string `DoLogin` returns; `MessageText` spells each out. */
  datatype Message =
    | JwtUnreadable
    | SubMissing
    | SteamIdEmpty
    | LoginFailed(detail: string)
    | InstallPathNotFound
    | LocalVdfLocked(detail: string)
    | RegistryKeyMissing
    | RegistryFailed(detail: string)
    | AccessDeniedError(detail: string)
    | WriteError(detail: string)
    | SteamExeNotFound(path: string)
    | StartFailed(detail: string)
    | Configured

  function MessageText(m: Message): string {
    match m
    case JwtUnreadable => "Invalid token - failed to parse JWT"
    case SubMissing => "Invalid token - missing 'sub' field"
    case SteamIdEmpty => "Invalid token - Steam ID is empty"
    case LoginFailed(d) => "Login failed: " + d
    case InstallPathNotFound => "Steam installation path not found"
    case LocalVdfLocked(d) => "Cannot delete existing local VDF file. Steam may still be running. Error: " + d
    case RegistryKeyMissing => "Could not access Steam registry key"
    case RegistryFailed(d) => "Failed to set registry: " + d
    case AccessDeniedError(d) =>
      "Access denied. Please ensure Steam is closed and try again. If the problem persists, try running as administrator. Error: " + d
    case WriteError(d) => "Failed to write config files: " + d
    case SteamExeNotFound(p) => "Steam executable not found at: " + p
    case StartFailed(d) => "Failed to start Steam: " + d
    case Configured => "Login configured successfully."
  }

  /** The first string `DoLogin` returns. */
  function StatusText(success: bool): string {
    if success then "Success" else "Error"
  }

  /** What `DoLogin` returns, and the actions it took. */
  datatype Outcome = Outcome(success: bool, message: Message, effects: seq<Effect>)

  /** No file write among the actions. */
  predicate NoWrites(effects: seq<Effect>) {
    forall i | 0 <= i < |effects| :: !effects[i].WriteFile?
  }

  /** Only stopping Steam and waiting: no file, registry or process change. */
  predicate OnlyStops(effects: seq<Effect>) {
    forall i | 0 <= i < |effects| :: effects[i] == KillSteam || effects[i].Sleep?
  }

  /** `Path.Combine(a, b)` on Windows when `b` is a relative name that does
      not start with a separator. */
  function PathCombine(a: string, b: string): (r: string)
    ensures EndsWith(r, b)
    ensures a != [] ==> a <= r
  {
    var r := if a == [] then b
      else if a[|a| - 1] == '\\' || a[|a| - 1] == '/' then a + b
      else a + "\\" + b;
    assert r[|r| - |b|..] == b;
    r
  }

  /** `Path.Combine(LocalApplicationData, "Steam", "local.vdf")`. */
  function LocalVdfPath(localAppData: string): string {
    PathCombine(PathCombine(localAppData, "Steam"), "local.vdf")
  }

  // ---------------------------------------------------------------------
  // The specification

  /** The Steam id the token carries, or the message `DoLogin` returns: an
      exception from the JSON reader reaches the outer handler. */
  function TokenCheck(token: string, codecs: Codecs): (r: Result<string, Message>)
    ensures r.Ok? ==> r.value != ""
    ensures r.Ok? <==> ParseEya(token, codecs.utf8) != "" && DecodeSteamId(token, codecs) != ""
    ensures r.Ok? ==> r.value == DecodeSteamId(token, codecs)
    ensures ParseEya(token, codecs.utf8) == "" ==> r == Err(JwtUnreadable)
  {
    var json := ParseEya(token, codecs.utf8);
    if json == "" then Err(JwtUnreadable)
    else match codecs.readSub(json)
      case Malformed(m) => Err(LoginFailed(m))
      case NotAnObject(m) => Err(LoginFailed(m))
      case NoSub => Err(SubMissing)
      case SubNull => Err(SteamIdEmpty)
      case SubNotString(m) => Err(LoginFailed(m))
      case SubText(id) => if id == "" then Err(SteamIdEmpty) else Ok(id)
  }

  /** A token whose payload decodes to non-empty text with a non-empty
      `sub` claim passes the checks with that claim as its Steam id. */
  lemma TokenCheckAccepts(token: string, codecs: Codecs, id: string)
    requires TokenPayload(token).Some? && Base64.Decode(TokenPayload(token).value).Some?
    requires var text := codecs.utf8(Base64.Decode(TokenPayload(token).value).value);
      text != "" && codecs.readSub(text) == SubText(id)
    requires id != ""
    ensures TokenCheck(token, codecs) == Ok(id)
  {
  }

  /** A stage's message, if it ends the login, and its actions. */
  datatype Step = Step(error: Option<Message>, effects: seq<Effect>)

  /** Run `a`, then `b` unless `a` ended the login. */
  function Then(a: Step, b: Step): (r: Step)
    ensures a.error.Some? ==> r == a
    ensures a.error.None? ==> r == Step(b.error, a.effects + b.effects)
  {
    if a.error.Some? then a else Step(b.error, a.effects + b.effects)
  }

  /** The stages in order; the first that reports an error ends the chain. */
  function Chain(steps: seq<Step>): (r: Step)
    ensures steps == [] ==> r == Step(None, [])
  {
    if steps == [] then Step(None, []) else Then(steps[0], Chain(steps[1..]))
  }

  /** Stops Steam, then waits one second. */
  function StopSteam(): Step {
    Step(None, [KillSteam, Sleep(1000)])
  }

  /** `SteamEncrypt`, whose DPAPI failure reaches the outer handler. */
  function EncryptStep(h: Host, name: string, token: string): Step {
    if h.protect(Utf8Encode(token), Utf8Encode(name)).None? then Step(Some(LoginFailed(h.protectError)), [])
    else Step(None, [])
  }

  /** The protected token, when DPAPI protected it. */
  function EncryptedToken(h: Host, name: string, token: string): string {
    match SteamEncrypt(token, name, h.protect)
    case Some(jwt) => jwt
    case None => ""
  }

  function FindInstallPath(h: Host): Step {
    if h.installPath == "" then Step(Some(InstallPathNotFound), []) else Step(None, [])
  }

  /** Deleting an existing `local.vdf`: one retry after half a second; the
      message reported is the first attempt's. */
  function PreDelete(h: Host): (s: Step)
    ensures NoWrites(s.effects)
    ensures !h.localExists ==> s == Step(None, [])
  {
    var path := LocalVdfPath(h.localAppData);
    if !h.localExists then Step(None, [])
    else match h.firstDelete
      case None => Step(None, [DeleteFile(path)])
      case Some(first) =>
        var effects := [DeleteFile(path), Sleep(500), DeleteFile(path)];
        if h.secondDelete.None? then Step(None, effects) else Step(Some(LocalVdfLocked(first)), effects)
  }

  /** `Directory.CreateDirectory(Path.Combine(path, "config"))`; a failure
      reaches the outer handler. */
  function CreateConfigDirectory(h: Host): (s: Step)
    ensures NoWrites(s.effects)
  {
    var effects := [CreateDirectory(PathCombine(h.installPath, "config"))];
    match h.createDirError
    case Some(m) => Step(Some(LoginFailed(m)), effects)
    case None => Step(None, effects)
  }

  /** Setting `AutoLoginUser` to the account name. */
  function SetRegistry(h: Host, name: string): (s: Step)
    ensures NoWrites(s.effects)
    ensures s.error.None? <==> h.registry == ValueSet
  {
    match h.registry
    case KeyMissing => Step(Some(RegistryKeyMissing), [])
    case OpenFailed(m) => Step(Some(RegistryFailed(m)), [])
    case SetFailed(m) => Step(Some(RegistryFailed(m)), [SetAutoLoginUser(name)])
    case ValueSet => Step(None, [SetAutoLoginUser(name)])
  }

  /** How the retry loop for one file ends. */
  datatype WriteResult = Done | Denied(message: string) | Failed(message: string)

  /** The retry loop for one file from attempt `retry` on: an access-denied
      attempt before the third stops Steam again and waits a second; the
      third one gives up; any other error gives up at once. */
  function WriteAttempts(h: Host, doc: Document, path: string, text: string, retry: nat): (r: (WriteResult, seq<Effect>))
    requires retry <= 2
    ensures r.1 != [] && r.1[0] == WriteFile(doc, path, text)
    decreases 2 - retry
  {
    var attempt := [WriteFile(doc, path, text)];
    match h.write(doc, retry)
    case Written => (Done, attempt)
    case WriteFailed(m) => (Failed(m), attempt)
    case AccessDenied(m) =>
      if retry == 2 then (Denied(m), attempt)
      else
        var next := WriteAttempts(h, doc, path, text, retry + 1);
        (next.0, attempt + [KillSteam, Sleep(1000)] + next.1)
  }

  /** The handler a loop that gave up reaches. */
  function WriteMessage(r: WriteResult): Option<Message> {
    match r
    case Done => None
    case Denied(m) => Some(AccessDeniedError(m))
    case Failed(m) => Some(WriteError(m))
  }

  function WriteStep(h: Host, doc: Document, path: string, text: string): Step {
    var r := WriteAttempts(h, doc, path, text, 0);
    Step(WriteMessage(r.0), r.1)
  }

  function ConfigPath(h: Host): string {
    PathCombine(PathCombine(h.installPath, "config"), "config.vdf")
  }

  function LoginUsersPath(h: Host): string {
    PathCombine(PathCombine(h.installPath, "config"), "loginusers.vdf")
  }

  /** Starting `steam.exe` when asked to. */
  function Launch(h: Host, startSteam: bool): (s: Step)
    ensures NoWrites(s.effects)
  {
    var exe := PathCombine(h.installPath, "steam.exe");
    if !startSteam then Step(None, [])
    else if !h.steamExeExists then Step(Some(SteamExeNotFound(exe)), [])
    else match h.startError
      case Some(m) => Step(Some(StartFailed(m)), [StartProcess(exe)])
      case None => Step(None, [StartProcess(exe)])
  }

  /** Stopping Steam, protecting the token, finding Steam. */
  function HeadSteps(h: Host, name: string, token: string): seq<Step> {
    [StopSteam(), EncryptStep(h, name, token), FindInstallPath(h)]
  }

  /** Clearing `local.vdf`, creating `config`, setting the registry. */
  function SetupSteps(h: Host, name: string): seq<Step> {
    [PreDelete(h), CreateConfigDirectory(h), SetRegistry(h, name)]
  }

  /** The three files, in the order they are written. */
  function WriteSteps(h: Host, name: string, steamId: string, jwt: string): seq<Step>
    requires ValidHost(h)
  {
    FileSteps(h, BuildConfig(Mtbf(h.draws), steamId, name), BuildLoginUsers(steamId, name, h.now),
              BuildLocal(CacheKey(name), jwt))
  }

  /** The three files with the given texts. */
  function FileSteps(h: Host, configText: string, loginUsersText: string, localText: string): seq<Step> {
    [ WriteStep(h, ConfigFile, ConfigPath(h), configText),
      WriteStep(h, LoginUsersFile, LoginUsersPath(h), loginUsersText),
      WriteStep(h, LocalFile, LocalVdfPath(h.localAppData), localText) ]
  }

  /** The stages after the token checks, in the order the source runs them. */
  function LoginSteps(h: Host, name: string, token: string, steamId: string, startSteam: bool): (steps: seq<Step>)
    requires ValidHost(h)
    ensures |steps| == 10
  {
    HeadSteps(h, name, token) + SetupSteps(h, name)
      + WriteSteps(h, name, steamId, EncryptedToken(h, name, token)) + [Launch(h, startSteam)]
  }

  /** `DoLogin(accountName, token, startSteam)`. A token the checks reject
      fails with their message and touches nothing; a login that succeeds
      passed the checks and reports the configured message. */
  function LoginSpec(accountName: string, token: string, startSteam: bool, h: Host): (r: Outcome)
    requires ValidHost(h)
    ensures TokenCheck(token, h.codecs).Err? ==>
      !r.success && r.effects == [] && r.message == TokenCheck(token, h.codecs).error
    ensures r.success ==> TokenCheck(token, h.codecs).Ok? && r.message == Configured
  {
    var name := NormalizeAccountName(accountName);
    match TokenCheck(token, h.codecs)
    case Err(m) => Outcome(false, m, [])
    case Ok(steamId) =>
      Finish(Chain(LoginSteps(h, name, token, steamId, startSteam)))
  }

  /** The pair `DoLogin` returns once the chain has run. */
  function Finish(s: Step): (r: Outcome)
    ensures r.effects == s.effects
    ensures r.success <==> s.error.None?
    ensures s.error.Some? ==> r.message == s.error.value
  {
    match s.error
    case Some(m) => Outcome(false, m, s.effects)
    case None => Outcome(true, Configured, s.effects)
  }

  // ---------------------------------------------------------------------
  // Walking the chain

  /** The first `k` stages succeeded with actions `done`. */
  ghost predicate Reached(steps: seq<Step>, k: nat, done: seq<Effect>)
    requires k <= |steps|
  {
    Chain(steps) == Then(Step(None, done), Chain(steps[k..]))
  }

  lemma ReachedStart(steps: seq<Step>)
    ensures Reached(steps, 0, [])
  {
    assert steps[0..] == steps;
  }

  /** Stage `k` either ends the chain or adds its actions. */
  lemma Advance(steps: seq<Step>, k: nat, done: seq<Effect>)
    requires k < |steps| && Reached(steps, k, done)
    ensures steps[k].error.Some? ==> Chain(steps) == Step(steps[k].error, done + steps[k].effects)
    ensures steps[k].error.None? ==> Reached(steps, k + 1, done + steps[k].effects)
  {
    assert steps[k..][1..] == steps[k + 1..];
    var rest := Chain(steps[k + 1..]);
    if steps[k].error.None? {
      assert done + (steps[k].effects + rest.effects) == (done + steps[k].effects) + rest.effects;
    }
  }

  lemma ReachedEnd(steps: seq<Step>, done: seq<Effect>)
    requires Reached(steps, |steps|, done)
    ensures Chain(steps) == Step(None, done)
  {
    assert done + [] == done;
  }

  // ---------------------------------------------------------------------
  // The method

  /** One attempt of the retry loop for one file, unfolded. */
  lemma AttemptStep(h: Host, doc: Document, path: string, text: string, retry: nat)
    requires retry <= 2
    ensures var r := WriteAttempts(h, doc, path, text, retry);
      match h.write(doc, retry)
      case Written => r == (Done, [WriteFile(doc, path, text)])
      case WriteFailed(m) => r == (Failed(m), [WriteFile(doc, path, text)])
      case AccessDenied(m) =>
        && (retry == 2 ==> r == (Denied(m), [WriteFile(doc, path, text)]))
        && (retry < 2 ==> r.0 == WriteAttempts(h, doc, path, text, retry + 1).0)
        && (retry < 2 ==> r.1 == [WriteFile(doc, path, text), KillSteam, Sleep(1000)]
                                 + WriteAttempts(h, doc, path, text, retry + 1).1)
  {
  }

  /** One of the three retry loops: `for (retry = 0; retry < 3; retry++)`.
      The loop never runs off its end (the third attempt succeeds, rethrows
      or fails with another error), so it is written without an exit test. */
  method WriteWithRetry(h: Host, doc: Document, path: string, text: string)
    returns (result: WriteResult, effects: seq<Effect>)
    ensures (result, effects) == WriteAttempts(h, doc, path, text, 0)
  {
    ghost var all := WriteAttempts(h, doc, path, text, 0);
    effects := [];
    var retry := 0;
    while true
      invariant retry <= 2
      invariant WriteAttempts(h, doc, path, text, retry).0 == all.0
      invariant effects + WriteAttempts(h, doc, path, text, retry).1 == all.1
      decreases 2 - retry
    {
      ghost var rest := WriteAttempts(h, doc, path, text, retry);
      AttemptStep(h, doc, path, text, retry);
      var outcome := h.write(doc, retry);
      if outcome.Written? {
        return Done, effects + [WriteFile(doc, path, text)];
      } else if outcome.WriteFailed? {
        return Failed(outcome.message), effects + [WriteFile(doc, path, text)];
      } else if retry == 2 {
        return Denied(outcome.message), effects + [WriteFile(doc, path, text)];
      }
      ghost var next := WriteAttempts(h, doc, path, text, retry + 1);
      assert effects + ([WriteFile(doc, path, text), KillSteam, Sleep(1000)] + next.1)
        == (effects + [WriteFile(doc, path, text), KillSteam, Sleep(1000)]) + next.1;
      effects := effects + [WriteFile(doc, path, text), KillSteam, Sleep(1000)];
      retry := retry + 1;
    }
  }

  /** The token checks at the head of `DoLogin`. */
  method CheckToken(token: string, codecs: Codecs) returns (r: Result<string, Message>)
    ensures r == TokenCheck(token, codecs)
  {
    var jsonData := ParseEya(token, codecs.utf8);
    if jsonData == "" {
      return Err(JwtUnreadable);
    }
    var steamId;
    match codecs.readSub(jsonData) {
      case Malformed(m) => return Err(LoginFailed(m));
      case NotAnObject(m) => return Err(LoginFailed(m));
      case NoSub => return Err(SubMissing);
      case SubNull => steamId := "";
      case SubNotString(m) => return Err(LoginFailed(m));
      case SubText(id) => steamId := id;
    }
    if steamId == "" {
      return Err(SteamIdEmpty);
    }
    return Ok(steamId);
  }

  /** Deleting an existing `local.vdf` before anything is written. */
  method RemoveLocalVdf(h: Host) returns (s: Step)
    ensures s == PreDelete(h)
  {
    var localVdfPath := LocalVdfPath(h.localAppData);
    if !h.localExists {
      return Step(None, []);
    }
    var effects := [DeleteFile(localVdfPath)];
    if h.firstDelete.Some? {
      effects := effects + [Sleep(500), DeleteFile(localVdfPath)];
      if h.secondDelete.Some? {
        return Step(Some(LocalVdfLocked(h.firstDelete.value)), effects);
      }
    }
    return Step(None, effects);
  }

  /** The registry block. */
  method WriteRegistry(h: Host, name: string) returns (s: Step)
    ensures s == SetRegistry(h, name)
  {
    match h.registry {
      case KeyMissing => return Step(Some(RegistryKeyMissing), []);
      case OpenFailed(m) => return Step(Some(RegistryFailed(m)), []);
      case SetFailed(m) => return Step(Some(RegistryFailed(m)), [SetAutoLoginUser(name)]);
      case ValueSet => return Step(None, [SetAutoLoginUser(name)]);
    }
  }

  /** One file: its retry loop and the handler it reaches. */
  method WriteDocument(h: Host, doc: Document, path: string, text: string) returns (s: Step)
    ensures s == WriteStep(h, doc, path, text)
  {
    var result, effects := WriteWithRetry(h, doc, path, text);
    s := Step(WriteMessage(result), effects);
  }

  /** The `startSteam` block. */
  method StartSteam(h: Host, path: string, startSteam: bool) returns (s: Step)
    requires path == h.installPath
    ensures s == Launch(h, startSteam)
  {
    if !startSteam {
      return Step(None, []);
    }
    var steamExe := PathCombine(path, "steam.exe");
    if !h.steamExeExists {
      return Step(Some(SteamExeNotFound(steamExe)), []);
    }
    match h.startError {
      case Some(m) => return Step(Some(StartFailed(m)), [StartProcess(steamExe)]);
      case None => return Step(None, [StartProcess(steamExe)]);
    }
  }

  /** Chaining two lists of stages. */
  lemma {:induction false} ChainAppend(a: seq<Step>, b: seq<Step>)
    ensures Chain(a + b) == Then(Chain(a), Chain(b))
    decreases |a|
  {
    if a == [] {
      assert a + b == b;
    } else {
      assert (a + b)[1..] == a[1..] + b;
      ChainAppend(a[1..], b);
      var x, y, z := a[0], Chain(a[1..]), Chain(b);
      if x.error.None? && y.error.None? {
        assert x.effects + (y.effects + z.effects) == (x.effects + y.effects) + z.effects;
      }
    }
  }

  /** Three lists of stages and a last stage. */
  lemma ChainGroups(p: seq<Step>, q: seq<Step>, r: seq<Step>, last: Step)
    ensures Chain(p + q + r + [last]) == Then(Chain(p), Then(Chain(q), Then(Chain(r), last)))
  {
    var l := [last];
    assert p + q + r + l == p + (q + (r + l));
    ChainAppend(p, q + (r + l));
    ChainAppend(q, r + l);
    ChainAppend(r, l);
    assert l[1..] == [];
    assert last.effects + [] == last.effects;
  }

  /** The login chain as its four groups. */
  lemma LoginStepsGroups(h: Host, name: string, token: string, steamId: string, startSteam: bool)
    requires ValidHost(h)
    ensures Chain(LoginSteps(h, name, token, steamId, startSteam))
      == Then(Chain(HeadSteps(h, name, token)),
         Then(Chain(SetupSteps(h, name)),
         Then(Chain(WriteSteps(h, name, steamId, EncryptedToken(h, name, token))),
              Launch(h, startSteam))))
  {
    ChainGroups(HeadSteps(h, name, token), SetupSteps(h, name),
                WriteSteps(h, name, steamId, EncryptedToken(h, name, token)), Launch(h, startSteam));
  }

  /** Stops Steam and waits, protects the token with `SteamEncrypt`, and
      looks up the install path. `jwt` is the protected token. */
  method StopAndLocate(h: Host, name: string, token: string) returns (s: Step, jwt: string)
    ensures s == Chain(HeadSteps(h, name, token))
    ensures s.error.None? ==> jwt == EncryptedToken(h, name, token)
  {
    ghost var steps := HeadSteps(h, name, token);
    ReachedStart(steps);
    var effects: seq<Effect> := [];
    s := Step(None, [KillSteam, Sleep(1000)]);
    Advance(steps, 0, effects);
    effects := effects + s.effects;
    var encrypted := SteamEncrypt(token, name, h.protect);
    jwt := if encrypted.Some? then encrypted.value else "";
    s := if encrypted.None? then Step(Some(LoginFailed(h.protectError)), []) else Step(None, []);
    Advance(steps, 1, effects);
    if s.error.Some? {
      return Step(s.error, effects + s.effects), jwt;
    }
    effects := effects + s.effects;
    s := if h.installPath == "" then Step(Some(InstallPathNotFound), []) else Step(None, []);
    Advance(steps, 2, effects);
    if s.error.Some? {
      return Step(s.error, effects + s.effects), jwt;
    }
    effects := effects + s.effects;
    ReachedEnd(steps, effects);
    s := Step(None, effects);
  }

  /** The file-system and registry preparation before the writes. */
  method Setup(h: Host, name: string) returns (s: Step)
    ensures s == Chain(SetupSteps(h, name))
  {
    ghost var steps := SetupSteps(h, name);
    ReachedStart(steps);
    var effects: seq<Effect> := [];
    s := RemoveLocalVdf(h);
    Advance(steps, 0, effects);
    if s.error.Some? {
      return Step(s.error, effects + s.effects);
    }
    effects := effects + s.effects;
    s := Step(if h.createDirError.Some? then Some(LoginFailed(h.createDirError.value)) else None,
              [CreateDirectory(PathCombine(h.installPath, "config"))]);
    Advance(steps, 1, effects);
    if s.error.Some? {
      return Step(s.error, effects + s.effects);
    }
    effects := effects + s.effects;
    s := WriteRegistry(h, name);
    Advance(steps, 2, effects);
    if s.error.Some? {
      return Step(s.error, effects + s.effects);
    }
    effects := effects + s.effects;
    ReachedEnd(steps, effects);
    s := Step(None, effects);
  }

  /** Building the three documents, then writing them. */
  method WriteFiles(h: Host, name: string, steamId: string, crc32AccountName: string, jwt: string)
    returns (s: Step)
    requires ValidHost(h) && crc32AccountName == CacheKey(name)
    ensures s == Chain(WriteSteps(h, name, steamId, jwt))
  {
    var mtbf := Mtbf(h.draws);
    var config := BuildVdf(ConfigTree(mtbf, steamId, name));
    var loginUsers := BuildVdf(LoginUsersTree(steamId, name, h.now));
    var local := BuildVdf(LocalTree(crc32AccountName, jwt));
    s := WriteTexts(h, config, loginUsers, local);
  }

  /** The three retry loops, one document after the other. */
  method WriteTexts(h: Host, config: string, loginUsers: string, local: string) returns (s: Step)
    ensures s == Chain(FileSteps(h, config, loginUsers, local))
  {
    var configPath := PathCombine(PathCombine(h.installPath, "config"), "config.vdf");
    var loginUsersPath := PathCombine(PathCombine(h.installPath, "config"), "loginusers.vdf");
    var localVdfPath := LocalVdfPath(h.localAppData);
    var first := WriteDocument(h, ConfigFile, configPath, config);
    if first.error.Some? {
      Chain3(first, WriteStep(h, LoginUsersFile, loginUsersPath, loginUsers),
             WriteStep(h, LocalFile, localVdfPath, local));
      return first;
    }
    var second := WriteDocument(h, LoginUsersFile, loginUsersPath, loginUsers);
    if second.error.Some? {
      Chain3(first, second, WriteStep(h, LocalFile, localVdfPath, local));
      return Step(second.error, first.effects + second.effects);
    }
    var third := WriteDocument(h, LocalFile, localVdfPath, local);
    Chain3(first, second, third);
    if third.error.Some? {
      return Step(third.error, first.effects + (second.effects + third.effects));
    }
    s := Step(None, first.effects + (second.effects + third.effects));
  }

  /** `DoLogin` after the token checks. */
  method Provision(h: Host, name: string, token: string, steamId: string, crc32AccountName: string, startSteam: bool)
    returns (s: Step)
    requires ValidHost(h) && crc32AccountName == CacheKey(name)
    ensures s == Chain(LoginSteps(h, name, token, steamId, startSteam))
  {
    LoginStepsGroups(h, name, token, steamId, startSteam);
    var head, jwt := StopAndLocate(h, name, token);
    if head.error.Some? {
      return head;
    }
    var setup := Setup(h, name);
    if setup.error.Some? {
      return Step(setup.error, head.effects + setup.effects);
    }
    var writes := WriteFiles(h, name, steamId, crc32AccountName, jwt);
    if writes.error.Some? {
      return Step(writes.error, head.effects + (setup.effects + writes.effects));
    }
    var launch := StartSteam(h, h.installPath, startSteam);
    s := Step(launch.error, head.effects + (setup.effects + (writes.effects + launch.effects)));
  }

  /** `DoLogin`, with the message as a `Message`; `table` is `Crc32.Table`. */
  method Login(table: array<u32>, accountName: string, token: string, startSteam: bool, h: Host)
    returns (success: bool, message: Message, effects: seq<Effect>)
    requires IsCrcTable(table) && ValidHost(h)
    ensures Outcome(success, message, effects) == LoginSpec(accountName, token, startSteam, h)
  {
    var name := accountName;
    if '@' in name {
      name := Split(name, '@')[0];
    }
    var crc := ComputeCrc32(table, name);
    var crc32AccountName := crc + "1";
    var check := CheckToken(token, h.codecs);
    if check.Err? {
      return false, check.error, [];
    }
    var s := Provision(h, name, token, check.value, crc32AccountName, startSteam);
    effects := s.effects;
    if s.error.Some? {
      return false, s.error.value, effects;
    }
    return true, Configured, effects;
  }

  /** `DoLogin(accountName, token, startSteam)`: the status and message it
      returns, and the actions it took. */
  method DoLogin(table: array<u32>, accountName: string, token: string, startSteam: bool, h: Host)
    returns (status: string, message: string, effects: seq<Effect>)
    requires IsCrcTable(table) && ValidHost(h)
    ensures var r := LoginSpec(accountName, token, startSteam, h);
      status == StatusText(r.success) && message == MessageText(r.message) && effects == r.effects
  {
    var success, m;
    success, m, effects := Login(table, accountName, token, startSteam, h);
    status, message := StatusText(success), MessageText(m);
  }

  // ---------------------------------------------------------------------
  // Properties of the login

  /** The documents written, in the order of their write attempts. */
  function Writes(effects: seq<Effect>): (docs: seq<Document>)
    ensures |docs| <= |effects|
  {
    if effects == [] then []
    else (if effects[0].WriteFile? then [effects[0].doc] else []) + Writes(effects[1..])
  }

  lemma {:induction false} WritesAppend(a: seq<Effect>, b: seq<Effect>)
    ensures Writes(a + b) == Writes(a) + Writes(b)
    decreases |a|
  {
    if a == [] {
      assert a + b == b;
    } else {
      var head := if a[0].WriteFile? then [a[0].doc] else [];
      assert (a + b)[0] == a[0];
      assert (a + b)[1..] == a[1..] + b;
      WritesAppend(a[1..], b);
      assert Writes(a + b) == head + (Writes(a[1..]) + Writes(b));
      assert head + (Writes(a[1..]) + Writes(b)) == (head + Writes(a[1..])) + Writes(b);
    }
  }

  lemma {:induction false} NoWritesNone(e: seq<Effect>)
    ensures NoWrites(e) <==> Writes(e) == []
    decreases |e|
  {
    if e != [] {
      NoWritesNone(e[1..]);
      if NoWrites(e[1..]) {
        assert NoWrites(e) <==> !e[0].WriteFile?;
      } else {
        var i :| 0 <= i < |e[1..]| && e[1..][i].WriteFile?;
        assert e[i + 1].WriteFile?;
      }
    }
  }

  lemma WritesThree(doc: Document, path: string, text: string)
    ensures Writes([WriteFile(doc, path, text), KillSteam, Sleep(1000)]) == [doc]
  {
    var e := [WriteFile(doc, path, text), KillSteam, Sleep(1000)];
    assert e[1..][1..][1..] == [];
    assert Writes(e[1..][1..]) == [];
    assert Writes(e[1..]) == [];
  }

  /** `n` copies of a document. */
  function Repeat(d: Document, n: nat): (r: seq<Document>)
    ensures |r| == n && forall i | 0 <= i < n :: r[i] == d
  {
    seq(n, _ => d)
  }

  /** How many attempts the retry loop for a file makes from attempt `retry` on. */
  function AttemptCount(h: Host, doc: Document, retry: nat): (n: nat)
    requires retry <= 2
    ensures 1 <= n <= 3 - retry
    decreases 2 - retry
  {
    if retry < 2 && h.write(doc, retry).AccessDenied? then 1 + AttemptCount(h, doc, retry + 1) else 1
  }

  /** The actions of `n` attempts: each failed one is followed by a re-kill and a wait. */
  function AttemptEffects(doc: Document, path: string, text: string, n: nat): seq<Effect>
    requires n >= 1
  {
    if n == 1 then [WriteFile(doc, path, text)]
    else [WriteFile(doc, path, text), KillSteam, Sleep(1000)] + AttemptEffects(doc, path, text, n - 1)
  }

  lemma {:induction false} AttemptEffectsCounts(doc: Document, path: string, text: string, n: nat)
    requires n >= 1
    ensures Writes(AttemptEffects(doc, path, text, n)) == Repeat(doc, n)
    ensures multiset(AttemptEffects(doc, path, text, n))[KillSteam] == n - 1
    ensures forall e | e in AttemptEffects(doc, path, text, n) :: e == WriteFile(doc, path, text) || e == KillSteam || e == Sleep(1000)
  {
    if n > 1 {
      AttemptEffectsCounts(doc, path, text, n - 1);
      var rest := AttemptEffects(doc, path, text, n - 1);
      WritesAppend([WriteFile(doc, path, text), KillSteam, Sleep(1000)], rest);
      WritesThree(doc, path, text);
      assert Repeat(doc, n) == [doc] + Repeat(doc, n - 1);
    } else {
      assert Writes([WriteFile(doc, path, text)]) == [doc];
    }
  }

  /** How the loop ends after the attempt that stopped it. */
  function FinalResult(w: WriteOutcome): WriteResult {
    match w
    case Written => Done
    case WriteFailed(m) => Failed(m)
    case AccessDenied(m) => Denied(m)
  }

  /** The retry loop from attempt `retry` on, as attempt counts. */
  lemma {:induction false} AttemptsShape(h: Host, doc: Document, path: string, text: string, retry: nat)
    requires retry <= 2
    ensures var n := AttemptCount(h, doc, retry);
      && WriteAttempts(h, doc, path, text, retry).1 == AttemptEffects(doc, path, text, n)
      && (forall i | retry <= i < retry + n - 1 :: h.write(doc, i).AccessDenied?)
      && WriteAttempts(h, doc, path, text, retry).0 == FinalResult(h.write(doc, retry + n - 1))
      && (h.write(doc, retry + n - 1).AccessDenied? ==> retry + n - 1 == 2)
    decreases 2 - retry
  {
    if retry < 2 && h.write(doc, retry).AccessDenied? {
      AttemptsShape(h, doc, path, text, retry + 1);
    }
  }

  /** The retry policy for one file: at most three attempts, a re-kill and a
      wait between two attempts, a retry only after an access-denied error,
      and "access denied" reported only after three of them in a row. */
  lemma RetryPolicy(h: Host, doc: Document, path: string, text: string)
    ensures var r := WriteAttempts(h, doc, path, text, 0);
      var n := |Writes(r.1)|;
      && 1 <= n <= 3
      && Writes(r.1) == Repeat(doc, n)
      && multiset(r.1)[KillSteam] == n - 1
      && (forall i | 0 <= i < n - 1 :: h.write(doc, i).AccessDenied?)
      && (r.0 == Done <==> h.write(doc, n - 1) == Written)
      && (r.0.Failed? <==> h.write(doc, n - 1).WriteFailed?)
      && (r.0.Denied? <==> n == 3 && h.write(doc, 2).AccessDenied?)
      && r.0 == FinalResult(h.write(doc, n - 1))
  {
    var n := AttemptCount(h, doc, 0);
    AttemptsShape(h, doc, path, text, 0);
    AttemptEffectsCounts(doc, path, text, n);
    var r := WriteAttempts(h, doc, path, text, 0);
    assert |Writes(r.1)| == n;
    assert r.0 == FinalResult(h.write(doc, n - 1));
  }

  /** A stage list none of whose stages writes a file leads to no write. */
  lemma {:induction false} ChainNoWrites(steps: seq<Step>)
    requires forall i | 0 <= i < |steps| :: NoWrites(steps[i].effects)
    ensures NoWrites(Chain(steps).effects)
  {
    if steps != [] {
      ChainNoWrites(steps[1..]);
      NoWritesNone(steps[0].effects);
      NoWritesNone(Chain(steps[1..]).effects);
      NoWritesNone(Chain(steps).effects);
      WritesAppend(steps[0].effects, Chain(steps[1..]).effects);
    }
  }

  /** After the token checks, the outcome is the four groups chained. */
  lemma LoginSpecGroups(accountName: string, token: string, startSteam: bool, h: Host)
    requires ValidHost(h) && TokenCheck(token, h.codecs).Ok?
    ensures var name := NormalizeAccountName(accountName);
      var steamId := TokenCheck(token, h.codecs).value;
      LoginSpec(accountName, token, startSteam, h)
        == Finish(Then(Chain(HeadSteps(h, name, token)),
                  Then(Chain(SetupSteps(h, name)),
                  Then(Chain(WriteSteps(h, name, steamId, EncryptedToken(h, name, token))),
                       Launch(h, startSteam)))))
  {
    var name := NormalizeAccountName(accountName);
    LoginStepsGroups(h, name, token, TokenCheck(token, h.codecs).value, startSteam);
  }

  /** Three stages chained. */
  lemma Chain3(a: Step, b: Step, c: Step)
    ensures Chain([a, b, c]) == Then(a, Then(b, c))
  {
    assert [c][1..] == [];
    assert Chain([c]) == c by {
      assert Chain([c]) == Then(c, Chain([]));
      assert c.effects + [] == c.effects;
    }
    assert [b, c][1..] == [c];
    assert Chain([b, c]) == Then(b, c);
    assert [a, b, c][1..] == [b, c];
  }

  /** Stopping Steam, protecting the token and finding Steam only stop Steam;
      a missing installation path ends the chain. */
  lemma HeadStops(h: Host, name: string, token: string)
    ensures OnlyStops(Chain(HeadSteps(h, name, token)).effects)
    ensures NoWrites(Chain(HeadSteps(h, name, token)).effects)
    ensures h.installPath == "" ==> Chain(HeadSteps(h, name, token)).error.Some?
  {
    Chain3(StopSteam(), EncryptStep(h, name, token), FindInstallPath(h));
  }

  /** The preparation writes no document, and fails when the registry does. */
  lemma SetupFails(h: Host, name: string)
    ensures NoWrites(Chain(SetupSteps(h, name)).effects)
    ensures h.registry != ValueSet ==> Chain(SetupSteps(h, name)).error.Some?
  {
    Chain3(PreDelete(h), CreateConfigDirectory(h), SetRegistry(h, name));
    var a, b, c := PreDelete(h), CreateConfigDirectory(h), SetRegistry(h, name);
    if a.error.None? && b.error.None? {
      NoWritesAppend(b.effects, c.effects);
      NoWritesAppend(a.effects, b.effects + c.effects);
    } else if a.error.None? {
      NoWritesAppend(a.effects, b.effects);
    }
  }

  /** A token the checks reject ends the login before Steam is stopped or
      anything is touched. */
  lemma TokenFailureTouchesNothing(accountName: string, token: string, startSteam: bool, h: Host)
    requires ValidHost(h) && TokenCheck(token, h.codecs).Err?
    ensures LoginSpec(accountName, token, startSteam, h) == Outcome(false, TokenCheck(token, h.codecs).error, [])
    ensures ParseEya(token, h.codecs.utf8) == "" ==> LoginSpec(accountName, token, startSteam, h).message == JwtUnreadable
  {
  }

  /** Without an installation path only Steam is stopped: no file, directory,
      registry value or process is touched. */
  lemma MissingInstallPath(accountName: string, token: string, startSteam: bool, h: Host)
    requires ValidHost(h) && h.installPath == ""
    ensures !LoginSpec(accountName, token, startSteam, h).success
    ensures OnlyStops(LoginSpec(accountName, token, startSteam, h).effects)
  {
    if TokenCheck(token, h.codecs).Ok? {
      LoginSpecGroups(accountName, token, startSteam, h);
      HeadStops(h, NormalizeAccountName(accountName), token);
    }
  }

  /** A registry failure ends the login before any document is written. */
  lemma RegistryFailureWritesNothing(accountName: string, token: string, startSteam: bool, h: Host)
    requires ValidHost(h) && h.registry != ValueSet
    ensures !LoginSpec(accountName, token, startSteam, h).success
    ensures NoWrites(LoginSpec(accountName, token, startSteam, h).effects)
  {
    if TokenCheck(token, h.codecs).Ok? {
      var name := NormalizeAccountName(accountName);
      LoginSpecGroups(accountName, token, startSteam, h);
      HeadStops(h, name, token);
      SetupFails(h, name);
      var head, setup := Chain(HeadSteps(h, name, token)), Chain(SetupSteps(h, name));
      if head.error.None? {
        NoWritesAppend(head.effects, setup.effects);
      }
    }
  }

  lemma NoWritesAppend(a: seq<Effect>, b: seq<Effect>)
    requires NoWrites(a) && NoWrites(b)
    ensures NoWrites(a + b)
  {
    NoWritesNone(a);
    NoWritesNone(b);
    WritesAppend(a, b);
    NoWritesNone(a + b);
  }

  /** Documents whose write attempts come in the order config, login users, local. */
  predicate InOrder(docs: seq<Document>) {
    forall i, j | 0 <= i < j < |docs| :: Rank(docs[i]) <= Rank(docs[j])
  }

  lemma {:induction false} RepeatCount(d: Document, n: nat)
    ensures multiset(Repeat(d, n))[d] == n
    ensures forall x | x != d :: multiset(Repeat(d, n))[x] == 0
  {
    if n > 0 {
      RepeatCount(d, n - 1);
      assert Repeat(d, n) == Repeat(d, n - 1) + [d];
    }
  }

  /** Attempts on the three files, each file's attempts together. */
  lemma RepeatsInOrder(n1: nat, n2: nat, n3: nat)
    requires n1 <= 3 && n2 <= 3 && n3 <= 3
    ensures var w := Repeat(ConfigFile, n1) + Repeat(LoginUsersFile, n2) + Repeat(LocalFile, n3);
      InOrder(w) && forall d :: multiset(w)[d] <= 3
  {
    var w := Repeat(ConfigFile, n1) + Repeat(LoginUsersFile, n2) + Repeat(LocalFile, n3);
    forall i | 0 <= i < |w|
      ensures Rank(w[i]) == if i < n1 then 0 else if i < n1 + n2 then 1 else 2
    {
    }
    RepeatCount(ConfigFile, n1);
    RepeatCount(LoginUsersFile, n2);
    RepeatCount(LocalFile, n3);
  }

  /** The writes of the whole login are those of the write stages, when
      they are reached. */
  lemma GroupWrites(head: Step, setup: Step, writes: Step, launch: Step)
    requires NoWrites(head.effects) && NoWrites(setup.effects) && NoWrites(launch.effects)
    ensures Writes(Then(head, Then(setup, Then(writes, launch))).effects)
      == if head.error.None? && setup.error.None? then Writes(writes.effects) else []
  {
    NoWritesNone(head.effects);
    NoWritesNone(setup.effects);
    NoWritesNone(launch.effects);
    if head.error.None? {
      if setup.error.None? {
        var rest := Then(writes, launch).effects;
        if writes.error.None? {
          WritesAppend(writes.effects, launch.effects);
        }
        assert Writes(rest) == Writes(writes.effects);
        WritesAppend(setup.effects, rest);
        WritesAppend(head.effects, setup.effects + rest);
      } else {
        WritesAppend(head.effects, setup.effects);
      }
    }
  }

  /** One file's stage writes that file only, at most three times. */
  lemma WriteStepShape(h: Host, doc: Document, path: string, text: string)
    ensures var w := Writes(WriteStep(h, doc, path, text).effects);
      |w| <= 3 && w == Repeat(doc, |w|)
  {
    RetryPolicy(h, doc, path, text);
  }

  /** Three stages writing the three files in order. */
  lemma ChainOfRepeats(w1: Step, w2: Step, w3: Step)
    requires Writes(w1.effects) == Repeat(ConfigFile, |Writes(w1.effects)|) && |Writes(w1.effects)| <= 3
    requires Writes(w2.effects) == Repeat(LoginUsersFile, |Writes(w2.effects)|) && |Writes(w2.effects)| <= 3
    requires Writes(w3.effects) == Repeat(LocalFile, |Writes(w3.effects)|) && |Writes(w3.effects)| <= 3
    ensures var w := Writes(Chain([w1, w2, w3]).effects);
      InOrder(w) && forall d :: multiset(w)[d] <= 3
  {
    Chain3(w1, w2, w3);
    var n1, n2, n3 := |Writes(w1.effects)|, |Writes(w2.effects)|, |Writes(w3.effects)|;
    var c := Chain([w1, w2, w3]);
    if w1.error.Some? {
      assert Writes(c.effects) == Repeat(ConfigFile, n1) + Repeat(LoginUsersFile, 0) + Repeat(LocalFile, 0);
      RepeatsInOrder(n1, 0, 0);
    } else if w2.error.Some? {
      WritesAppend(w1.effects, w2.effects);
      assert Writes(c.effects) == Repeat(ConfigFile, n1) + Repeat(LoginUsersFile, n2) + Repeat(LocalFile, 0);
      RepeatsInOrder(n1, n2, 0);
    } else {
      WritesAppend(w2.effects, w3.effects);
      WritesAppend(w1.effects, w2.effects + w3.effects);
      assert Writes(c.effects) == Repeat(ConfigFile, n1) + Repeat(LoginUsersFile, n2) + Repeat(LocalFile, n3);
      RepeatsInOrder(n1, n2, n3);
    }
  }

  /** The write stages, by the attempts each makes. */
  lemma WriteGroupShape(h: Host, configText: string, loginUsersText: string, localText: string)
    ensures var c := Chain(FileSteps(h, configText, loginUsersText, localText));
      InOrder(Writes(c.effects)) && forall d :: multiset(Writes(c.effects))[d] <= 3
  {
    WriteStepShape(h, ConfigFile, ConfigPath(h), configText);
    WriteStepShape(h, LoginUsersFile, LoginUsersPath(h), loginUsersText);
    WriteStepShape(h, LocalFile, LocalVdfPath(h.localAppData), localText);
    var steps := FileSteps(h, configText, loginUsersText, localText);
    ChainOfRepeats(steps[0], steps[1], steps[2]);
    assert steps == [steps[0], steps[1], steps[2]];
  }

  /** `config.vdf`, `loginusers.vdf` and `local.vdf` are written in that
      order, each at most three times. */
  lemma WritesInOrder(accountName: string, token: string, startSteam: bool, h: Host)
    requires ValidHost(h)
    ensures var w := Writes(LoginSpec(accountName, token, startSteam, h).effects);
      InOrder(w) && forall d :: multiset(w)[d] <= 3
  {
    if TokenCheck(token, h.codecs).Ok? {
      var name := NormalizeAccountName(accountName);
      var steamId := TokenCheck(token, h.codecs).value;
      var jwt := EncryptedToken(h, name, token);
      LoginSpecGroups(accountName, token, startSteam, h);
      HeadStops(h, name, token);
      SetupFails(h, name);
      GroupWrites(Chain(HeadSteps(h, name, token)), Chain(SetupSteps(h, name)),
                  Chain(WriteSteps(h, name, steamId, jwt)), Launch(h, startSteam));
      WriteGroupShape(h, BuildConfig(Mtbf(h.draws), steamId, name),
        BuildLoginUsers(steamId, name, h.now), BuildLocal(CacheKey(name), jwt));
    }
  }

  /** A file denied three times ends the write stages at that file. */
  lemma ChainDenied(w1: Step, w2: Step, w3: Step, k: nat)
    requires Writes(w1.effects) == Repeat(ConfigFile, |Writes(w1.effects)|)
    requires Writes(w2.effects) == Repeat(LoginUsersFile, |Writes(w2.effects)|)
    requires Writes(w3.effects) == Repeat(LocalFile, |Writes(w3.effects)|)
    requires k < 3 && [w1, w2, w3][k].error.Some?
    ensures var c := Chain([w1, w2, w3]);
      && c.error.Some?
      && (forall x | x in Writes(c.effects) :: Rank(x) <= k)
      && ((exists x | x in Writes(c.effects) :: Rank(x) == k) ==> c.error == [w1, w2, w3][k].error)
  {
    Chain3(w1, w2, w3);
    var n1, n2, n3 := |Writes(w1.effects)|, |Writes(w2.effects)|, |Writes(w3.effects)|;
    var c := Chain([w1, w2, w3]);
    WritesAppend(w1.effects, w2.effects);
    WritesAppend(w2.effects, w3.effects);
    WritesAppend(w1.effects, w2.effects + w3.effects);
    if w1.error.Some? {
      assert Writes(c.effects) == Repeat(ConfigFile, n1);
    } else if w2.error.Some? {
      assert Writes(c.effects) == Repeat(ConfigFile, n1) + Repeat(LoginUsersFile, n2);
    } else {
      assert Writes(c.effects) == Repeat(ConfigFile, n1) + Repeat(LoginUsersFile, n2) + Repeat(LocalFile, n3);
    }
  }

  /** A file denied on all three attempts. */
  lemma DeniedStep(h: Host, doc: Document, path: string, text: string)
    requires forall i | 0 <= i < 3 :: h.write(doc, i).AccessDenied?
    ensures var w := Writes(WriteStep(h, doc, path, text).effects);
      w == Repeat(doc, |w|)
    ensures WriteStep(h, doc, path, text).error == Some(AccessDeniedError(h.write(doc, 2).message))
  {
    RetryPolicy(h, doc, path, text);
  }

  /** The write stages when one file is denied three times. */
  lemma WriteGroupDenied(h: Host, configText: string, loginUsersText: string, localText: string, d: Document)
    requires forall i | 0 <= i < 3 :: h.write(d, i).AccessDenied?
    ensures var c := Chain(FileSteps(h, configText, loginUsersText, localText));
      && c.error.Some?
      && (forall x | x in Writes(c.effects) :: Rank(x) <= Rank(d))
      && (d in Writes(c.effects) ==> c.error == Some(AccessDeniedError(h.write(d, 2).message)))
  {
    var steps := FileSteps(h, configText, loginUsersText, localText);
    WriteStepShape(h, ConfigFile, ConfigPath(h), configText);
    WriteStepShape(h, LoginUsersFile, LoginUsersPath(h), loginUsersText);
    WriteStepShape(h, LocalFile, LocalVdfPath(h.localAppData), localText);
    match d {
      case ConfigFile => DeniedStep(h, d, ConfigPath(h), configText);
      case LoginUsersFile => DeniedStep(h, d, LoginUsersPath(h), loginUsersText);
      case LocalFile => DeniedStep(h, d, LocalVdfPath(h.localAppData), localText);
    }
    assert steps == [steps[0], steps[1], steps[2]];
    ChainDenied(steps[0], steps[1], steps[2], Rank(d));
    var c := Chain(steps);
    if d in Writes(c.effects) {
      assert Rank(d) == Rank(d);
    }
  }

  /** The third access-denied error on a file ends the login: no later file
      is written and the message is the access-denied one. */
  lemma DeniedAbortsLaterFiles(accountName: string, token: string, startSteam: bool, h: Host, d: Document)
    requires ValidHost(h) && forall i | 0 <= i < 3 :: h.write(d, i).AccessDenied?
    ensures var r := LoginSpec(accountName, token, startSteam, h);
      && !r.success
      && (forall x | x in Writes(r.effects) :: Rank(x) <= Rank(d))
      && (d in Writes(r.effects) ==> r.message == AccessDeniedError(h.write(d, 2).message))
  {
    if TokenCheck(token, h.codecs).Ok? {
      var name := NormalizeAccountName(accountName);
      var steamId := TokenCheck(token, h.codecs).value;
      var jwt := EncryptedToken(h, name, token);
      LoginSpecGroups(accountName, token, startSteam, h);
      HeadStops(h, name, token);
      SetupFails(h, name);
      GroupWrites(Chain(HeadSteps(h, name, token)), Chain(SetupSteps(h, name)),
                  Chain(WriteSteps(h, name, steamId, jwt)), Launch(h, startSteam));
      WriteGroupDenied(h, BuildConfig(Mtbf(h.draws), steamId, name),
        BuildLoginUsers(steamId, name, h.now), BuildLocal(CacheKey(name), jwt), d);
    }
  }

  /** Three stages that all succeed. */
  lemma Chain3Ok(a: Step, b: Step, c: Step)
    ensures Chain([a, b, c]).error.None? <==> a.error.None? && b.error.None? && c.error.None?
    ensures Chain([a, b, c]).error.None? ==> Chain([a, b, c]).effects == a.effects + b.effects + c.effects
  {
    Chain3(a, b, c);
    assert a.effects + (b.effects + c.effects) == a.effects + b.effects + c.effects;
  }

  /** The four groups, all succeeding. */
  lemma GroupsOk(head: Step, setup: Step, writes: Step, launch: Step)
    ensures Then(head, Then(setup, Then(writes, launch))).error.None?
      <==> head.error.None? && setup.error.None? && writes.error.None? && launch.error.None?
    ensures Then(head, Then(setup, Then(writes, launch))).error.None? ==>
      Then(head, Then(setup, Then(writes, launch))).effects
        == head.effects + setup.effects + writes.effects + launch.effects
  {
    assert head.effects + (setup.effects + (writes.effects + launch.effects))
      == head.effects + setup.effects + writes.effects + launch.effects;
  }

  lemma HeadOk(h: Host, name: string, token: string)
    requires h.protect(Utf8Encode(token), Utf8Encode(name)).Some? && h.installPath != ""
    ensures Chain(HeadSteps(h, name, token)) == Step(None, [KillSteam, Sleep(1000)])
  {
    Chain3Ok(StopSteam(), EncryptStep(h, name, token), FindInstallPath(h));
    assert [KillSteam, Sleep(1000)] + [] + [] == [KillSteam, Sleep(1000)];
  }

  lemma SetupOk(h: Host, name: string)
    requires !(h.localExists && h.firstDelete.Some? && h.secondDelete.Some?)
    requires h.createDirError.None? && h.registry == ValueSet
    ensures Chain(SetupSteps(h, name))
      == Step(None, PreDelete(h).effects + [CreateDirectory(PathCombine(h.installPath, "config")), SetAutoLoginUser(name)])
  {
    Chain3Ok(PreDelete(h), CreateConfigDirectory(h), SetRegistry(h, name));
  }

  lemma WritesOk(h: Host, configText: string, loginUsersText: string, localText: string)
    requires forall d :: h.write(d, 0) == Written
    ensures Chain(FileSteps(h, configText, loginUsersText, localText)) == Step(None,
      [ WriteFile(ConfigFile, ConfigPath(h), configText),
        WriteFile(LoginUsersFile, LoginUsersPath(h), loginUsersText),
        WriteFile(LocalFile, LocalVdfPath(h.localAppData), localText) ])
  {
    var steps := FileSteps(h, configText, loginUsersText, localText);
    assert steps == [steps[0], steps[1], steps[2]];
    Chain3Ok(steps[0], steps[1], steps[2]);
  }

  lemma LaunchOk(h: Host, startSteam: bool)
    requires startSteam ==> h.steamExeExists && h.startError.None?
    ensures Launch(h, startSteam)
      == Step(None, if startSteam then [StartProcess(PathCombine(h.installPath, "steam.exe"))] else [])
  {
  }

  /** Four groups that all succeed, chained. */
  lemma Assemble(head: Step, setup: Step, writes: Step, launch: Step)
    requires head.error.None? && setup.error.None? && writes.error.None? && launch.error.None?
    ensures Finish(Then(head, Then(setup, Then(writes, launch))))
      == Outcome(true, Configured, head.effects + setup.effects + writes.effects + launch.effects)
  {
    GroupsOk(head, setup, writes, launch);
  }

  /** When every oracle answers well, the login stops Steam, clears
      `local.vdf`, creates `config`, sets the registry value, writes the
      three documents once each and starts Steam. */
  lemma HappyPath(accountName: string, token: string, startSteam: bool, h: Host)
    requires ValidHost(h) && TokenCheck(token, h.codecs).Ok?
    requires h.protect(Utf8Encode(token), Utf8Encode(NormalizeAccountName(accountName))).Some?
    requires h.installPath != ""
    requires !(h.localExists && h.firstDelete.Some? && h.secondDelete.Some?)
    requires h.createDirError.None? && h.registry == ValueSet
    requires forall d :: h.write(d, 0) == Written
    requires startSteam ==> h.steamExeExists && h.startError.None?
    ensures var name := NormalizeAccountName(accountName);
      var steamId := TokenCheck(token, h.codecs).value;
      var jwt := SteamEncrypt(token, name, h.protect).value;
      LoginSpec(accountName, token, startSteam, h) == Outcome(true, Configured,
        [KillSteam, Sleep(1000)]
        + (PreDelete(h).effects + [CreateDirectory(PathCombine(h.installPath, "config")), SetAutoLoginUser(name)])
        + [ WriteFile(ConfigFile, ConfigPath(h), BuildConfig(Mtbf(h.draws), steamId, name)),
            WriteFile(LoginUsersFile, LoginUsersPath(h), BuildLoginUsers(steamId, name, h.now)),
            WriteFile(LocalFile, LocalVdfPath(h.localAppData), BuildLocal(CacheKey(name), jwt)) ]
        + (if startSteam then [StartProcess(PathCombine(h.installPath, "steam.exe"))] else []))
  {
    var name := NormalizeAccountName(accountName);
    var steamId := TokenCheck(token, h.codecs).value;
    var jwt := EncryptedToken(h, name, token);
    LoginSpecGroups(accountName, token, startSteam, h);
    HeadOk(h, name, token);
    SetupOk(h, name);
    WritesOk(h, BuildConfig(Mtbf(h.draws), steamId, name),
      BuildLoginUsers(steamId, name, h.now), BuildLocal(CacheKey(name), jwt));
    LaunchOk(h, startSteam);
    Assemble(Chain(HeadSteps(h, name, token)), Chain(SetupSteps(h, name)),
             Chain(WriteSteps(h, name, steamId, jwt)), Launch(h, startSteam));
  }

  /** A file's stage that succeeded: its last attempt wrote the file. */
  lemma WriteStepDone(h: Host, doc: Document, path: string, text: string)
    requires WriteStep(h, doc, path, text).error.None?
    ensures h.write(doc, AttemptCount(h, doc, 0) - 1) == Written
  {
    AttemptsShape(h, doc, path, text, 0);
  }

  /** Each file's retry loop ended with a write that went through. */
  predicate AllWritten(h: Host) {
    && h.write(ConfigFile, AttemptCount(h, ConfigFile, 0) - 1) == Written
    && h.write(LoginUsersFile, AttemptCount(h, LoginUsersFile, 0) - 1) == Written
    && h.write(LocalFile, AttemptCount(h, LocalFile, 0) - 1) == Written
  }

  /** The write stages, all succeeding: each file's retry loop ended with a
      write that went through. */
  lemma WriteGroupDone(h: Host, configText: string, loginUsersText: string, localText: string)
    requires Chain(FileSteps(h, configText, loginUsersText, localText)).error.None?
    ensures AllWritten(h)
  {
    var config := WriteStep(h, ConfigFile, ConfigPath(h), configText);
    var loginUsers := WriteStep(h, LoginUsersFile, LoginUsersPath(h), loginUsersText);
    var local := WriteStep(h, LocalFile, LocalVdfPath(h.localAppData), localText);
    Chain3Ok(config, loginUsers, local);
    StagesWritten(h, config, loginUsers, local, ConfigPath(h), LoginUsersPath(h),
      LocalVdfPath(h.localAppData), configText, loginUsersText, localText);
  }

  /** Each file written in the end, from successful stages. */
  lemma StagesWritten(h: Host, config: Step, loginUsers: Step, local: Step,
                      configPath: string, loginUsersPath: string, localPath: string,
                      configText: string, loginUsersText: string, localText: string)
    requires config == WriteStep(h, ConfigFile, configPath, configText) && config.error.None?
    requires loginUsers == WriteStep(h, LoginUsersFile, loginUsersPath, loginUsersText) && loginUsers.error.None?
    requires local == WriteStep(h, LocalFile, localPath, localText) && local.error.None?
    ensures AllWritten(h)
  {
    WriteStepDone(h, ConfigFile, configPath, configText);
    WriteStepDone(h, LoginUsersFile, loginUsersPath, loginUsersText);
    WriteStepDone(h, LocalFile, localPath, localText);
  }

  /** A login reported as successful set the registry value and ended each
      file's retry loop with a write that went through. */
  lemma SuccessMeansConfigured(accountName: string, token: string, startSteam: bool, h: Host)
    requires ValidHost(h) && LoginSpec(accountName, token, startSteam, h).success
    ensures TokenCheck(token, h.codecs).Ok?
    ensures h.installPath != "" && h.registry == ValueSet
    ensures AllWritten(h)
  {
    var name := NormalizeAccountName(accountName);
    var steamId := TokenCheck(token, h.codecs).value;
    var jwt := EncryptedToken(h, name, token);
    LoginSpecGroups(accountName, token, startSteam, h);
    HeadStops(h, name, token);
    SetupFails(h, name);
    var head, setup, writes := Chain(HeadSteps(h, name, token)), Chain(SetupSteps(h, name)),
                               Chain(WriteSteps(h, name, steamId, jwt));
    GroupsOk(head, setup, writes, Launch(h, startSteam));
    WriteGroupDone(h, BuildConfig(Mtbf(h.draws), steamId, name),
      BuildLoginUsers(steamId, name, h.now), BuildLocal(CacheKey(name), jwt));
  }
}
