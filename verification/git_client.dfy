/** The `Git` wrapper class (Tasks/DownloadArtifactsGitHubEnterprise/Git.ts):
    authentication derivation in the constructor, the fixed argument list of
    each git operation, the mapping from exit code to result, and the secret
    scrubbing applied to everything the wrapped process prints. Running git
    is an oracle: a synchronous runner returns exit code and output for an
    argument list, an asynchronous one returns the exit code. */
module GitClient {
  import opened Wrappers
  import Utf8
  import Base64
  import JsString

  const UnsupportedAuthentication := "Unsupported or no authentication method is supplied!"
  const GitNotFound := "Git not found. Please ensure installed system-wide, or its available in the agent externals folder."
  const BasicPrefix := "AUTHORIZATION: basic "
  const BearerPrefix := "AUTHORIZATION: bearer "
  const Redaction := "***"
  const DebugPrefix := "[debug]"

  /** `authHeaderValue` (the secret) and `authHeader` (the header line built on it). */
  datatype Auth = Auth(secret: string, header: string)

  /** A constructed wrapper. `gitPath` is the executable the constructor verified. */
  datatype Git = Git(auth: Auth, repoPath: string, debugOutput: bool, gitPath: string)

  /** What every constructed wrapper satisfies: its secret is a truthy string. */
  predicate Valid(g: Git)
  {
    g.auth.secret != ""
  }

  /** `username && password`: both are truthy, that is non-empty. */
  predicate HasBasicCredentials(username: string, password: string)
  {
    username != "" && password != ""
  }

  /** `Buffer.from(username + ':' + password).toString('base64')`. */
  function BasicSecret(username: string, password: string): string
  {
    Base64.Encode(Utf8.Encode(username + ":" + password))
  }

  /** Reads a basic secret back: Base64 first, then UTF-8. */
  function DecodeBasicSecret(secret: string): Option<string>
  {
    var bytes :- Base64.Decode(secret);
    Utf8.Decode(bytes)
  }

  /** The basic secret carries exactly `username:password`. */
  lemma BasicSecretRoundTrip(username: string, password: string)
    ensures DecodeBasicSecret(BasicSecret(username, password)) == Some(username + ":" + password)
  {
    var bytes := Utf8.Encode(username + ":" + password);
    Base64.DecodeEncode(bytes);
    Utf8.DecodeEncode(username + ":" + password);
  }

  /** A basic secret is never empty and never contains the redaction character. */
  lemma BasicSecretShape(username: string, password: string)
    ensures BasicSecret(username, password) != ""
    ensures forall m :: 0 <= m < |Redaction| ==> Redaction[m] !in BasicSecret(username, password)
  {
    var bytes := Utf8.Encode(username + ":" + password);
    assert |bytes| >= 1;
    Base64.EncodeInAlphabet(bytes);
  }

  /** The constructor's choice of authentication (Git.ts lines 20-31). */
  function DeriveAuth(username: string, password: string, apitoken: string): (r: Result<Auth, string>)
    ensures r.Failure? <==> !HasBasicCredentials(username, password) && apitoken == ""
    ensures r.Failure? ==> r.error == UnsupportedAuthentication
    ensures r.Success? ==> r.value.secret != ""
    ensures r.Success? && HasBasicCredentials(username, password) ==>
      && r.value.header == BasicPrefix + r.value.secret
      && DecodeBasicSecret(r.value.secret) == Some(username + ":" + password)
    ensures r.Success? && !HasBasicCredentials(username, password) ==>
      r.value.secret == apitoken && r.value.header == BearerPrefix + apitoken
  {
    if HasBasicCredentials(username, password) then
      BasicSecretRoundTrip(username, password);
      BasicSecretShape(username, password);
      var secret := BasicSecret(username, password);
      Success(Auth(secret, BasicPrefix + secret))
    else if apitoken != "" then
      Success(Auth(apitoken, BearerPrefix + apitoken))
    else
      Failure(UnsupportedAuthentication)
  }

  /** The constructor. `located` is what the git lookup found ("" for nothing)
      and `onDisk` whether that file exists; both are environment facts. */
  function NewGit(repoPath: string, username: string, password: string, apitoken: string,
                  debugOutput: bool, located: string, onDisk: bool): (r: Result<Git, string>)
    ensures r.Success? <==> DeriveAuth(username, password, apitoken).Success? && located != "" && onDisk
    ensures r.Failure? && DeriveAuth(username, password, apitoken).Failure? ==> r.error == UnsupportedAuthentication
    ensures r.Failure? && DeriveAuth(username, password, apitoken).Success? ==> r.error == GitNotFound
    ensures r.Success? ==> Valid(r.value) && r.value.auth == DeriveAuth(username, password, apitoken).value
    ensures r.Success? ==> r.value.gitPath == located && r.value.repoPath == repoPath && r.value.debugOutput == debugOutput
  {
    var auth :- DeriveAuth(username, password, apitoken);
    if located == "" || !onDisk then Failure(GitNotFound)
    else Success(Git(auth, repoPath, debugOutput, located))
  }

  /** The wrapper's operations, one per public method. */
  datatype Operation =
    | Version
    | Init
    | AddRemote(remoteName: string, repoUrl: string)
    | AddConfig(configName: string, configValue: string)
    | GetConfig(configName: string)
    | Fetch(branch: string)
    | Checkout(commitId: string)

  const FetchFlags: seq<string> := ["fetch", "--tags", "--prune", "--progress", "--no-recurse-submodules"]
  const CheckoutFlags: seq<string> := ["checkout", "--progress", "--force"]

  /** The one-shot `-c http.extraheader="…"` override, present when the secret is truthy. */
  function AuthArgs(auth: Auth): seq<string>
  {
    if auth.secret != "" then ["-c", "http.extraheader=\"" + auth.header + "\""] else []
  }

  /** The argument list each operation passes to git. */
  function Arguments(auth: Auth, op: Operation): seq<string>
  {
    match op
    case Version => ["version"]
    case Init => ["init"]
    case AddRemote(name, url) => ["remote", "add", name, url]
    case AddConfig(name, value) => ["config", name, value]
    case GetConfig(name) => ["config", "--get", name]
    case Fetch(branch) => AuthArgs(auth) + FetchFlags + [branch]
    case Checkout(commitId) => AuthArgs(auth) + CheckoutFlags + [commitId]
  }

  /** Reads an argument list back as the operation that produced it. */
  function ParseArguments(auth: Auth, args: seq<string>): Option<Operation>
  {
    var pre := AuthArgs(auth);
    if args == ["version"] then Some(Version)
    else if args == ["init"] then Some(Init)
    else if |args| == 4 && args[0] == "remote" && args[1] == "add" then Some(AddRemote(args[2], args[3]))
    else if |args| == 3 && args[0] == "config" && args[1] == "--get" then Some(GetConfig(args[2]))
    else if |args| == 3 && args[0] == "config" then Some(AddConfig(args[1], args[2]))
    else if |args| == |pre| + 6 && args[..|pre| + 5] == pre + FetchFlags then Some(Fetch(args[|pre| + 5]))
    else if |args| == |pre| + 4 && args[..|pre| + 3] == pre + CheckoutFlags then Some(Checkout(args[|pre| + 3]))
    else None
  }

  /** Every argument list names its operation unambiguously, with one
      exception: `addConfigSync('--get', n)` runs exactly `git config --get n`. */
  lemma ParseArgumentsOfArguments(auth: Auth, op: Operation)
    ensures ParseArguments(auth, Arguments(auth, op)) == Some(op)
      <==> !(op.AddConfig? && op.configName == "--get")
    ensures op.AddConfig? && op.configName == "--get" ==>
      Arguments(auth, op) == Arguments(auth, GetConfig(op.configValue))
  {
    var args := Arguments(auth, op);
    var pre := AuthArgs(auth);
    match op {
      case Fetch(branch) =>
        assert args[..|pre| + 5] == pre + FetchFlags;
        assert args[|pre| + 5] == branch;
        assert args[0] != "version" && args[0] != "init" && args[0] != "remote" && args[0] != "config";
      case Checkout(commitId) =>
        assert args[..|pre| + 3] == pre + CheckoutFlags;
        assert args[|pre| + 3] == commitId;
        assert args[0] != "version" && args[0] != "init" && args[0] != "remote" && args[0] != "config";
        assert |args| != |pre| + 6;
      case _ =>
    }
  }

  /** Two operations other than the colliding `config --get` form never share an argument list. */
  lemma ArgumentsInjective(auth: Auth, op1: Operation, op2: Operation)
    requires !(op1.AddConfig? && op1.configName == "--get")
    requires !(op2.AddConfig? && op2.configName == "--get")
    requires Arguments(auth, op1) == Arguments(auth, op2)
    ensures op1 == op2
  {
    ParseArgumentsOfArguments(auth, op1);
    ParseArgumentsOfArguments(auth, op2);
  }

  /** For a constructed wrapper, exactly `fetch` and `checkout` carry the header override. */
  lemma HeaderOnlyOnNetworkOperations(g: Git, op: Operation)
    requires Valid(g)
    ensures Arguments(g.auth, op)[0] == "-c" <==> op.Fetch? || op.Checkout?
    ensures op.Fetch? ==> (Arguments(g.auth, op) ==
      ["-c", "http.extraheader=\"" + g.auth.header + "\"", "fetch", "--tags", "--prune", "--progress",
       "--no-recurse-submodules", op.branch])
    ensures op.Checkout? ==> (Arguments(g.auth, op) ==
      ["-c", "http.extraheader=\"" + g.auth.header + "\"", "checkout", "--progress", "--force", op.commitId])
  {
  }

  /** What `execSync` reports for one invocation. */
  datatype ExecSyncResult = ExecSyncResult(code: int, stdout: string, stderr: string)

  /** How ToolRunner's `exec` settles its promise for an exit code: a non-zero
      code rejects unless the caller asked to ignore return codes. */
  datatype Settlement = Resolved(code: int) | Rejected(code: int)

  /** The `ignoreReturnCode` option the wrapper's `exec` passes. */
  const IgnoreReturnCode := false

  function Settle(code: int, ignoreReturnCode: bool): (s: Settlement)
    ensures s.code == code
    ensures s.Rejected? <==> code != 0 && !ignoreReturnCode
  {
    if code != 0 && !ignoreReturnCode then Rejected(code) else Resolved(code)
  }

  function VersionSync(g: Git, run: seq<string> -> ExecSyncResult): (version: string)
    ensures run(["version"]).code == 0 ==> version == run(["version"]).stdout
    ensures run(["version"]).code != 0 ==> version == ""
  {
    var result := run(Arguments(g.auth, Version));
    if result.code == 0 then result.stdout else ""
  }

  function InitSync(g: Git, run: seq<string> -> ExecSyncResult): (ok: bool)
    ensures ok <==> run(["init"]).code == 0
  {
    run(Arguments(g.auth, Init)).code == 0
  }

  function AddRemoteSync(g: Git, remoteName: string, repoUrl: string, run: seq<string> -> ExecSyncResult): (ok: bool)
    ensures ok <==> run(["remote", "add", remoteName, repoUrl]).code == 0
  {
    run(Arguments(g.auth, AddRemote(remoteName, repoUrl))).code == 0
  }

  function AddConfigSync(g: Git, configName: string, configValue: string, run: seq<string> -> ExecSyncResult): (ok: bool)
    ensures ok <==> run(["config", configName, configValue]).code == 0
  {
    run(Arguments(g.auth, AddConfig(configName, configValue))).code == 0
  }

  function GetConfigSync(g: Git, configName: string, run: seq<string> -> ExecSyncResult): (value: string)
    ensures run(["config", "--get", configName]).code == 0 ==> value == run(["config", "--get", configName]).stdout
    ensures run(["config", "--get", configName]).code != 0 ==> value == ""
  {
    var result := run(Arguments(g.auth, GetConfig(configName)));
    if result.code == 0 then result.stdout else ""
  }

  /** `fetch(branch)`: resolves true on exit code 0; any other exit code
      rejects inside `exec`, so the `false` arm of the mapping is never reached. */
  function FetchBranch(g: Git, branch: string, exec: seq<string> -> int): (r: Result<bool, int>)
    ensures var code := exec(Arguments(g.auth, Fetch(branch)));
      && (r.Success? <==> code == 0)
      && (r.Success? ==> r.value)
      && (r.Failure? ==> r.error == code)
  {
    match Settle(exec(Arguments(g.auth, Fetch(branch))), IgnoreReturnCode)
    case Resolved(code) => Success(code == 0)
    case Rejected(code) => Failure(code)
  }

  /** `checkout(commitId)`, settled like `fetch`. */
  function CheckoutCommit(g: Git, commitId: string, exec: seq<string> -> int): (r: Result<bool, int>)
    ensures var code := exec(Arguments(g.auth, Checkout(commitId)));
      && (r.Success? <==> code == 0)
      && (r.Success? ==> r.value)
      && (r.Failure? ==> r.error == code)
  {
    match Settle(exec(Arguments(g.auth, Checkout(commitId))), IgnoreReturnCode)
    case Resolved(code) => Success(code == 0)
    case Rejected(code) => Failure(code)
  }

  /** `scrubSecrets`: the first occurrence of the secret becomes `***`. */
  function ScrubSecrets(g: Git, message: string): (r: string)
    ensures (forall j :: !JsString.OccursAt(message, g.auth.secret, j)) ==> r == message
    ensures forall i :: JsString.FirstOccurrence(message, g.auth.secret, i) ==>
      r == message[..i] + Redaction + message[i + |g.auth.secret|..]
  {
    JsString.ReplaceFirst(message, g.auth.secret, Redaction)
  }

  /** A secret that occurs once in a message, and shares no character with
      `***`, is gone after scrubbing. Basic secrets always qualify. */
  lemma ScrubHidesSoleOccurrence(g: Git, message: string, i: int)
    requires Valid(g) && forall m :: 0 <= m < |Redaction| ==> Redaction[m] !in g.auth.secret
    requires JsString.OccursAt(message, g.auth.secret, i)
    requires forall j :: JsString.OccursAt(message, g.auth.secret, j) ==> j == i
    ensures forall k :: !JsString.OccursAt(ScrubSecrets(g, message), g.auth.secret, k)
  {
    JsString.ReplaceFirstRemovesSoleOccurrence(message, g.auth.secret, Redaction, i);
  }

  /** A second occurrence of the secret survives scrubbing (only the first is replaced). */
  lemma ScrubKeepsSecondOccurrence(g: Git, message: string, i: int, j: int)
    requires JsString.FirstOccurrence(message, g.auth.secret, i)
    requires JsString.OccursAt(message, g.auth.secret, j) && i + |g.auth.secret| <= j
    ensures JsString.OccursAt(ScrubSecrets(g, message), g.auth.secret, j - |g.auth.secret| + |Redaction|)
  {
    JsString.ReplaceFirstKeepsLaterOccurrence(message, g.auth.secret, Redaction, i, j);
  }

  /** A token printed twice is redacted once: `"tok tok"` is relayed as `"*** tok"`. */
  lemma ScrubRepeatedToken(g: Git)
    requires g.auth.secret == "tok"
    ensures ScrubSecrets(g, "tok tok") == "*** tok"
  {
    var message := "tok tok";
    assert JsString.OccursAt(message, "tok", 0);
    assert JsString.FirstOccurrence(message, "tok", 0);
  }

  /** What the spawned git process reports through ToolRunner's events. */
  datatype ToolEvent = DebugData(data: string) | StdoutData(data: string) | StderrData(data: string)

  /** What the wrapper re-emits as its own `stdout` / `stderr` events. */
  datatype Emission = ToStdout(text: string) | ToStderr(text: string)

  /** The `debug`, `stdout` and `stderr` handlers installed by `exec` and `execSync`. */
  function Relay(g: Git, event: ToolEvent): (r: Option<Emission>)
    ensures r.None? <==> event.DebugData? && !g.debugOutput
    ensures r.Some? ==> (r.value.ToStderr? <==> event.StderrData?)
    ensures r.Some? && event.DebugData? ==> r.value.text == DebugPrefix + ScrubSecrets(g, event.data)
    ensures !event.DebugData? ==> r.Some? && r.value.text == ScrubSecrets(g, event.data)
  {
    match event
    case DebugData(data) => if g.debugOutput then Some(ToStdout(DebugPrefix + ScrubSecrets(g, data))) else None
    case StdoutData(data) => Some(ToStdout(ScrubSecrets(g, data)))
    case StderrData(data) => Some(ToStderr(ScrubSecrets(g, data)))
  }

  /** For a wrapper built from a username and password, any chunk that
      contains the basic secret once is re-emitted without it, debug text
      behind its `[debug]` prefix included. */
  lemma RelayHidesBasicSecret(repoPath: string, username: string, password: string, apitoken: string,
                              debugOutput: bool, located: string, onDisk: bool, event: ToolEvent, i: int)
    requires HasBasicCredentials(username, password)
    requires NewGit(repoPath, username, password, apitoken, debugOutput, located, onDisk).Success?
    requires JsString.OccursAt(event.data, BasicSecret(username, password), i)
    requires forall j :: JsString.OccursAt(event.data, BasicSecret(username, password), j) ==> j == i
    ensures var r := Relay(NewGit(repoPath, username, password, apitoken, debugOutput, located, onDisk).value, event);
      r.Some? ==> forall k :: !JsString.OccursAt(r.value.text, BasicSecret(username, password), k)
  {
    var g := NewGit(repoPath, username, password, apitoken, debugOutput, located, onDisk).value;
    BasicSecretShape(username, password);
    ScrubHidesSoleOccurrence(g, event.data, i);
    if event.DebugData? {
      DebugPrefixKeepsSecretHidden(username, password, ScrubSecrets(g, event.data));
    }
  }

  /** Putting `[debug]` in front of text free of the basic secret creates no
      occurrence: `[` and `]` are outside the Base64 alphabet, and the one
      secret short enough to fit inside `debug` cannot spell `debu` or `ebug`. */
  lemma DebugPrefixKeepsSecretHidden(username: string, password: string, text: string)
    requires HasBasicCredentials(username, password)
    requires forall k :: !JsString.OccursAt(text, BasicSecret(username, password), k)
    ensures forall k :: !JsString.OccursAt(DebugPrefix + text, BasicSecret(username, password), k)
  {
    forall k
      ensures !JsString.OccursAt(DebugPrefix + text, BasicSecret(username, password), k)
    {
      NoSecretInDebugWindow(username, password, text, k);
    }
  }

  lemma NoSecretInDebugWindow(username: string, password: string, text: string, k: int)
    requires HasBasicCredentials(username, password)
    requires forall k :: !JsString.OccursAt(text, BasicSecret(username, password), k)
    ensures !JsString.OccursAt(DebugPrefix + text, BasicSecret(username, password), k)
  {
    var secret := BasicSecret(username, password);
    var line := DebugPrefix + text;
    var n := |secret|;
    BasicSecretLength(username, password);
    if 0 <= k && k + n <= |line| {
      var window := line[k..k + n];
      if |DebugPrefix| <= k {
        assert window == text[k - |DebugPrefix|..k - |DebugPrefix| + n];
        assert !JsString.OccursAt(text, secret, k - |DebugPrefix|);
      } else if k == 0 {
        BasicSecretCharacter(username, password, 0);
        assert window[0] == '[' != secret[0];
      } else if |DebugPrefix| <= k + n {
        BasicSecretCharacter(username, password, 6 - k);
        assert window[6 - k] == ']' != secret[6 - k];
      } else {
        assert n == 4 && (k == 1 || k == 2);
        assert window[1] == line[k + 1];
        assert window[1] == 'e' || window[1] == 'b';
      }
    }
  }

  /** A basic secret is whole Base64 groups; a single group spells neither `debu` nor `ebug`. */
  lemma BasicSecretLength(username: string, password: string)
    requires HasBasicCredentials(username, password)
    ensures |BasicSecret(username, password)| >= 4 && |BasicSecret(username, password)| % 4 == 0
    ensures |BasicSecret(username, password)| == 4 ==>
      BasicSecret(username, password)[1] != 'e' && BasicSecret(username, password)[1] != 'b'
  {
    var bytes := Utf8.Encode(username + ":" + password);
    assert |bytes| >= 3;
    if |BasicSecret(username, password)| == 4 {
      ColonIsSecondByte(username, password);
      var x: int := (bytes[0] % 4) * 16 + bytes[1] / 16;
      assert BasicSecret(username, password) == Base64.EncodeGroup(bytes[0], bytes[1], bytes[2]) + Base64.Encode(bytes[3..]);
      assert BasicSecret(username, password)[1] == Base64.CharOf(x);
      Base64.SextetOfCharOf(x);
      assert x != 30 && x != 27;
      assert Base64.SextetOf('e') == Some(30) && Base64.SextetOf('b') == Some(27);
    }
  }

  /** When `username:password` takes only three UTF-8 bytes, the colon is the second. */
  lemma ColonIsSecondByte(username: string, password: string)
    requires HasBasicCredentials(username, password)
    requires |Utf8.Encode(username + ":" + password)| <= 3
    ensures |Utf8.Encode(username + ":" + password)| == 3 && Utf8.Encode(username + ":" + password)[1] == 0x3A
  {
    var s := username + ":" + password;
    assert s[1..][1..] == s[2..] && |s[2..]| >= 1;
    assert s[1] == ':';
    assert Utf8.Encode(s) == Utf8.EncodeChar(s[0]) + (Utf8.EncodeChar(s[1]) + Utf8.Encode(s[2..]));
  }

  /** Every character of a basic secret is a Base64 alphabet character or padding, so never `[` or `]`. */
  lemma BasicSecretCharacter(username: string, password: string, m: int)
    requires 0 <= m < |BasicSecret(username, password)|
    ensures BasicSecret(username, password)[m] != '[' && BasicSecret(username, password)[m] != ']'
  {
    var secret := BasicSecret(username, password);
    Base64.EncodeInAlphabet(Utf8.Encode(username + ":" + password));
    assert secret[m] in secret;
  }
}
