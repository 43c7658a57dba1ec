/** The task's entry point `run` and its helper `InitRepo`
    (Tasks/DownloadArtifactsGitHubEnterprise/index.ts): validate the inputs
    in a fixed order, build the remote URL with injected credentials, then
    drive git (through the simple-git library) through a fixed sequence of
    awaited calls that stops at the first failure. Every error ends up in a
    single `Failed` task result.

    The task library and git are collaborators: the agent's answers are the
    fields of `Agent`, and git is an oracle mapping each call to the stdout
    it resolves with or the message it rejects with. Every call of one run
    is distinct, so a function of the call can answer each independently. */
module DownloadTask {
  import opened Wrappers
  import JsString

  const MissingConnection := "DownloadArtifactsGitHubEnterprise sample task requires a valid Service Connection for Github Enterprise."
  const MissingHostUrl := "DownloadArtifactsGitHubEnterprise sample task requires a valid hostUrl for its Service Connection for Github Enterprise."
  const MissingAuthorization := "DownloadArtifactsGitHubEnterprise sample task supports only GitHub PAT."
  const MissingRepository := "DownloadArtifactsGitHubEnterprise sample task requires a valid Repository for Github Enterprise."
  const MissingBranch := "DownloadArtifactsGitHubEnterprise sample task requires a valid branch for Github Enterprise."
  const MissingCommit := "DownloadArtifactsGitHubEnterprise sample task requires a valid commit for Github Enterprise."
  /** The message for a missing download path repeats the commit text word for word. */
  const MissingDownloadPath := "DownloadArtifactsGitHubEnterprise sample task requires a valid commit for Github Enterprise."
  const GitNotOnPath := "git not found. Please ensure installed and in the agent path"
  const CredentialHelperEnabled := "If credential helper is enabled the interactive prompt can block this task."
  const TokenUser := "dummyuser"
  const RemoteName := "origin"

  /** JavaScript truthiness of a `string | undefined`. */
  predicate Given(s: Option<string>)
  {
    s.Some? && s.value != ""
  }

  /** The parameters of the service connection's endpoint authorization. */
  datatype AuthParameters = AuthParameters(username: Option<string>, password: Option<string>, apitoken: Option<string>)

  /** The agent's proxy configuration. */
  datatype ProxyConfiguration = ProxyConfiguration(proxyUrl: string, proxyUsername: Option<string>, proxyPassword: Option<string>)

  /** The task inputs `connection`, `definition`, `branch`, `version` and `downloadPath`. */
  datatype Inputs = Inputs(
    connection: Option<string>,
    definition: Option<string>,
    branch: Option<string>,
    version: Option<string>,
    downloadPath: Option<string>)

  /** The agent's answers: endpoint URL and authorization per connection,
      `which('git')`, whether a path exists, and the proxy configuration. */
  datatype Agent = Agent(
    endpointUrl: string -> Option<string>,
    endpointAuthorization: string -> Option<AuthParameters>,
    which: Option<string>,
    pathExists: string -> bool,
    proxy: Option<ProxyConfiguration>)

  /** A parsed URL: the text it was parsed from and the userinfo set on it,
      if any, before it is formatted again. */
  datatype Url = Url(href: string, auth: Option<string>)

  /** Everything `run` has established once the inputs are validated. */
  datatype Settings = Settings(
    hostUrl: string,
    auth: AuthParameters,
    repository: string,
    branch: string,
    commitId: string,
    downloadPath: string)

  function ValueOf(s: Option<string>): string
  {
    if s.Some? then s.value else ""
  }

  /** The required values in the order `run` checks them, each paired with
      the message its absence raises. */
  function Requirements(inputs: Inputs, agent: Agent): seq<(bool, string)>
  {
    var connection := ValueOf(inputs.connection);
    [ (Given(inputs.connection), MissingConnection),
      (Given(agent.endpointUrl(connection)), MissingHostUrl),
      (agent.endpointAuthorization(connection).Some?, MissingAuthorization),
      (Given(inputs.definition), MissingRepository),
      (Given(inputs.branch), MissingBranch),
      (Given(inputs.version), MissingCommit),
      (Given(inputs.downloadPath), MissingDownloadPath) ]
  }

  /** The validation at the top of `run`: the first unmet requirement decides the error. */
  function Validate(inputs: Inputs, agent: Agent): (r: Result<Settings, string>)
    ensures var reqs := Requirements(inputs, agent);
      r.Success? <==> forall k :: 0 <= k < |reqs| ==> reqs[k].0
    ensures var reqs := Requirements(inputs, agent);
      r.Failure? ==> exists k :: 0 <= k < |reqs| && !reqs[k].0 && r.error == reqs[k].1 &&
                                 forall j :: 0 <= j < k ==> reqs[j].0
    ensures r.Success? ==>
      && Some(r.value.repository) == inputs.definition
      && Some(r.value.branch) == inputs.branch
      && Some(r.value.commitId) == inputs.version
      && Some(r.value.downloadPath) == inputs.downloadPath
      && Some(r.value.hostUrl) == agent.endpointUrl(ValueOf(inputs.connection))
      && Some(r.value.auth) == agent.endpointAuthorization(ValueOf(inputs.connection))
  {
    var reqs := Requirements(inputs, agent);
    if !Given(inputs.connection) then
      assert !reqs[0].0;
      Failure(MissingConnection)
    else
      var connection := inputs.connection.value;
      var hostUrl := agent.endpointUrl(connection);
      var auth := agent.endpointAuthorization(connection);
      if !Given(hostUrl) then
        assert !reqs[1].0 && reqs[0].0;
        Failure(MissingHostUrl)
      else if auth.None? then
        assert !reqs[2].0 && reqs[0].0 && reqs[1].0;
        Failure(MissingAuthorization)
      else if !Given(inputs.definition) then
        assert !reqs[3].0 && reqs[0].0 && reqs[1].0 && reqs[2].0;
        Failure(MissingRepository)
      else if !Given(inputs.branch) then
        assert !reqs[4].0 && forall j :: 0 <= j < 4 ==> reqs[j].0;
        Failure(MissingBranch)
      else if !Given(inputs.version) then
        assert !reqs[5].0 && forall j :: 0 <= j < 5 ==> reqs[j].0;
        Failure(MissingCommit)
      else if !Given(inputs.downloadPath) then
        assert !reqs[6].0 && forall j :: 0 <= j < 6 ==> reqs[j].0;
        Failure(MissingDownloadPath)
      else
        Success(Settings(hostUrl.value, auth.value, inputs.definition.value, inputs.branch.value,
                         inputs.version.value, inputs.downloadPath.value))
  }

  /** The userinfo injected into the remote URL: the username/password pair
      takes precedence, then the token under a placeholder user. */
  function RemoteUserinfo(auth: AuthParameters): (userinfo: Option<string>)
    ensures userinfo.Some? <==> (Given(auth.username) && Given(auth.password)) || Given(auth.apitoken)
    ensures Given(auth.username) && Given(auth.password) ==>
      userinfo == Some(auth.username.value + ":" + auth.password.value)
    ensures Given(auth.username) && Given(auth.password) && ':' !in auth.username.value ==>
      SplitUserinfo(userinfo.value) == (auth.username.value, auth.password.value)
    ensures !(Given(auth.username) && Given(auth.password)) && Given(auth.apitoken) ==>
      SplitUserinfo(userinfo.value) == (TokenUser, auth.apitoken.value)
  {
    if Given(auth.username) && Given(auth.password) then
      SplitJoined(auth.username.value, auth.password.value);
      Some(auth.username.value + ":" + auth.password.value)
    else if Given(auth.apitoken) then
      SplitJoined(TokenUser, auth.apitoken.value);
      Some(TokenUser + ":" + auth.apitoken.value)
    else
      None
  }

  /** The remote URL `hostUrl + repository + ".git"` with its userinfo. */
  function RemoteUrl(hostUrl: string, repository: string, auth: AuthParameters): (url: Url)
    ensures url.href == hostUrl + repository + ".git"
    ensures url.auth == RemoteUserinfo(auth)
  {
    Url(hostUrl + repository + ".git", RemoteUserinfo(auth))
  }

  /** The proxy URL, with userinfo only when both proxy username and password are truthy. */
  function ProxyUrl(proxy: ProxyConfiguration): (url: Url)
    ensures url.href == proxy.proxyUrl
    ensures url.auth.Some? <==> Given(proxy.proxyUsername) && Given(proxy.proxyPassword)
    ensures url.auth.Some? ==> url.auth.value == proxy.proxyUsername.value + ":" + proxy.proxyPassword.value
    ensures url.auth.Some? && ':' !in proxy.proxyUsername.value ==>
      SplitUserinfo(url.auth.value) == (proxy.proxyUsername.value, proxy.proxyPassword.value)
  {
    if Given(proxy.proxyUsername) && Given(proxy.proxyPassword) then
      SplitJoined(proxy.proxyUsername.value, proxy.proxyPassword.value);
      Url(proxy.proxyUrl, Some(proxy.proxyUsername.value + ":" + proxy.proxyPassword.value))
    else
      Url(proxy.proxyUrl, None)
  }

  /** Reads userinfo back as user and password, split at the first colon
      (section 3.2.1 of RFC 3986). */
  function SplitUserinfo(userinfo: string): (string, string)
  {
    match JsString.IndexOf(userinfo, ":")
    case None => (userinfo, "")
    case Some(i) => (userinfo[..i], userinfo[i + 1..])
  }

  /** Joining a colon-free user and a password with a colon can be split back. */
  lemma SplitJoined(user: string, password: string)
    ensures ':' !in user ==> SplitUserinfo(user + ":" + password) == (user, password)
  {
    if ':' !in user {
      var s := user + ":" + password;
      assert JsString.OccursAt(s, ":", |user|);
      forall j | 0 <= j < |user|
        ensures !JsString.OccursAt(s, ":", j)
      {
        assert s[j..j + 1] == [user[j]];
      }
      assert JsString.FirstOccurrence(s, ":", |user|);
      assert s[..|user|] == user && s[|user| + 1..] == password;
    }
  }

  /** A value passed to `addConfig`: literal text, or a URL formatted by `url.format`. */
  datatype ConfigValue = Literal(text: string) | FormattedUrl(url: Url)

  /** The simple-git calls the task makes. */
  datatype GitCall =
    | Raw(args: seq<string>)
    | Init
    | AddConfig(key: string, value: ConfigValue)
    | AddRemote(name: string, url: Url)
    | Fetch(options: seq<string>)
    | Checkout(options: seq<string>)

  const VersionQuery: seq<string> := ["version"]
  const CredentialHelperQuery: seq<string> := ["config", "--get", "credential.helper"]
  const FetchOptions: seq<string> := ["--tags", "--prune", "--progress", "--no-recurse-submodules", RemoteName]

  function CheckoutOptions(commitId: string): seq<string>
  {
    ["--progress", "--force", commitId]
  }

  /** One awaited call. `AwaitUnset` also throws `error` when the call resolves with truthy output. */
  datatype Stage = Await(call: GitCall) | AwaitUnset(call: GitCall, error: string)

  /** How one stage ends, given git's answer to its call. */
  function StageOutcome(stage: Stage, git: GitCall -> Result<string, string>): (o: Outcome<string>)
    ensures git(stage.call).Failure? ==> o == Fail(git(stage.call).error)
    ensures git(stage.call).Success? ==>
      (o.Pass? <==> stage.Await? || git(stage.call).value == "")
    ensures o.Fail? && git(stage.call).Success? ==> stage.AwaitUnset? && o.error == stage.error
  {
    match git(stage.call)
    case Failure(message) => Fail(message)
    case Success(output) =>
      if stage.AwaitUnset? && output != "" then Fail(stage.error) else Pass
  }

  /** `InitRepo`: the stages after the version query and before the checkout. */
  function InitRepo(proxy: Option<ProxyConfiguration>, remoteUrl: Url): seq<Stage>
  {
    [Await(Init), Await(AddConfig("gc.auto", Literal("0")))]
    + (if proxy.Some? then [Await(AddConfig("http.proxy", FormattedUrl(ProxyUrl(proxy.value))))] else [])
    + [ AwaitUnset(Raw(CredentialHelperQuery), CredentialHelperEnabled),
        Await(AddConfig("http.sslVerify", Literal("false"))),
        Await(AddRemote(RemoteName, remoteUrl)),
        Await(Fetch(FetchOptions)) ]
  }

  /** Everything `run` awaits on git, in order. */
  function Pipeline(commitId: string, proxy: Option<ProxyConfiguration>, remoteUrl: Url): seq<Stage>
  {
    [Await(Raw(VersionQuery))] + InitRepo(proxy, remoteUrl) + [Await(Checkout(CheckoutOptions(commitId)))]
  }

  /** The calls made and how the awaited sequence ended. */
  datatype Trace = Trace(calls: seq<GitCall>, outcome: Outcome<string>)

  /** Awaits the stages in order and stops at the first that fails: the
      calls made are exactly the stages up to and including that one. */
  function Perform(stages: seq<Stage>, git: GitCall -> Result<string, string>): (t: Trace)
    ensures |t.calls| <= |stages|
    ensures forall i :: 0 <= i < |t.calls| ==> t.calls[i] == stages[i].call
    ensures t.outcome.Pass? <==> forall i :: 0 <= i < |stages| ==> StageOutcome(stages[i], git).Pass?
    ensures t.outcome.Pass? ==> |t.calls| == |stages|
    ensures t.outcome.Fail? ==>
      && 0 < |t.calls|
      && StageOutcome(stages[|t.calls| - 1], git) == t.outcome
      && forall i :: 0 <= i < |t.calls| - 1 ==> StageOutcome(stages[i], git).Pass?
    decreases |stages|
  {
    if |stages| == 0 then Trace([], Pass)
    else
      match StageOutcome(stages[0], git)
      case Fail(message) => Trace([stages[0].call], Fail(message))
      case Pass =>
        var rest := Perform(stages[1..], git);
        Trace([stages[0].call] + rest.calls, rest.outcome)
  }

  /** What the task did to the outside world. */
  datatype Effect = MakeDirectory(path: string) | Invoke(call: GitCall)

  /** The task result: `run` sets it only in its `catch`; otherwise it stays unset (success). */
  datatype TaskResult = Unset | Failed(message: string)

  datatype Execution = Execution(effects: seq<Effect>, result: TaskResult)

  function Invocations(calls: seq<GitCall>): (effects: seq<Effect>)
    ensures |effects| == |calls|
    ensures forall i :: 0 <= i < |calls| ==> effects[i] == Invoke(calls[i])
  {
    seq(|calls|, i requires 0 <= i < |calls| => Invoke(calls[i]))
  }

  /** `run`: validation, the git lookup, the download folder, then the git
      pipeline; any error becomes `Failed` with its message. */
  function Run(inputs: Inputs, agent: Agent, git: GitCall -> Result<string, string>): (e: Execution)
    ensures Validate(inputs, agent).Failure? ==> e == Execution([], Failed(Validate(inputs, agent).error))
    ensures Validate(inputs, agent).Success? && !Given(agent.which) ==> e == Execution([], Failed(GitNotOnPath))
    ensures e.result.Unset? <==>
      && Validate(inputs, agent).Success?
      && Given(agent.which)
      && var s := Validate(inputs, agent).value;
         forall i :: 0 <= i < |Pipeline(s.commitId, agent.proxy, RemoteUrl(s.hostUrl, s.repository, s.auth))| ==>
           StageOutcome(Pipeline(s.commitId, agent.proxy, RemoteUrl(s.hostUrl, s.repository, s.auth))[i], git).Pass?
  {
    match Validate(inputs, agent)
    case Failure(message) => Execution([], Failed(message))
    case Success(s) =>
      if !Given(agent.which) then Execution([], Failed(GitNotOnPath))
      else
        var mkdir := if agent.pathExists(s.downloadPath) then [] else [MakeDirectory(s.downloadPath)];
        var trace := Perform(Pipeline(s.commitId, agent.proxy, RemoteUrl(s.hostUrl, s.repository, s.auth)), git);
        var result := if trace.outcome.Pass? then Unset else Failed(trace.outcome.error);
        Execution(mkdir + Invocations(trace.calls), result)
  }

  /** The calls of a sequence of stages, in order. */
  function CallsOf(stages: seq<Stage>): (calls: seq<GitCall>)
    ensures |calls| == |stages|
    ensures forall i :: 0 <= i < |stages| ==> calls[i] == stages[i].call
  {
    seq(|stages|, i requires 0 <= i < |stages| => stages[i].call)
  }

  /** Fail-fast: when stage `k` is the first to fail, the calls made are those
      of stages 0..k and the sequence ends with stage `k`'s failure. */
  lemma {:induction false} PerformStopsAt(stages: seq<Stage>, git: GitCall -> Result<string, string>, k: nat)
    requires k < |stages| && StageOutcome(stages[k], git).Fail?
    requires forall i :: 0 <= i < k ==> StageOutcome(stages[i], git).Pass?
    ensures Perform(stages, git) == Trace(CallsOf(stages[..k + 1]), StageOutcome(stages[k], git))
    decreases k
  {
    if k == 0 {
      assert CallsOf(stages[..1]) == [stages[0].call];
    } else {
      assert StageOutcome(stages[0], git).Pass?;
      var rest := stages[1..];
      forall i | 0 <= i < k - 1
        ensures StageOutcome(rest[i], git).Pass?
      {
        assert rest[i] == stages[i + 1];
      }
      PerformStopsAt(rest, git, k - 1);
      CallsOfFront(stages[..k + 1]);
      assert stages[..k + 1][1..] == rest[..k];
    }
  }

  /** When every stage passes, every call is made, in order. */
  lemma {:induction false} PerformCompletes(stages: seq<Stage>, git: GitCall -> Result<string, string>)
    requires forall i :: 0 <= i < |stages| ==> StageOutcome(stages[i], git).Pass?
    ensures Perform(stages, git) == Trace(CallsOf(stages), Pass)
    decreases |stages|
  {
    if |stages| > 0 {
      var rest := stages[1..];
      assert StageOutcome(stages[0], git).Pass?;
      forall i | 0 <= i < |rest|
        ensures StageOutcome(rest[i], git).Pass?
      {
        assert rest[i] == stages[i + 1];
      }
      PerformCompletes(rest, git);
      CallsOfFront(stages);
    }
  }

  lemma CallsOfFront(stages: seq<Stage>)
    requires |stages| > 0
    ensures CallsOf(stages) == [stages[0].call] + CallsOf(stages[1..])
  {
  }

  /** The directory creation `run` performs before it starts git. */
  function MakeDirectoryEffects(agent: Agent, s: Settings): seq<Effect>
  {
    if agent.pathExists(s.downloadPath) then [] else [MakeDirectory(s.downloadPath)]
  }

  function ProxyCalls(proxy: Option<ProxyConfiguration>): seq<GitCall>
  {
    if proxy.Some? then [AddConfig("http.proxy", FormattedUrl(ProxyUrl(proxy.value)))] else []
  }

  function PipelineOf(inputs: Inputs, agent: Agent): seq<Stage>
    requires Validate(inputs, agent).Success?
  {
    var s := Validate(inputs, agent).value;
    Pipeline(s.commitId, agent.proxy, RemoteUrl(s.hostUrl, s.repository, s.auth))
  }

  /** Fail-fast for the whole task: the first failing git step is the last
      one made, nothing after it runs, and its message is the task's. */
  lemma RunFailsFast(inputs: Inputs, agent: Agent, git: GitCall -> Result<string, string>, k: nat)
    requires Validate(inputs, agent).Success? && Given(agent.which)
    requires k < |PipelineOf(inputs, agent)| && StageOutcome(PipelineOf(inputs, agent)[k], git).Fail?
    requires forall i :: 0 <= i < k ==> StageOutcome(PipelineOf(inputs, agent)[i], git).Pass?
    ensures Run(inputs, agent, git) == Execution(
      MakeDirectoryEffects(agent, Validate(inputs, agent).value)
        + Invocations(CallsOf(PipelineOf(inputs, agent)[..k + 1])),
      Failed(StageOutcome(PipelineOf(inputs, agent)[k], git).error))
  {
    PerformStopsAt(PipelineOf(inputs, agent), git, k);
  }

  /** The calls before the credential-helper query: the version query,
      `init`, `gc.auto` and the optional proxy setting. */
  function SetupCalls(proxy: Option<ProxyConfiguration>): seq<GitCall>
  {
    [Raw(VersionQuery), Init, AddConfig("gc.auto", Literal("0"))] + ProxyCalls(proxy)
  }

  /** The calls after the credential-helper query. */
  function ClosingCalls(commitId: string, remoteUrl: Url): seq<GitCall>
  {
    [ AddConfig("http.sslVerify", Literal("false")),
      AddRemote(RemoteName, remoteUrl),
      Fetch(FetchOptions),
      Checkout(CheckoutOptions(commitId)) ]
  }

  /** The layout of the pipeline: plain awaits around the one credential-helper check. */
  lemma PipelineLayout(commitId: string, proxy: Option<ProxyConfiguration>, remoteUrl: Url)
    ensures var p, setup := Pipeline(commitId, proxy, remoteUrl), SetupCalls(proxy);
      && |p| == |setup| + 5
      && (forall i :: 0 <= i < |setup| ==> p[i] == Await(setup[i]))
      && p[|setup|] == AwaitUnset(Raw(CredentialHelperQuery), CredentialHelperEnabled)
      && (forall i :: |setup| < i < |p| ==> p[i] == Await(ClosingCalls(commitId, remoteUrl)[i - |setup| - 1]))
  {
    var p := Pipeline(commitId, proxy, remoteUrl);
    if proxy.Some? {
      assert p == [Await(Raw(VersionQuery)), Await(Init), Await(AddConfig("gc.auto", Literal("0"))),
        Await(AddConfig("http.proxy", FormattedUrl(ProxyUrl(proxy.value)))),
        AwaitUnset(Raw(CredentialHelperQuery), CredentialHelperEnabled),
        Await(AddConfig("http.sslVerify", Literal("false"))), Await(AddRemote(RemoteName, remoteUrl)),
        Await(Fetch(FetchOptions)), Await(Checkout(CheckoutOptions(commitId)))];
    } else {
      assert p == [Await(Raw(VersionQuery)), Await(Init), Await(AddConfig("gc.auto", Literal("0"))),
        AwaitUnset(Raw(CredentialHelperQuery), CredentialHelperEnabled),
        Await(AddConfig("http.sslVerify", Literal("false"))), Await(AddRemote(RemoteName, remoteUrl)),
        Await(Fetch(FetchOptions)), Await(Checkout(CheckoutOptions(commitId)))];
    }
  }

  /** The calls of the whole pipeline, and of its prefix up to the credential-helper query. */
  lemma PipelineCalls(commitId: string, proxy: Option<ProxyConfiguration>, remoteUrl: Url)
    ensures var p, setup := Pipeline(commitId, proxy, remoteUrl), SetupCalls(proxy);
      && CallsOf(p) == setup + [Raw(CredentialHelperQuery)] + ClosingCalls(commitId, remoteUrl)
      && CallsOf(p[..|setup| + 1]) == setup + [Raw(CredentialHelperQuery)]
  {
    PipelineLayout(commitId, proxy, remoteUrl);
  }

  /** With every git call succeeding and no credential helper configured,
      the task makes exactly these calls, in this order, and succeeds. */
  lemma HappyPathTrace(inputs: Inputs, agent: Agent, git: GitCall -> Result<string, string>)
    requires Validate(inputs, agent).Success? && Given(agent.which)
    requires forall call :: git(call).Success?
    requires git(Raw(["config", "--get", "credential.helper"])) == Success("")
    ensures var s := Validate(inputs, agent).value;
      Run(inputs, agent, git) == Execution(
        MakeDirectoryEffects(agent, s) + Invocations(
          [Raw(["version"]), Init, AddConfig("gc.auto", Literal("0"))]
          + ProxyCalls(agent.proxy)
          + [ Raw(["config", "--get", "credential.helper"]),
              AddConfig("http.sslVerify", Literal("false")),
              AddRemote("origin", RemoteUrl(s.hostUrl, s.repository, s.auth)),
              Fetch(["--tags", "--prune", "--progress", "--no-recurse-submodules", "origin"]),
              Checkout(["--progress", "--force", s.commitId]) ]),
        Unset)
  {
    var s := Validate(inputs, agent).value;
    var url := RemoteUrl(s.hostUrl, s.repository, s.auth);
    var stages := Pipeline(s.commitId, agent.proxy, url);
    var setup := SetupCalls(agent.proxy);
    PipelineLayout(s.commitId, agent.proxy, url);
    forall i | 0 <= i < |stages|
      ensures StageOutcome(stages[i], git).Pass?
    {
      if i == |setup| {
        assert stages[i].call == Raw(CredentialHelperQuery);
      } else {
        assert stages[i].Await?;
      }
    }
    PerformCompletes(stages, git);
    PipelineCalls(s.commitId, agent.proxy, url);
    RunOfTrace(inputs, agent, git);
    AllCallsSpelledOut(agent.proxy, s.commitId, url);
  }

  /** `run` after a successful validation and git lookup: the directory, then the git calls made. */
  lemma RunOfTrace(inputs: Inputs, agent: Agent, git: GitCall -> Result<string, string>)
    requires Validate(inputs, agent).Success? && Given(agent.which)
    ensures var t := Perform(PipelineOf(inputs, agent), git);
      Run(inputs, agent, git) == Execution(
        MakeDirectoryEffects(agent, Validate(inputs, agent).value) + Invocations(t.calls),
        if t.outcome.Pass? then Unset else Failed(t.outcome.error))
  {
  }

  lemma AllCallsSpelledOut(proxy: Option<ProxyConfiguration>, commitId: string, url: Url)
    ensures SetupCalls(proxy) + [Raw(CredentialHelperQuery)] + ClosingCalls(commitId, url)
      == [Raw(["version"]), Init, AddConfig("gc.auto", Literal("0"))]
        + ProxyCalls(proxy)
        + [ Raw(["config", "--get", "credential.helper"]),
            AddConfig("http.sslVerify", Literal("false")),
            AddRemote("origin", url),
            Fetch(["--tags", "--prune", "--progress", "--no-recurse-submodules", "origin"]),
            Checkout(["--progress", "--force", commitId]) ]
  {
  }

  /** A configured credential helper stops the task right after the query:
      sslVerify, the remote, the fetch and the checkout never run. */
  lemma CredentialHelperAborts(inputs: Inputs, agent: Agent, git: GitCall -> Result<string, string>)
    requires Validate(inputs, agent).Success? && Given(agent.which)
    requires git(Raw(["version"])).Success? && git(Init).Success?
    requires git(AddConfig("gc.auto", Literal("0"))).Success?
    requires forall call :: call in ProxyCalls(agent.proxy) ==> git(call).Success?
    requires git(Raw(["config", "--get", "credential.helper"])).Success?
    requires git(Raw(["config", "--get", "credential.helper"])).value != ""
    ensures Run(inputs, agent, git) == Execution(
      MakeDirectoryEffects(agent, Validate(inputs, agent).value) + Invocations(
        [Raw(["version"]), Init, AddConfig("gc.auto", Literal("0"))]
        + ProxyCalls(agent.proxy)
        + [Raw(["config", "--get", "credential.helper"])]),
      Failed(CredentialHelperEnabled))
  {
    var s := Validate(inputs, agent).value;
    var url := RemoteUrl(s.hostUrl, s.repository, s.auth);
    var stages := Pipeline(s.commitId, agent.proxy, url);
    var setup := SetupCalls(agent.proxy);
    PipelineLayout(s.commitId, agent.proxy, url);
    forall i | 0 <= i < |setup|
      ensures StageOutcome(stages[i], git).Pass?
    {
      assert stages[i].call == setup[i];
      if i == 3 {
        assert setup[i] in ProxyCalls(agent.proxy);
      }
    }
    PerformStopsAt(stages, git, |setup|);
    PipelineCalls(s.commitId, agent.proxy, url);
    RunOfTrace(inputs, agent, git);
  }

  /** `branch` is validated but never used: any other non-empty branch gives the same run. */
  lemma BranchIsNotUsed(inputs: Inputs, agent: Agent, git: GitCall -> Result<string, string>, otherBranch: string)
    requires Given(inputs.branch) && otherBranch != ""
    ensures Run(inputs.(branch := Some(otherBranch)), agent, git) == Run(inputs, agent, git)
  {
    var other := inputs.(branch := Some(otherBranch));
    assert Requirements(other, agent) == Requirements(inputs, agent);
    var v, w := Validate(inputs, agent), Validate(other, agent);
    if v.Success? {
      assert w.Success? && w.value == v.value.(branch := otherBranch);
    } else {
      assert w.Failure? && w.error == v.error;
    }
  }

  /** Only the last stage of the pipeline is a checkout. */
  lemma OnlyLastStageChecksOut(commitId: string, proxy: Option<ProxyConfiguration>, remoteUrl: Url, j: int)
    requires 0 <= j < |Pipeline(commitId, proxy, remoteUrl)|
    requires Pipeline(commitId, proxy, remoteUrl)[j].call.Checkout?
    ensures j == |Pipeline(commitId, proxy, remoteUrl)| - 1
    ensures Pipeline(commitId, proxy, remoteUrl)[j].call.options == ["--progress", "--force", commitId]
  {
    var stages := Pipeline(commitId, proxy, remoteUrl);
    var init := InitRepo(proxy, remoteUrl);
    assert stages == [Await(Raw(VersionQuery))] + init + [Await(Checkout(CheckoutOptions(commitId)))];
  }

  /** Every checkout the task performs is of the `version` input (the commit id). */
  lemma CheckoutRefIsCommit(inputs: Inputs, agent: Agent, git: GitCall -> Result<string, string>)
    ensures var e := Run(inputs, agent, git);
      forall i :: 0 <= i < |e.effects| && e.effects[i].Invoke? && e.effects[i].call.Checkout? ==>
        e.effects[i].call.options == ["--progress", "--force", inputs.version.value]
  {
    var e := Run(inputs, agent, git);
    if Validate(inputs, agent).Success? && Given(agent.which) {
      var s := Validate(inputs, agent).value;
      var url := RemoteUrl(s.hostUrl, s.repository, s.auth);
      var stages := Pipeline(s.commitId, agent.proxy, url);
      var t := Perform(stages, git);
      var mkdir := MakeDirectoryEffects(agent, s);
      var calls := Invocations(t.calls);
      assert e.effects == mkdir + calls;
      forall i | 0 <= i < |e.effects| && e.effects[i].Invoke? && e.effects[i].call.Checkout?
        ensures e.effects[i].call.options == ["--progress", "--force", inputs.version.value]
      {
        assert i >= |mkdir|;
        var j := i - |mkdir|;
        assert e.effects[i] == calls[j] == Invoke(stages[j].call);
        OnlyLastStageChecksOut(s.commitId, agent.proxy, url, j);
      }
    }
  }
}
