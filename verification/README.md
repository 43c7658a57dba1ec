# DownloadArtifactsGitHubEnterprise, modelled in Dafny

This project models the two pieces of deterministic logic in the
`DownloadArtifactsGitHubEnterprise` pipeline task:

- **The `Git` wrapper class** (`Tasks/DownloadArtifactsGitHubEnterprise/Git.ts`),
  modelled in `git_client.dfy` (module `GitClient`). It covers:
  - how the constructor derives the secret and the authorization header from a
    username/password pair or a token;
  - the constructor's two hard errors;
  - the fixed argument list of every operation, including the one-shot
    `-c http.extraheader="…"` override that `fetch` and `checkout` carry;
  - how each operation maps the exit code to its result;
  - `scrubSecrets`;
  - the `debug` / `stdout` / `stderr` relay handlers.
- **The task entry point `run` and its helper `InitRepo`**
  (`Tasks/DownloadArtifactsGitHubEnterprise/index.ts`), modelled in
  `download_task.dfy` (module `DownloadTask`). It covers:
  - input validation in a fixed order, each missing input with its own message;
  - the remote URL with injected userinfo, and the proxy URL;
  - the git command sequence, a fold over the stages that stops at the first
    failure;
  - the credential-helper guard;
  - the single `catch` that turns every error into a `Failed` result.

  `run` drives the `simple-git` library directly, not the `Git` class, so the
  two modules are independent.

The secret of the basic scheme is `Buffer.from(user + ':' + pass).toString('base64')`.
Two modules give that expression a meaning that can be inverted:

- `utf8.dfy` is UTF-8 (RFC 3629). `Buffer.from` of a string produces these bytes.
- `base64.dfy` is Base64 with padding (section 4 of RFC 4648).

Each comes with a strict decoder, and both directions of the round trip are
proved. `js_string.dfy` models the two JavaScript string operations the
scrubbing relies on: `indexOf`, and `replace` with a string pattern, which
replaces only the first occurrence. `wrappers.dfy` holds `Option`, `Result`
and `Outcome`. `bytes.dfy` holds `byte`.

Git itself is an oracle throughout:

- For the `Git` class, the synchronous runner maps an argument list to
  `(code, stdout, stderr)`. The asynchronous runner maps an argument list to
  an exit code. ToolRunner's rule — reject on a non-zero exit unless
  `ignoreReturnCode` — is modelled as `Settle`.
- For `run`, the oracle maps each `simple-git` call to the stdout it resolves
  with or to the message it rejects with. The agent's answers (endpoint URL
  and authorization, `which('git')`, `fs.existsSync`, the proxy configuration)
  are fields of an `Agent` record.

Notable behaviours of the code, which the model keeps as written:

- `scrubSecrets` replaces only the first occurrence of the secret, not every
  occurrence. `ScrubKeepsSecondOccurrence` and `ScrubRepeatedToken` show a
  second occurrence surviving.
- The token scheme sends the raw token under a `bearer` header. No prefix or
  encoding is applied.
- A configured credential helper is a hard error, not a warning.
- The credential-helper query runs before `remote add`, not after it.
- `http.sslVerify false` is written with `git config` for the repository. It
  is not a one-shot override.
- `versionSync` and `getConfigSync` return stdout verbatim. Nothing is trimmed.
- The checkout ref is always the `version` input, the commit id. `branch` is
  validated but never used, and there is no fallback to it.
- The message for a missing `downloadPath` repeats the commit message word
  for word.

## Model

| member | source | states |
|---|---|---|
| GitClient.DeriveAuth | Tasks/DownloadArtifactsGitHubEnterprise/Git.ts:20-31 | Construction fails, with `Unsupported or no authentication method is supplied!`, exactly when the username/password pair is incomplete and the token is empty. The pair takes precedence over the token: its header is `AUTHORIZATION: basic ` + secret, and the secret decodes back to `username:password`. With only a token, the secret is the token and the header is `AUTHORIZATION: bearer ` + token. Either way the secret is non-empty. |
| GitClient.BasicSecretRoundTrip | Tasks/DownloadArtifactsGitHubEnterprise/Git.ts:21 | Base64-decoding then UTF-8-decoding the basic secret gives back `username:password`. |
| GitClient.BasicSecretShape | Tasks/DownloadArtifactsGitHubEnterprise/Git.ts:21-22 | The basic secret is never empty and contains no `*`, so redaction cannot recreate it. |
| GitClient.NewGit | Tasks/DownloadArtifactsGitHubEnterprise/Git.ts:15-35 | The authentication error comes first. If authentication succeeds, the constructor fails with the git-not-found message exactly when the located path is empty or does not exist (lines 210-224). A constructed wrapper always has a non-empty secret and keeps the given repository path, debug flag and git path. |
| GitClient.ParseArgumentsOfArguments | Tasks/DownloadArtifactsGitHubEnterprise/Git.ts:37-125 | Every operation's argument list can be read back as that operation, with one exception: `addConfigSync('--get', n)` produces exactly the arguments of `getConfigSync(n)`. |
| GitClient.ArgumentsInjective | Tasks/DownloadArtifactsGitHubEnterprise/Git.ts:37-125 | Outside that one collision, two different operations never run the same git command line. |
| GitClient.HeaderOnlyOnNetworkOperations | Tasks/DownloadArtifactsGitHubEnterprise/Git.ts:84-125 | For a constructed wrapper, the arguments start with `-c` exactly for `fetch` and `checkout`. Their lists are `-c`, `http.extraheader="<header>"`, `fetch --tags --prune --progress --no-recurse-submodules <branch>` and `-c`, `http.extraheader="<header>"`, `checkout --progress --force <commit>`. |
| GitClient.VersionSync | Tasks/DownloadArtifactsGitHubEnterprise/Git.ts:37-43 | Runs `git version`. Returns its stdout unchanged on exit code 0, and `""` otherwise. |
| GitClient.InitSync | Tasks/DownloadArtifactsGitHubEnterprise/Git.ts:45-51 | True exactly when `git init` exits with 0. |
| GitClient.AddRemoteSync | Tasks/DownloadArtifactsGitHubEnterprise/Git.ts:53-62 | True exactly when `git remote add <name> <url>` exits with 0. |
| GitClient.AddConfigSync | Tasks/DownloadArtifactsGitHubEnterprise/Git.ts:64-72 | True exactly when `git config <name> <value>` exits with 0. |
| GitClient.GetConfigSync | Tasks/DownloadArtifactsGitHubEnterprise/Git.ts:74-82 | The stdout of `git config --get <name>` on exit code 0, `""` otherwise. |
| GitClient.FetchBranch | Tasks/DownloadArtifactsGitHubEnterprise/Git.ts:84-107 | Resolves exactly when the fetch exits with 0, and then resolves `true`. Any other exit code rejects with that code, because `exec` does not ignore return codes. `false` is never returned. |
| GitClient.CheckoutCommit | Tasks/DownloadArtifactsGitHubEnterprise/Git.ts:109-130 | The same settlement for the checkout command: resolves `true` exactly on exit code 0 and rejects otherwise. |
| GitClient.ScrubSecrets | Tasks/DownloadArtifactsGitHubEnterprise/Git.ts:163-165 | Text that does not contain the secret is unchanged. Otherwise the leftmost occurrence, and only that one, is replaced by `***`. |
| GitClient.ScrubHidesSoleOccurrence | Tasks/DownloadArtifactsGitHubEnterprise/Git.ts:163-165 | Take a secret that occurs exactly once and has no `*` in it. After scrubbing, the secret occurs nowhere: neither where it was, nor across the seams around `***`. |
| GitClient.ScrubKeepsSecondOccurrence | Tasks/DownloadArtifactsGitHubEnterprise/Git.ts:163-165 | A later occurrence that does not overlap the first survives scrubbing, shifted by the length difference. |
| GitClient.ScrubRepeatedToken | Tasks/DownloadArtifactsGitHubEnterprise/Git.ts:164 | With the token `tok`, the text `tok tok` becomes `*** tok`. |
| GitClient.Relay | Tasks/DownloadArtifactsGitHubEnterprise/Git.ts:135-147 | Debug text is re-emitted only when `debugOutput` is set, on stdout, as `[debug]` + scrubbed text. stdout and stderr chunks are always re-emitted, scrubbed, each on its own stream. |
| GitClient.RelayHidesBasicSecret | Tasks/DownloadArtifactsGitHubEnterprise/Git.ts:135-147 | For a wrapper built from a username and password, any chunk containing the basic secret once is relayed without it: stdout and stderr chunks, and debug text behind its `[debug]` prefix. |
| GitClient.DebugPrefixKeepsSecretHidden | Tasks/DownloadArtifactsGitHubEnterprise/Git.ts:138 | Putting `[debug]` in front of scrubbed text creates no occurrence of the basic secret. Such an occurrence would have to start inside the prefix, and no basic secret can. |
| JsString.IndexOf | Tasks/DownloadArtifactsGitHubEnterprise/Git.ts:164 | Finds the leftmost occurrence of the pattern. It returns none exactly when the pattern occurs nowhere. |
| JsString.ReplaceFirst | Tasks/DownloadArtifactsGitHubEnterprise/Git.ts:164 | `replace` with a string pattern. With no occurrence the text is unchanged. Otherwise the leftmost occurrence is spliced out for the replacement. |
| Utf8.DecodeEncode | Tasks/DownloadArtifactsGitHubEnterprise/Git.ts:21 | Decoding the UTF-8 bytes of any string gives back that string. |
| Utf8.EncodeDecode | Tasks/DownloadArtifactsGitHubEnterprise/Git.ts:21 | Every byte string the strict decoder accepts is the encoding of what it decodes to. |
| Base64.Encode | Tasks/DownloadArtifactsGitHubEnterprise/Git.ts:21 | The encoding of n bytes has 4·⌈n/3⌉ characters. |
| Base64.EncodeInAlphabet | Tasks/DownloadArtifactsGitHubEnterprise/Git.ts:21 | Every encoded character is in the alphabet or is `=`. |
| Base64.DecodeEncode | Tasks/DownloadArtifactsGitHubEnterprise/Git.ts:21 | Decoding the encoding of any bytes gives back those bytes. |
| Base64.EncodeDecode | Tasks/DownloadArtifactsGitHubEnterprise/Git.ts:21 | Every string the strict decoder accepts is the canonical encoding of what it decodes to. |
| DownloadTask.Validate | Tasks/DownloadArtifactsGitHubEnterprise/index.ts:59-104 | Validation succeeds exactly when all seven requirements hold: connection, host URL, endpoint authorization, repository, branch, commit, download path. On failure, the error is the message of the first unmet requirement, and every earlier one holds. On success, the settings carry exactly the given values. |
| DownloadTask.RemoteUserinfo | Tasks/DownloadArtifactsGitHubEnterprise/index.ts:124-128 | Userinfo is present exactly when both username and password are truthy, or the token is. The pair `username:password` takes precedence. Otherwise the userinfo is `dummyuser:` + token, and it splits back into that user and token. |
| DownloadTask.RemoteUrl | Tasks/DownloadArtifactsGitHubEnterprise/index.ts:123-129 | The URL is `hostUrl + repository + ".git"`, carrying that userinfo. |
| DownloadTask.ProxyUrl | Tasks/DownloadArtifactsGitHubEnterprise/index.ts:18-21 | The proxy URL keeps the configured address. It carries `user:password` exactly when both are truthy, and that userinfo splits back into the pair when the user has no colon. |
| DownloadTask.StageOutcome | Tasks/DownloadArtifactsGitHubEnterprise/index.ts:27-38 | A rejected call fails with git's message. A resolved call passes, except that the credential-helper query fails with the credential-helper message when its output is non-empty. |
| DownloadTask.Perform | Tasks/DownloadArtifactsGitHubEnterprise/index.ts:7-55 | The awaited sequence passes exactly when every stage passes. The calls made are a prefix of the stages, in order. On failure, the last call made is the first stage that failed, and its failure is the outcome. |
| DownloadTask.PerformStopsAt | Tasks/DownloadArtifactsGitHubEnterprise/index.ts:7-55 | When stage k is the first to fail, exactly the calls of stages 0..k are made, and the outcome is stage k's failure. |
| DownloadTask.PerformCompletes | Tasks/DownloadArtifactsGitHubEnterprise/index.ts:7-55 | When every stage passes, every call is made, in order. |
| DownloadTask.PipelineLayout | Tasks/DownloadArtifactsGitHubEnterprise/index.ts:9-54 | The pipeline is: `version`, `init`, `gc.auto`, the optional proxy setting, the credential-helper query (the only stage that also checks output), `sslVerify`, `remote add`, `fetch`, `checkout`. |
| DownloadTask.PipelineCalls | Tasks/DownloadArtifactsGitHubEnterprise/index.ts:9-54 | The calls of the whole pipeline, and of its prefix up to the credential-helper query. |
| DownloadTask.Run | Tasks/DownloadArtifactsGitHubEnterprise/index.ts:57-164 | A validation error, or git missing from PATH, fails the run before any directory is created or any git call is made. Otherwise the result stays unset exactly when every git stage passes. |
| DownloadTask.RunOfTrace | Tasks/DownloadArtifactsGitHubEnterprise/index.ts:115-163 | After validation and the git lookup, the effects are the optional directory creation followed by the git calls made. The result is unset, or `Failed` with the message that ended the sequence. |
| DownloadTask.RunFailsFast | Tasks/DownloadArtifactsGitHubEnterprise/index.ts:149-163 | When stage k is the first to fail, the run makes the calls of stages 0..k and no later call. Its result is `Failed` with stage k's message. |
| DownloadTask.HappyPathTrace | Tasks/DownloadArtifactsGitHubEnterprise/index.ts:141-156 | With every call succeeding and no credential helper, the run invokes `version`, `init`, `gc.auto 0`, [`http.proxy`], `config --get credential.helper`, `http.sslVerify false`, `remote add origin <url>`, `fetch --tags --prune --progress --no-recurse-submodules origin`, `checkout --progress --force <commit>`, in that order, and its result stays unset. |
| DownloadTask.CredentialHelperAborts | Tasks/DownloadArtifactsGitHubEnterprise/index.ts:27-38 | A non-empty credential helper ends the run right after the query, with the credential-helper message. `sslVerify`, `remote add`, `fetch` and `checkout` never run. |
| DownloadTask.BranchIsNotUsed | Tasks/DownloadArtifactsGitHubEnterprise/index.ts:91-94 | Replacing the branch input with any other non-empty branch leaves the whole run unchanged. |
| DownloadTask.OnlyLastStageChecksOut | Tasks/DownloadArtifactsGitHubEnterprise/index.ts:149-156 | The only checkout stage is the last one, and it checks out the commit id. |
| DownloadTask.CheckoutRefIsCommit | Tasks/DownloadArtifactsGitHubEnterprise/index.ts:152-156 | Every checkout the run performs is `--progress --force <version input>`. |

## Left out

- Running processes is not modelled: `tl.tool`, ToolRunner's `exec` / `execSync` options, and simple-git's internals. Git is an oracle over argument lists, or over simple-git calls.
- `simple-git`'s own rule for when a call rejects lives inside the oracle.
- Event and stream plumbing is not modelled: the `EventEmitter`, `process.stdout` piping and `outputHandler`. Only the strings that would be emitted are modelled (`GitClient.Relay`).
- Decoding of `Buffer` chunks is not modelled. Each chunk is taken to be text already.
- `getGitPathSync` / `getAndVerifyGitPathSync` is environment I/O. This covers `tl.which`, `AGENT_HOMEDIRECTORY` and `fs.existsSync`. The constructor takes the located path and whether it exists as parameters.
- `fs.existsSync` and `shell.mkdir` in `run` are I/O. The agent answers whether the path exists, and directory creation is recorded as an effect. A failing `mkdir` is not modelled.
- The task library's readers are not modelled: `getInput`, `getEndpointUrl`, `getEndpointAuthorization` and `getHttpProxyConfiguration`. Their answers are fields of `Inputs` and `Agent`, and the readers' own errors are not modelled.
- `url.parse` / `url.format` are not modelled. A URL is a record of its text and the userinfo set on it.
- Promises and `async` are not modelled. Awaited steps are sequential calls, and a rejection is the failure outcome of its stage.
- Logging through `tl.debug` and `console.log` is not modelled, because it has no effect on the result. Two of those lines carry credentials, and no redaction applies to them. `index.ts` lines 45 and 131 log the remote URL, and that URL holds `username:password` or `dummyuser:<token>`.
- The scrubbing results cover only what the wrapper re-emits through its own events. ToolRunner also echoes the raw chunks to the console (`silent: false` with `outStream: process.stdout`, `Git.ts` lines 153-154 and 188-189). That echo is not scrubbed and is not modelled.
- `IGit.ts` is not part of this model. It only declares the signatures `Git.ts` implements.
- Features absent from the code are not modelled: submodules, shallow depth, branch fallback, output trimming, a TLS override per call, and a credential-helper warning.
- Utf8.Encode: characters are Unicode scalar values. JavaScript strings can hold lone UTF-16 surrogates, which `Buffer.from` replaces with U+FFFD; that case is not modelled.
