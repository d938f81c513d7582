# Lunar task resolution, modelled in Dafny

Lunar is a task runner. It finds named Luau scripts in a project's
conventional script directories (`lune`, `.lune`, `lunar`, `.lunar`). It
follows `*.lunar.toml` config files that name a script, a local directory or
a Git repository. It clones repositories into a content-addressed cache under
its local data directory, and asks before it trusts a repository or runs its
setup script. Finally it reads the metadata block each script may carry in a
`--[=[ lunar … ]=]` comment.

This project models that core:

- `task_config.dfy` is the resolver. The directory walk, the selectors and
  the standalone configs are mutually recursive methods that fill one
  name-to-path table in place.
- `repo_hash.dfy` is the commit-hash resolver. It covers the hash pattern as
  a ghost predicate, the online lookup, and the JSON hash cache as a class
  with a file-state field.
- `download.dfy` is the repository fetcher: the cache layout, url
  sanitisation, the clone into a temporary sibling, the trusted setup script
  and the rename into place.
- `security.dfy` is the trust store and the y/N prompt.
- `task_info.dfy` is the metadata extractor: the block scanner, proved to
  find the leftmost lazy match of the program's regular expression, and the
  flattening of nested sub-tasks.
- Supporting modules:
  - `tables.dfy`: the `HashMap` tables filled by `insert`, and the
    last-write-wins meaning of a run of insertions;
  - `fs.dfy`: an abstract filesystem and a `Disk` object;
  - `process.dfy`: command outcomes and `success_or_error`;
  - `text.dfy`: the string operations of the Rust standard library the core
    uses;
  - `config_records.dfy`: the config records;
  - `outcomes.dfy`: `Option`, `Result` and error chains.

Commands (`git`, `lune`), the user's answers, the random token, the url
hasher and the TOML decoder are never run or implemented. Each one is an
input: a field of `Download.Externals` or `TaskConfig.Env`, a `Console`
holding the lines still to be read, or a decoder function parameter.

The resolver has no guard against a config that leads back to itself. The
model bounds the nesting with a `fuel` parameter, and returns an error when
the fuel runs out.

Two behaviours of the program are easy to misread:

- An explicit `hash` must match `^\s*([a-f0-9]{40}).*\s*$`.
  - The code returns the hash as written, not just the forty characters.
  - Leading whitespace and trailing text without a line break are accepted
    (`RepoHash.HexPrefixAccepted`).
  - A rejected explicit hash still falls back to the hash cache, because
    `fetch_repo_hash` treats it as a failed online lookup
    (`RepoHash.ResolveHash`).
- A metadata block that does not decode gets the description
  `[failed to parse info: <message>]`, brackets included
  (`TaskInfo.MalformedIsOneNotedTask`).

## Model

| member | source | states |
|---|---|---|
| TaskConfig.ClassifyScriptIff | src/task_config.rs:57-61 | an entry is registered as a script under `stem` exactly when its name is `stem.lua` or `stem.luau` with a non-empty stem (`.lua` alone is a hidden file without an extension) |
| TaskConfig.ClassifyConfigIff | src/task_config.rs:62-69 | an entry is a config exactly when its name ends in `.lunar.toml`; its fallback name is the name with every trailing `.lunar.toml` removed |
| TaskConfig.ConfigFallbackExample | src/task_config.rs:68-69 | `a.lunar.toml.lunar.toml` registers under `a`, because `trim_end_matches` removes repeated suffixes |
| TaskConfig.ScriptInsertsFromScripts | src/task_config.rs:54-61 | without configs, every registration of the walk is a script entry of the listing, under its stem, with its own path |
| TaskConfig.LaterScriptWins | src/task_config.rs:51-61 | last write wins: a script that no later script of the listing shares a stem with is what that stem ends up naming |
| TaskConfig.CandidatesOrder | src/task_config.rs:90-101 | candidate `3*j + k` of the probe is suffix `k` ("", `.luau`, `.lua`) in single-script directory `j`: the probe is directory-major |
| TaskConfig.ProbeEnds | src/task_config.rs:48-91 | the probe starts with the literal name under `lune` and ends with `<script>.lua` in the directory itself |
| TaskConfig.FirstExistingIsFirst | src/task_config.rs:89-106 | the probe finds nothing exactly when no candidate exists, and otherwise the existing candidate of least index |
| TaskConfig.ProbeScript | src/task_config.rs:89-106 | the probe loop with its early `break` returns the first existing candidate of the probe order, or none |
| TaskConfig.RenameInjective | src/task_config.rs:123-126 | prefixing keeps distinct task names distinct |
| TaskConfig.SelectedIff | src/task_config.rs:111-129 | a filter/prefix selector adds exactly the renamed kept tasks, each with its own path, whatever order they are visited in |
| TaskConfig.SelectedExample | src/task_config.rs:111-129 | tasks {x, y} with `tasks = ["x"]` and `prefix = "ns-"` give exactly {"ns-x"} |
| TaskConfig.MergeSelected | src/task_config.rs:116-129 | the merge loop leaves the table as the old table overwritten by the selected renamed tasks |
| TaskConfig.AddEntry | src/task_config.rs:54-75 | a script entry sets its stem and changes nothing else; other entries are skipped; an unreadable or undecodable config, or exhausted fuel, is an error that changes nothing; a config naming only a script overwrites its name |
| TaskConfig.AddEntries | src/task_config.rs:54-76 | the entries of one listed directory are handled in listing order; the table only gains keys; entries without configs register exactly their scripts in order, cannot fail, and touch nothing but the table |
| TaskConfig.GetDirectoryTasks | src/task_config.rs:50-81 | the table only gains keys; without configs the walk succeeds exactly when every existing script directory can be listed, returns the first listing error, and leaves the table as the old one with the listing's scripts inserted in order |
| TaskConfig.GetSelectorTasks | src/task_config.rs:83-133 | with a script, the first existing probe candidate is set under `name` and there is no error; otherwise the walk goes into a fresh table and only a successful walk is merged, renamed and filtered; a failed walk changes nothing |
| TaskConfig.TrustAndFetch | src/task_config.rs:145-165 | the outcome is `RepoStepFor` of the starting disk, cache, trust file and input: the url prompt's error, a decline, or, once the url is trusted, the fetch's result; a repository is fetched only once its url is trusted; a failed or declined prompt changes neither disk nor cache; a fetched directory exists |
| TaskConfig.RepoStepIff | src/task_config.rs:145-165 | the repository is fetched or fails to fetch exactly when its url is trusted already, or newly trusted by the flag or an accepted answer with a readable, writable store; the prompt fails exactly when such new trust cannot be stored; any other answer declines; a fetched directory is the resolved commit's cache directory, a failed resolution is a failed fetch, and an existing cache directory is fetched without cloning |
| TaskConfig.AddRepoTasks | src/task_config.rs:145-166 | the outcome is `RepoStepFor`'s; a failed prompt is the error; a decline or a failed fetch adds nothing and is no error; a fetched repository with a single-script selector registers the first existing probe candidate of the fetched directory; with a listing selector a successful walk merges the selected tasks and a failed one changes nothing |
| TaskConfig.GetStandaloneConfigTasks | src/task_config.rs:135-179 | the table only gains keys and a config's script is registered under its name or the fallback; a script-only config sets just that name; a declined repository does not stop the config, changes neither disk, cache nor store, and leaves the script's entry plus, for a single-script directory, that directory's probe; a local single-script directory is probed without consulting the trust store |
| TaskInfo.InsertsFromNodes | src/task_info.rs:30-58 | every record the flattening inserts belongs to a visible node of the sub-task tree, keyed by its own name, with the path of the script and the names leading to it as leading arguments |
| TaskInfo.NodesAreInserted | src/task_info.rs:30-58 | conversely every visible node of the tree is inserted, even below a hidden parent |
| TaskInfo.InsertsSharePath | src/task_info.rs:39-55 | every record derived from one script carries that script's path and extends the given leading arguments |
| TaskInfo.HiddenHasNoRecord | src/task_info.rs:37-48 | a hidden task gets no record of its own: every record below it belongs to a named sub-task |
| TaskInfo.AddInlineTask | src/task_info.rs:30-58 | the recursive method leaves the table as the old one with the flattening's insertions applied in order |
| TaskInfo.BodyStartIsOpener | src/task_info.rs:76 | the opener scanner finds exactly the openers `--[=[`, blanks, `lunar`, line spaces, line feed that the pattern matches |
| TaskInfo.FindClose | src/task_info.rs:76 | the first `]=]` at or after a position, or none |
| TaskInfo.FindBlockIsLeftmost | src/task_info.rs:74-84 | the scanner finds a block exactly when the pattern matches, and then the capture of the leftmost match with the shortest body, trailing dashes excluded |
| TaskInfo.NoBlockIsOneDefaultTask | src/task_info.rs:84-92 | a script without a block is one visible task with every field at its default |
| TaskInfo.MalformedIsOneNotedTask | src/task_info.rs:95-103 | a block that does not decode still gives one visible task whose description carries the decoder's message |
| TaskInfo.GetBaseScriptInfo | src/task_info.rs:71-105 | reading the script is the only failure; otherwise the metadata is that of its contents |
| TaskInfo.GetTaskInfos | src/task_info.rs:60-69 | the result is an error exactly when some script cannot be read, and then that read error; every record derives from one of the scripts; every visible top-level task is present |
| Tables.InsertAllAppend | src/task_config.rs:61 | inserting two runs one after the other is inserting their concatenation |
| Tables.InsertAllKeys | src/task_config.rs:61 | insertions keep every old key and add exactly the inserted keys |
| Tables.InsertAllLastWins | src/task_config.rs:61 | a key holds the value of its last insertion |
| Tables.InsertAllUntouched | src/task_config.rs:61 | a key no insertion writes keeps its old value |
| Tables.InsertAllOrigin | src/task_config.rs:61 | every value of the result is a kept old value or an inserted entry |
| Tables.Table.Insert | src/task_config.rs:61 | `insert` overwrites one key and is a one-element run of insertions |
| Security.ReadTrustFile | src/security.rs:13-21 | a missing or undecodable trust file reads as the empty store; only a failing read is an error |
| Security.IsTrustedIffStored | src/security.rs:29-32 | a name is trusted exactly when an intact store holds it |
| Security.TrustInsertsAndKeeps | src/security.rs:34-39 | trusting inserts the name and keeps every name already trusted |
| Security.TrustIdempotent | src/security.rs:34-39 | trusting twice is trusting once |
| Security.TrustReplacesCorrupt | src/security.rs:20-36 | a corrupt trust file is replaced by a store holding only the new name |
| Security.AcceptedIsLowercaseY | src/security.rs:58 | the acceptance test is the program's comparison of the trimmed, lower-cased answer with "y" |
| Security.AcceptedIff | src/security.rs:58 | the accepted answers are exactly "y" and "Y" after trimming |
| Security.AcceptsPaddedY | src/security.rs:57-58 | "y" or "Y" surrounded by whitespace, a line break included, is accepted |
| Security.DeclinesOtherLengths | src/security.rs:58-63 | an answer not trimming to one character, such as "yes" or the empty answer at end of input, is declined |
| Security.Console.ReadLine | src/security.rs:57 | reading gives the next line and consumes it, or "" at end of input |
| Security.TrustStore.Trust | src/security.rs:34-39 | trusting succeeds exactly when the file can be read and written, then stores the old names plus the new one; a failure changes nothing |
| Security.TrustAnswer | src/security.rs:41-64 | the prompt answers yes exactly when the name is trusted, or newly trusted by the flag or an accepted answer with a readable, writable store; no exactly when it is untrusted, the flag is off and the answer is not accepted; its only error is the store's |
| Security.FileAfterPrompt | src/security.rs:41-64 | the prompt changes the trust file only by trusting the name, and a yes always leaves the name trusted |
| Security.TrustStore.PromptForTrust | src/security.rs:41-64 | a trusted name is accepted without reading input; the trust-new flag trusts without asking; otherwise one line is read and only an accepted answer records trust; the answer, the trust file and the input left are `TrustAnswer`, `FileAfterPrompt` and `InputAfterPrompt`; `Ok(true)` always leaves the name trusted and no name ever loses trust |
| RepoHash.HashCaptureIsPattern | src/repo_hash.rs:62-92 | the hash extractor succeeds exactly when the pattern matches, and then yields the capture of every match |
| RepoHash.MatchStartsAfterWhitespace | src/repo_hash.rs:62 | in every match the hash starts right after the leading whitespace |
| RepoHash.HashCaptureShape | src/repo_hash.rs:84-94 | a captured hash is forty lowercase hex characters |
| RepoHash.ShortHashRejected | src/repo_hash.rs:64-70 | fewer than forty characters never match |
| RepoHash.UppercaseHashRejected | src/repo_hash.rs:64-70 | a hash starting with an uppercase hex digit never matches |
| RepoHash.HexPrefixAccepted | src/repo_hash.rs:62-72 | forty lowercase hex characters followed by any text without a line break match, and the capture is the forty characters |
| RepoHash.FetchRepoHashOnline | src/repo_hash.rs:60-95 | an explicit hash is accepted as written exactly when it matches, without running git; otherwise a failed `ls-remote` is the error, and its output yields a hash exactly when it matches, else the no-results error |
| RepoHash.CacheKeyInjective | src/repo_hash.rs:44-52 | for space-free tags the cache key tells references with different tags or urls apart |
| RepoHash.ReadCache | src/repo_hash.rs:18-33 | a missing or undecodable hash cache reads as none; only a failing read is an error |
| RepoHash.AddThenRead | src/repo_hash.rs:41-58 | what is added under a reference is read back for it, and every other key keeps its value |
| RepoHash.ResolveHash | src/repo_hash.rs:97-116 | the online answer wins; without it the cached hash is used; without both the online error gets the no-hash context; an unreadable cache is an error |
| RepoHash.CacheAfterResolve | src/repo_hash.rs:97-106 | the cache is rewritten only when the online answer exists, differs from the cached one and the write succeeds |
| RepoHash.OfflineRepeatsOnline | src/repo_hash.rs:97-113 | after an online resolution into a writable cache, a later offline resolution of the same reference yields the same hash |
| RepoHash.ResolveKeepsOtherEntries | src/repo_hash.rs:49-58 | resolving never changes the cached hash of a reference with another key |
| RepoHash.HashCache.FetchCached | src/repo_hash.rs:41-47 | the cached hash of a reference, and an error exactly when the cache cannot be read |
| RepoHash.HashCache.AddOne | src/repo_hash.rs:49-58 | adding succeeds exactly when the cache can be read and written, and then sets this reference's key only |
| RepoHash.HashCache.FetchRepoHash | src/repo_hash.rs:97-116 | the method returns the resolution and leaves the cache file as the refresh policy says |
| Download.ShortHash | src/download.rs:45 | the short hash is the first twenty characters, or the whole hash when shorter |
| Download.ShortHashIdempotent | src/download.rs:45 | shortening twice is shortening once; short hashes are kept |
| Download.SanitizeAllowed | src/download.rs:47-51 | a sanitised url holds only `[a-zA-Z0-9_+\-()]` characters |
| Download.SanitizeKeepsAllowed | src/download.rs:47-51 | a url of allowed characters is left unchanged |
| Download.SanitizeIdempotent | src/download.rs:47-51 | sanitising twice is sanitising once |
| Download.SanitizeShorter | src/download.rs:47-51 | sanitising never lengthens a url |
| Download.SanitizeRun | src/download.rs:47-51 | a maximal run of other characters becomes a single "_" and the rest is sanitised on its own |
| Download.TempBesideFinal | src/download.rs:63-82 | the temporary path is the final path followed by `.tmp_` and the token, so for every token it is neither the final path nor at or below it |
| Download.SetupSubjectDistinct | src/download.rs:111-112 | trusting a setup script is never trusting its url, and different urls have different setup subjects |
| Download.CloneAwayFrom | src/download.rs:83-107 | the clone changes nothing outside the temporary directory, so whether the final directory exists is unchanged |
| Download.CloneSubtree | src/download.rs:83-107 | cloning into a vacant temporary directory leaves exactly the checkout below it |
| Download.CloneFailure | src/download.rs:83-107 | the clone fails exactly when the temporary directory cannot be created or a git command fails, and the failing step is one of those five |
| Download.TrustedRunFailure | src/download.rs:111-125 | a found setup script passes exactly when the prompt answers yes and the script succeeds; it fails at the run exactly when it was trusted, and otherwise at the prompt |
| Download.FetchSucceedsIff | src/download.rs:83-142 | a fetch of a missing commit succeeds exactly when the temporary directory can be created, the four git commands succeed, a setup script, if any, is trusted and succeeds, and the rename does not fail for a reason other than a lost race |
| Download.FetchFailureSteps | src/download.rs:83-142 | the failure reported is that of the first failing step, with its own error: the directory's context, each command's error, the prompt's error or the not-trusted error, the script's error, or the rename's context |
| Download.FetchTouchesOnly | src/download.rs:72-142 | a fetch of a missing commit changes nothing outside the final and the temporary directories, on the model's disk, where `create_dir_all` records only the temporary directory itself |
| Download.FinalExistsIffFetched | src/download.rs:72-144 | when the final directory was missing, it exists afterwards exactly when the fetch succeeded |
| Download.RenamedHoldsCheckout | src/download.rs:128-142 | after a successful rename into vacant paths, the final directory holds exactly the checkout and nothing is left at the temporary path |
| Download.LostRaceKeepsWinner | src/download.rs:128-138 | after a lost race, the final directory holds exactly the winner's tree, and the temporary directory is gone exactly when its removal succeeded |
| Download.FetchOutcomeIff | src/download.rs:39-145 | `fetch_repo` fails with the resolution's error when the commit does not resolve; otherwise it succeeds exactly when the cache directory exists or every step of the fetch succeeds, and then yields that directory |
| Download.Clone | src/download.rs:83-107 | the clone succeeds exactly when the temporary directory can be created and all four git commands succeed, and then leaves the checkout in the temporary directory; otherwise the error is that of the first failing step, the run stops there, and the disk is as the model has that step leave it: unchanged when the directory cannot be created, the temporary directory left empty when a git command fails |
| Download.RunTrustedSetup | src/download.rs:109-126 | the script runs exactly when the prompt for "lunar-setup for <url>" answers yes; the step succeeds exactly when it is trusted and the script succeeds, and otherwise fails with the prompt's error, the not-trusted error or the script's error; the trust file and input are those the prompt leaves; trust is only ever added for that subject |
| Download.PlaceClone | src/download.rs:128-142 | the step succeeds exactly when the rename does not fail for a reason other than a lost race, and such a failure carries the rename context and leaves the disk as it was; the disk is `Placed`: the temporary tree moved to the final path, or after a lost race the winner's tree there and the temporary directory removed when removal succeeds |
| Download.SetupIfPresent | src/download.rs:109-126 | the setup steps are taken exactly when the clone carries `lunar-setup.luau`; the step succeeds exactly when there is no script or it is trusted and succeeds, a failure being that of the step it stopped at; without a script nothing is asked or read; a script runs only once trusted |
| Download.CloneAndSetup | src/download.rs:83-126 | succeeds exactly when the clone succeeds and a setup script, if present, is trusted and succeeds, and then leaves the clone on disk; a failure is that of the first failing step, with the disk as that step left it; trust is only asked when a setup script exists |
| Download.FetchMissing | src/download.rs:72-144 | the result is the final path exactly when every step succeeds, and otherwise the first failing step's error; the disk is `FetchedDisk`; the final directory exists afterwards exactly on success; nothing outside the final and temporary directories changes; for vacant paths, a rename leaves exactly the checkout at the final path and the temporary path vacant, and a lost race leaves the winner's tree and the temporary path vacant exactly when removal succeeds; the removal is taken only after a lost race |
| Download.FetchRepo | src/download.rs:39-145 | the result is `FetchOutcome`: the resolution's error, an existing cache directory without cloning, or the fetch's result; a hash failure or an existing directory leaves the disk as it was; otherwise the disk is `FetchedDisk`, and only the final and temporary directories change; the steps taken are a prefix of the pipeline; the hash cache follows the refresh policy; a setup script runs only once trusted; a returned directory exists |
| Process.SuccessOrError | src/download.rs:24-37 | the output passes exactly when the exit status is success; otherwise the error text names the exit code, 1 for a signal |
| Process.FailureTextParses | src/download.rs:29-34 | the exit code can be read back from the error text, followed by standard error and then standard output |
| Process.Run | src/download.rs:85-89 | a command result is the output exactly when it started and succeeded |
| Text.TrimEndMatchesShape | src/task_config.rs:69 | `trim_end_matches` removes a run of whole copies of the suffix and nothing else |
| Text.TrimPadded | src/security.rs:58 | trimming a non-blank core padded with whitespace gives the core |
| Text.IntToDecimalRoundTrip | src/download.rs:31 | the decimal rendering of an exit code reads back to the same integer |
| Fs.ReadDir | src/task_config.rs:54 | listing succeeds exactly on a directory and yields the joined paths of its entries in order |
| Fs.ReadFile | src/task_info.rs:72 | reading succeeds exactly on a readable file and yields its contents |
| Fs.JoinRelative | src/task_config.rs:52 | joining a relative name keeps the base as a prefix and is injective in the name |
| Fs.JoinAppend | src/download.rs:78-82 | joining a name followed by characters that do not start with a separator extends the joined path by those characters, so the temporary name `{short hash}.tmp_{token}` extends the final path |
| Fs.Disk.CreateDir | src/download.rs:83 | creating the temporary directory fails exactly when an existing ancestor or the path itself is not a directory ("Not a directory" for an ancestor, "File exists" for the path), and otherwise adds only that empty directory |
| Download.FileAboveTempStops | src/download.rs:78-83 | a regular file at `/d/repos` stops the fetch of `/d/repos/n/h.tmp_t` with "Could not create cache directory" before any git command |

## Left out

- Recursion depth: the resolver recurses without a bound, each level keeping its directory listing open, so on a self-referential config the program runs until it runs out of open directory handles (an error that `?` propagates) or out of stack (an abort). The model stops after `fuel` nested configs with an error, which stands for the first of these.
- TaskConfig.GetDirectoryTasks: the result is characterised only when no script directory holds a config (`ConfigFree`). With configs, it promises only that the table gains no fewer keys, and `AddEntries` likewise states only key growth, not that the walk stops at the first failing config. `AddEntry` states an entry's own effect only for scripts, for configs naming only a script, and for the error cases.
- TaskConfig.GetSelectorTasks: the filter/prefix branch ties its fresh table to the listing only when no config is involved, for the same reason.
- TaskConfig.AddRepoTasks: for a fetched repository with a listing selector, what the walk finds (`found`) is characterised only without configs, as for `GetDirectoryTasks`.
- TaskConfig.GetStandaloneConfigTasks: states the script-only, declined-repository and local single-script cases; a declined repository followed by a listing directory, and a fetched repository, promise only that keys are kept and the script is registered. `AddRepoTasks` and `GetSelectorTasks` state those steps on their own.
- Download.FetchMissing: what the final directory holds afterwards is stated only when the final path, and for a rename the temporary path, were vacant beforehand. Otherwise the contract gives the disk as `FetchedDisk` and the paths that may change.
- The setup script's own effects on the disk are not modelled: running `lune` is an outcome only, and the files of the clone are the `checkout` tree `git` leaves.
- TaskInfo.GetTaskInfos: states where each record comes from and that every visible top-level task is present. It does not say which of two colliding records wins, because `HashMap` iteration order is unspecified. The model picks the next name arbitrarily; sub-task maps are visited in the order of a sequence.
- Per-entry `read_dir` errors (`entry?`) are not modelled: a listing either fails as a whole or yields every entry.
- Non-UTF-8 file names (`to_str().unwrap()` panics) are not modelled. Neither is `to_string_lossy` / `from_utf8_lossy`: names, contents and command output are character strings, and the byte regular expressions are modelled on characters.
- Paths are strings joined as `Path::join` joins them on Unix. `directory.join(".")` is taken to be the directory itself, as Rust's componentwise path comparison and the operating system treat it. `create_dir_all` does not record the parent directories it creates.
- Download.TempBesideFinal: the token is base64 whose alphabet holds '/', and `with_file_name` then puts the temporary directory below a new directory `{short hash}.tmp_{token up to the '/'}` beside the final one. What is proved is only the string relation to the final path.
- Download.FetchMissing: with a token holding '/', the program leaves the empty directory `{short hash}.tmp_{token up to the '/'}` beside the final one after the rename or the removal, because only the temporary directory itself is moved or removed. The model's disk does not record the parents `create_dir_all` creates, so its disk clauses do not show that directory.
- Download.FetchTouchesOnly: for the same reason, the frame does not cover the parent directories `create_dir_all` creates, the one left by a token holding '/' included.
- Fs.Disk.CreateDir: an unreadable ancestor fails with "Not a directory" rather than the operating system's permission error; the context "Could not create cache directory" is the same.
- The local data directory (`local_data.rs`), the command line (`cli.rs`) and dispatch to the script runtime (`main.rs`) are not part of this model. The data root is an input. The `--trust-new` flag is a parameter, and a failure to parse the command line is not modelled.
- TOML decoding of configs and metadata blocks, and JSON decoding of the trust and hash caches, are not implemented. Decoders are function parameters. An undecodable cache file is the `Corrupt`/`Garbled` state.
- `DefaultHasher` with base64 (the url hash) and `Uuid::new_v4` (the temporary token) are inputs, not computed.
- `git` and `lune` are not run. Each command's outcome is an input, and the files a fetch leaves are the `checkout` tree. `Env.fetchExternals` gives the outcomes per repository reference, so a repository fetched twice in one run meets the same outcomes. A git command that fails leaves the temporary directory empty in the model; what `git init` or `git fetch` writes before a later command fails is not modelled.
- Concurrency: other processes appear only as a lost rename race, taken as the rename reporting `AlreadyExists` (with the winner's tree). Where the platform reports a non-empty target as `DirectoryNotEmpty` instead, the program takes the "Failed to rename cache directory" path, which the model reaches only through `RenameFailed`. Lost updates between concurrent writers of the hash and trust caches are not modelled.
- Warnings printed to standard error, and the prompt text, are dropped. A failing `stdout().flush()` or `read_line` in `prompt_for_trust` is not modelled: the console always yields a line, or "" at end of input.
- A failed write of the trust or hash cache is a `writable` flag fixed per store; the file is then left as it was.
