/** The repository fetcher (download.rs): where a repository at a resolved
    commit is cached, and the step-by-step clone into a temporary sibling
    directory that is renamed into place. */
module Download {
  import opened Outcomes
  import opened Fs
  import opened Process
  import opened ConfigRecords
  import opened RepoHash
  import opened Security

  /** The number of hash characters kept in a cache path. */
  const ShortHashLength := 20

  /** The first twenty characters of the hash, or all of it when shorter. */
  function ShortHash(hash: string): (short: string)
    ensures |short| == if |hash| < ShortHashLength then |hash| else ShortHashLength
    ensures short == hash[..|short|]
  {
    if |hash| < ShortHashLength then hash else hash[..ShortHashLength]
  }

  /** Shortening is a prefix that already-short hashes keep unchanged, so
      shortening twice is shortening once. */
  lemma ShortHashIdempotent(hash: string)
    ensures ShortHash(ShortHash(hash)) == ShortHash(hash)
    ensures |hash| <= ShortHashLength ==> ShortHash(hash) == hash
  {
  }

  /** The class `[a-zA-Z0-9_+\-()]` of characters kept in a sanitised url. */
  predicate AllowedUrlChar(c: char) {
    || ('a' <= c <= 'z') || ('A' <= c <= 'Z') || ('0' <= c <= '9')
    || c == '_' || c == '+' || c == '-' || c == '(' || c == ')'
  }

  predicate AllAllowed(s: string) {
    forall i :: 0 <= i < |s| ==> AllowedUrlChar(s[i])
  }

  predicate NoneAllowed(s: string) {
    forall i :: 0 <= i < |s| ==> !AllowedUrlChar(s[i])
  }

  /** `s` without its leading run of characters outside the class. */
  function DropDisallowed(s: string): (r: string)
    ensures |r| <= |s| && r == s[|s| - |r|..]
    ensures NoneAllowed(s[..|s| - |r|])
    ensures r == [] || AllowedUrlChar(r[0])
  {
    if s == [] || AllowedUrlChar(s[0]) then s
    else
      var r := DropDisallowed(s[1..]);
      var n := |s| - |r|;
      assert s[1..][n - 1..] == s[n..];
      assert s[..n] == [s[0]] + s[1..][..n - 1];
      r
  }

  /** `replace_all` of the pattern `[^a-zA-Z0-9_\+\-\(\)]+` by "_": every
      maximal run of characters outside the class becomes one "_". */
  function Sanitize(s: string): string
    decreases |s|
  {
    if s == [] then []
    else if AllowedUrlChar(s[0]) then [s[0]] + Sanitize(s[1..])
    else "_" + Sanitize(DropDisallowed(s))
  }

  /** A sanitised url holds only characters of the class. */
  lemma {:induction false} SanitizeAllowed(s: string)
    ensures AllAllowed(Sanitize(s))
    decreases |s|
  {
    if s == [] {
    } else if AllowedUrlChar(s[0]) {
      SanitizeAllowed(s[1..]);
    } else {
      SanitizeAllowed(DropDisallowed(s));
    }
  }

  /** A url made of allowed characters only is left unchanged. */
  lemma {:induction false} SanitizeKeepsAllowed(s: string)
    requires AllAllowed(s)
    ensures Sanitize(s) == s
    decreases |s|
  {
    if s != [] {
      SanitizeKeepsAllowed(s[1..]);
    }
  }

  /** Sanitising twice is sanitising once. */
  lemma SanitizeIdempotent(s: string)
    ensures Sanitize(Sanitize(s)) == Sanitize(s)
  {
    SanitizeAllowed(s);
    SanitizeKeepsAllowed(Sanitize(s));
  }

  /** Sanitising never lengthens a url. */
  lemma {:induction false} SanitizeShorter(s: string)
    ensures |Sanitize(s)| <= |s|
    decreases |s|
  {
    if s == [] {
    } else if AllowedUrlChar(s[0]) {
      SanitizeShorter(s[1..]);
    } else {
      SanitizeShorter(DropDisallowed(s));
    }
  }

  /** One maximal run, described from outside: an allowed prefix is kept,
      a whole run of other characters becomes a single "_", and the text
      after the run is sanitised on its own. */
  lemma SanitizeRun(kept: string, run: string, rest: string)
    requires AllAllowed(kept) && run != [] && NoneAllowed(run)
    requires rest == [] || AllowedUrlChar(rest[0])
    ensures Sanitize(kept + (run + rest)) == kept + ("_" + Sanitize(rest))
  {
    SanitizeKeepsPrefix(kept, run + rest);
    SanitizeRunFirst(run, rest);
  }

  /** An allowed prefix passes through unchanged. */
  lemma {:induction false} SanitizeKeepsPrefix(kept: string, x: string)
    requires AllAllowed(kept)
    ensures Sanitize(kept + x) == kept + Sanitize(x)
    decreases |kept|
  {
    if kept == [] {
      assert kept + x == x;
    } else {
      AllAllowedTail(kept);
      SanitizeKeepsPrefix(kept[1..], x);
      SanitizeCons(kept[0], kept[1..] + x);
      ConsRegroup(kept, x, Sanitize(x));
    }
  }

  /** A leading run of other characters becomes one "_". */
  lemma SanitizeRunFirst(run: string, rest: string)
    requires run != [] && NoneAllowed(run)
    requires rest == [] || AllowedUrlChar(rest[0])
    ensures Sanitize(run + rest) == "_" + Sanitize(rest)
  {
    assert (run + rest)[0] == run[0];
    DropRun(run, rest);
  }

  lemma AllAllowedTail(s: string)
    requires s != [] && AllAllowed(s)
    ensures AllowedUrlChar(s[0]) && AllAllowed(s[1..])
  {
    forall i | 0 <= i < |s[1..]| ensures AllowedUrlChar(s[1..][i]) {
      assert s[1..][i] == s[i + 1];
    }
  }

  /** Splitting off the first character on both sides. */
  lemma ConsRegroup(kept: string, x: string, y: string)
    requires kept != []
    ensures kept + x == [kept[0]] + (kept[1..] + x)
    ensures [kept[0]] + (kept[1..] + y) == kept + y
  {
    assert kept == [kept[0]] + kept[1..];
  }

  /** An allowed first character is kept as it is. */
  lemma SanitizeCons(c: char, t: string)
    requires AllowedUrlChar(c)
    ensures Sanitize([c] + t) == [c] + Sanitize(t)
  {
    assert ([c] + t)[0] == c;
    assert ([c] + t)[1..] == t;
  }

  /** `DropDisallowed` removes exactly a whole leading run. */
  lemma {:induction false} DropRun(run: string, rest: string)
    requires NoneAllowed(run)
    requires rest == [] || AllowedUrlChar(rest[0])
    ensures DropDisallowed(run + rest) == rest
    decreases |run|
  {
    if run != [] {
      assert (run + rest)[1..] == run[1..] + rest;
      DropRun(run[1..], rest);
    } else {
      assert run + rest == rest;
    }
  }

  /** The cache directory name of a repository: "{sanitised url}-{url hash}".
      The url hash (the platform hasher's value, base64-encoded) is not
      modelled: it is given as a function of the url. */
  function RepoCacheDirName(url: string, urlHash: string -> string): string {
    Sanitize(url) + "-" + urlHash(url)
  }

  /** The directory holding every cached commit of one repository. */
  function RepoDir(root: Path, url: string, urlHash: string -> string): Path {
    Join(Join(root, "repos"), RepoCacheDirName(url, urlHash))
  }

  /** The final cache directory: `root/repos/{name}/{short hash}`. */
  function CacheDir(root: Path, url: string, urlHash: string -> string, hash: string): Path {
    Join(RepoDir(root, url, urlHash), ShortHash(hash))
  }

  /** The temporary path `{short hash}.tmp_{token}` (`with_file_name` on the
      final directory, whose last component is the short hash). A token
      holding '/' makes it a path below a new directory beside the final one. */
  function TempDir(root: Path, url: string, urlHash: string -> string, hash: string, token: string): Path {
    Join(RepoDir(root, url, urlHash), ShortHash(hash) + ".tmp_" + token)
  }

  /** The temporary path is the final path followed by something that does
      not begin with a separator, so neither lies at or below the other. */
  predicate Sibling(temp: Path, final: Path) {
    |final| < |temp| && StartsWithPath(temp, final) && temp[|final|] != '/'
  }

  /** Nothing lies at or below both siblings, and neither lies below the
      other. */
  lemma SiblingsApart(temp: Path, final: Path, p: Path)
    requires Sibling(temp, final)
    ensures !(Below(temp, p) && Below(final, p))
    ensures !Below(temp, final) && !Below(final, temp)
  {
  }

  /** Whatever the token, the temporary directory is the final one's path
      followed by ".tmp_" and the token, so they never coincide and neither
      lies below the other. */
  lemma TempBesideFinal(root: Path, url: string, urlHash: string -> string, hash: string, token: string)
    ensures var final := CacheDir(root, url, urlHash, hash);
            var temp := TempDir(root, url, urlHash, hash, token);
            Sibling(temp, final) && temp[|final|] == '.' && temp != final
  {
    var parent := RepoDir(root, url, urlHash);
    var short := ShortHash(hash);
    var tail := ".tmp_" + token;
    var final := Join(parent, short);
    assert short + ".tmp_" + token == short + tail;
    JoinAppend(parent, short, tail);
    var temp := final + tail;
    assert temp[..|final|] == final && temp[|final|] == tail[0];
  }

  /** The trust subject of a repository's setup script. */
  function SetupSubject(url: string): string {
    "lunar-setup for " + url
  }

  /** Trusting a setup script is never the same as trusting the url itself,
      and subjects of different urls differ. */
  lemma SetupSubjectDistinct(url: string, other: string)
    ensures SetupSubject(url) != url
    ensures SetupSubject(url) == SetupSubject(other) ==> url == other
  {
    var p := "lunar-setup for ";
    assert SetupSubject(url)[|p|..] == url;
    assert SetupSubject(other)[|p|..] == other;
  }

  /** The setup script a repository may carry. */
  const SetupFileName := "lunar-setup.luau"

  /** The question shown before running a setup script. */
  function SetupQuery(url: string, setupFile: Path): string {
    "Do you want to run the setup script for " + url + " ? It may make changes to your system!\nTemporary file location: " + setupFile
  }

  /** How renaming the temporary directory into place ends: it succeeds;
      another process has already put its own clone (`winner`) there; or it
      fails for another reason. */
  datatype RenameOutcome = Renamed | AlreadyExists(winner: Tree) | RenameFailed(reason: string)

  /** Everything `fetch_repo` receives from outside: the local data root,
      the url hasher, the random token, and the outcome of each command
      (`checkout` is what `git fetch` and `git reset` leave in the temporary
      directory). `removable` says whether removing a discarded temporary
      directory succeeds. */
  datatype Externals = Externals(
    root: Path,
    urlHash: string -> string,
    lsRemote: Outcome,
    token: string,
    init: Outcome,
    remoteAdd: Outcome,
    fetch: Outcome,
    reset: Outcome,
    checkout: Tree,
    setup: Outcome,
    rename: RenameOutcome,
    removable: bool)

  /** The steps of `fetch_repo`. */
  datatype Step =
    | ResolveHashStep | CreateTemp | GitInit | GitRemoteAdd | GitFetch | GitReset
    | PromptTrust | RunSetup | RenameTemp | RemoveTemp

  /** A step that failed, with the error it raised. */
  datatype Failure = Failure(step: Step, error: Error)

  /** The error of a temporary directory that cannot be created. */
  function CreateTempError(fs: FileSystem, temp: Path): Error {
    CreateDirError(fs, temp).WithContext("Could not create cache directory")
  }

  /** The error of a declined setup script. */
  const NotTrustedError := Fail("Setup file was not trusted.")

  /** The error of a rename that fails for a reason other than a lost race. */
  function RenameError(reason: string): Error {
    Fail(reason).WithContext("Failed to rename cache directory")
  }

  /** The order of the steps; the setup steps only when a setup script is
      present, the removal only after a lost race. */
  function Pipeline(setup: bool): seq<Step> {
    [ResolveHashStep, CreateTemp, GitInit, GitRemoteAdd, GitFetch, GitReset]
    + (if setup then [PromptTrust, RunSetup] else [])
    + [RenameTemp, RemoveTemp]
  }

  /** Where a step stands in the pipeline, or the pipeline's length when the
      step is not part of it. */
  function Position(s: Step, setup: bool): (i: nat)
    ensures i <= if setup then 10 else 8
  {
    var k := if setup then 2 else 0;
    match s
    case ResolveHashStep => 0
    case CreateTemp => 1
    case GitInit => 2
    case GitRemoteAdd => 3
    case GitFetch => 4
    case GitReset => 5
    case PromptTrust => if setup then 6 else 8
    case RunSetup => if setup then 7 else 8
    case RenameTemp => 6 + k
    case RemoveTemp => 7 + k
  }

  /** `Position` indexes the pipeline: the step stands at its position, and
      a step at the pipeline's length is not part of it. */
  lemma PositionInPipeline(s: Step, setup: bool)
    ensures |Pipeline(setup)| == if setup then 10 else 8
    ensures Position(s, setup) < |Pipeline(setup)| ==> Pipeline(setup)[Position(s, setup)] == s
    ensures Position(s, setup) == |Pipeline(setup)| ==> s !in Pipeline(setup)
  {
  }

  /** A run that took the first `reached` steps of the pipeline took `s`. */
  predicate Took(s: Step, setup: bool, reached: nat) {
    Position(s, setup) < reached
  }

  /** `s` was the last step such a run took. */
  predicate EndedAt(s: Step, setup: bool, reached: nat) {
    Position(s, setup) + 1 == reached
  }

  /** `Took` is membership in the steps taken: every step occurs at most once
      in the pipeline. */
  lemma TookIsInTrace(s: Step, setup: bool, reached: nat)
    requires reached <= |Pipeline(setup)|
    ensures Took(s, setup, reached) <==> s in Pipeline(setup)[..reached]
  {
    var p := Pipeline(setup);
    PositionInPipeline(s, setup);
    if s in p[..reached] {
      var j :| 0 <= j < reached && p[j] == s;
      if setup {
        assert p == [ResolveHashStep, CreateTemp, GitInit, GitRemoteAdd, GitFetch, GitReset,
                     PromptTrust, RunSetup, RenameTemp, RemoveTemp];
      } else {
        assert p == [ResolveHashStep, CreateTemp, GitInit, GitRemoteAdd, GitFetch, GitReset,
                     RenameTemp, RemoveTemp];
      }
      assert j == Position(s, setup);
    }
  }

  predicate IsPrefix(t: seq<Step>, p: seq<Step>) {
    |t| <= |p| && p[..|t|] == t
  }

  // ----- what each step needs, and which step fails first -----

  /** No ancestor of the temporary path is a non-directory, and nothing but a
      directory is at the path itself, so `create_dir_all` succeeds. */
  predicate TempCreatable(fs: FileSystem, temp: Path) {
    !AncestorBlocked(fs, temp) && (!Exists(fs, temp) || fs.nodes[temp].Dir?)
  }

  /** `git init`, `git remote add`, `git fetch` and `git reset` all succeed. */
  predicate GitSucceeds(ext: Externals) {
    Run(ext.init).Ok? && Run(ext.remoteAdd).Ok? && Run(ext.fetch).Ok? && Run(ext.reset).Ok?
  }

  /** The clone carries a setup script. */
  predicate HasSetup(cloned: FileSystem, temp: Path) {
    Exists(cloned, Join(temp, SetupFileName))
  }

  /** A setup script, if there is one, is trusted and runs successfully. */
  predicate SetupPasses(cloned: FileSystem, temp: Path, answer: Result<bool>, setup: Outcome) {
    HasSetup(cloned, temp) ==> answer == Ok(true) && Run(setup).Ok?
  }

  /** The answer the prompt for "lunar-setup for <url>" gives. */
  function SetupAnswer(url: string, trustNew: bool, file: TrustFile, input: seq<string>, writable: bool)
    : Result<bool>
  {
    TrustAnswer(file, SetupSubject(url), trustNew, input, writable)
  }

  /** The first step of the clone that fails, if any: creating the temporary
      directory, then the four git commands in order. */
  function CloneFailure(fs: FileSystem, temp: Path, ext: Externals): (f: Option<Failure>)
    ensures f.None? <==> TempCreatable(fs, temp) && GitSucceeds(ext)
    ensures f.Some? ==> 1 <= Position(f.value.step, false) <= 5
  {
    if !TempCreatable(fs, temp) then Some(Failure(CreateTemp, CreateTempError(fs, temp)))
    else if Run(ext.init).Err? then Some(Failure(GitInit, Run(ext.init).error))
    else if Run(ext.remoteAdd).Err? then Some(Failure(GitRemoteAdd, Run(ext.remoteAdd).error))
    else if Run(ext.fetch).Err? then Some(Failure(GitFetch, Run(ext.fetch).error))
    else if Run(ext.reset).Err? then Some(Failure(GitReset, Run(ext.reset).error))
    else None
  }

  /** A regular file where a parent of the temporary directory should be
      stops the fetch before any git command runs, with `ENOTDIR`. */
  lemma FileAboveTempStops(ext: Externals)
    ensures var temp := "/d/repos/n/h.tmp_t";
            CloneFailure(FileSystem(map["/d/repos" := File("x")]), temp, ext)
              == Some(Failure(CreateTemp, NotADirectory.WithContext("Could not create cache directory")))
  {
    var temp := "/d/repos/n/h.tmp_t";
    assert temp[8] == '/' && temp[..8] == "/d/repos";
  }

  /** The failure of a found setup script: the prompt's error or a refusal,
      then the script's own failure. */
  function TrustedRunFailure(answer: Result<bool>, setup: Outcome): (f: Option<Failure>)
    ensures f.None? <==> answer == Ok(true) && Run(setup).Ok?
    ensures f.Some? ==> (f.value.step == RunSetup <==> answer == Ok(true))
    ensures f.Some? ==> f.value.step == RunSetup || f.value.step == PromptTrust
  {
    if answer.Err? then Some(Failure(PromptTrust, answer.error))
    else if !answer.value then Some(Failure(PromptTrust, NotTrustedError))
    else if Run(setup).Err? then Some(Failure(RunSetup, Run(setup).error))
    else None
  }

  /** The setup step's failure: none without a setup script. */
  function SetupFailure(cloned: FileSystem, temp: Path, answer: Result<bool>, setup: Outcome)
    : (f: Option<Failure>)
    ensures f.None? <==> SetupPasses(cloned, temp, answer, setup)
    ensures f.Some? ==> f.value.step == RunSetup || f.value.step == PromptTrust
  {
    if HasSetup(cloned, temp) then TrustedRunFailure(answer, setup) else None
  }

  /** The first failure of the clone and the setup. */
  function PreparedFailure(fs: FileSystem, temp: Path, ext: Externals, answer: Result<bool>)
    : Option<Failure>
  {
    var c := CloneFailure(fs, temp, ext);
    if c.Some? then c else SetupFailure(AfterClone(fs, temp, ext.checkout), temp, answer, ext.setup)
  }

  /** The clone's failure is the first; without one, the setup's failure is. */
  lemma PreparedSteps(fs: FileSystem, temp: Path, ext: Externals, answer: Result<bool>)
    ensures var c := CloneFailure(fs, temp, ext);
            && (c.Some? ==> PreparedFailure(fs, temp, ext, answer) == c)
            && (c.None? ==> PreparedFailure(fs, temp, ext, answer) ==
                              SetupFailure(AfterClone(fs, temp, ext.checkout), temp, answer, ext.setup))
  {
  }

  /** The first step of a fetch of a missing commit that fails, if any: the
      clone, the setup, then the rename, where only a failure other than a
      lost race counts. */
  function FetchFailure(fs: FileSystem, temp: Path, ext: Externals, answer: Result<bool>)
    : Option<Failure>
  {
    var p := PreparedFailure(fs, temp, ext, answer);
    if p.Some? then p
    else if ext.rename.RenameFailed? then Some(Failure(RenameTemp, RenameError(ext.rename.reason)))
    else None
  }

  /** A fetch of a missing commit succeeds exactly when the temporary
      directory can be created, the four git commands succeed, a setup script
      (if any) is trusted and succeeds, and the rename does not fail for a
      reason other than a lost race. */
  lemma FetchSucceedsIff(fs: FileSystem, temp: Path, ext: Externals, answer: Result<bool>)
    ensures FetchFailure(fs, temp, ext, answer).None? <==>
              && TempCreatable(fs, temp) && GitSucceeds(ext)
              && SetupPasses(AfterClone(fs, temp, ext.checkout), temp, answer, ext.setup)
              && !ext.rename.RenameFailed?
  {
  }

  /** The failure reported is that of the first step that fails, every step
      before it having succeeded: the temporary directory's context, each
      command's own error, the prompt's error or the refusal, the setup
      script's error, or the rename's. */
  lemma FetchFailureSteps(fs: FileSystem, temp: Path, ext: Externals, answer: Result<bool>)
    ensures var f := FetchFailure(fs, temp, ext, answer);
            var cloned := AfterClone(fs, temp, ext.checkout);
            && (!TempCreatable(fs, temp) ==> f == Some(Failure(CreateTemp, CreateTempError(fs, temp))))
            && (TempCreatable(fs, temp) && Run(ext.init).Err? ==>
                  f == Some(Failure(GitInit, Run(ext.init).error)))
            && (TempCreatable(fs, temp) && Run(ext.init).Ok? && Run(ext.remoteAdd).Err? ==>
                  f == Some(Failure(GitRemoteAdd, Run(ext.remoteAdd).error)))
            && (TempCreatable(fs, temp) && Run(ext.init).Ok? && Run(ext.remoteAdd).Ok?
                && Run(ext.fetch).Err? ==>
                  f == Some(Failure(GitFetch, Run(ext.fetch).error)))
            && (TempCreatable(fs, temp) && Run(ext.init).Ok? && Run(ext.remoteAdd).Ok?
                && Run(ext.fetch).Ok? && Run(ext.reset).Err? ==>
                  f == Some(Failure(GitReset, Run(ext.reset).error)))
            && (TempCreatable(fs, temp) && GitSucceeds(ext) && HasSetup(cloned, temp) && answer.Err? ==>
                  f == Some(Failure(PromptTrust, answer.error)))
            && (TempCreatable(fs, temp) && GitSucceeds(ext) && HasSetup(cloned, temp) && answer == Ok(false) ==>
                  f == Some(Failure(PromptTrust, NotTrustedError)))
            && (TempCreatable(fs, temp) && GitSucceeds(ext) && HasSetup(cloned, temp) && answer == Ok(true)
                && Run(ext.setup).Err? ==>
                  f == Some(Failure(RunSetup, Run(ext.setup).error)))
            && (TempCreatable(fs, temp) && GitSucceeds(ext) && SetupPasses(cloned, temp, answer, ext.setup)
                && ext.rename.RenameFailed? ==>
                  f == Some(Failure(RenameTemp, RenameError(ext.rename.reason))))
  {
  }

  // ----- the disk each step leaves -----

  /** `create_dir_all` of the temporary directory: created empty when absent. */
  function CreatedTemp(fs: FileSystem, temp: Path): (r: FileSystem)
    ensures temp in r.nodes
  {
    if temp in fs.nodes then fs else FileSystem(fs.nodes[temp := Dir([])])
  }

  /** The filesystem when the clone has finished: the temporary directory
      exists and holds the checked-out files. */
  function AfterClone(fs: FileSystem, temp: Path, checkout: Tree): (r: FileSystem)
    ensures temp in r.nodes
  {
    assert temp + "" == temp;
    Mount(CreatedTemp(fs, temp), temp, checkout)
  }

  /** The tree another process left at the final path, which exists. */
  function Rooted(t: Tree): (r: Tree)
    ensures "" in r
  {
    if "" in t then t else t["" := Dir([])]
  }

  /** The disk a fetch that stopped at step `s` leaves, as the model has it:
      as it was before the temporary directory is created, with the
      temporary directory left empty when a git command fails (what git
      writes before it fails is not modelled), and with the checkout
      afterwards. */
  function Stopped(fs: FileSystem, temp: Path, checkout: Tree, s: Step): FileSystem {
    if s == ResolveHashStep || s == CreateTemp then fs
    else if s == GitInit || s == GitRemoteAdd || s == GitFetch || s == GitReset then CreatedTemp(fs, temp)
    else AfterClone(fs, temp, checkout)
  }

  /** A fetch stopped in the setup leaves the clone on the disk. */
  lemma StoppedInSetup(fs: FileSystem, temp: Path, checkout: Tree, s: Step)
    requires s == PromptTrust || s == RunSetup
    ensures Stopped(fs, temp, checkout, s) == AfterClone(fs, temp, checkout)
  {
  }

  /** The disk after the rename: the temporary tree moved to the final path;
      or, after a lost race, the winner's tree at the final path and the
      temporary tree removed when the removal succeeds; or, after another
      failure, the disk unchanged. */
  function Placed(fs: FileSystem, temp: Path, final: Path, rename: RenameOutcome, removable: bool)
    : FileSystem
  {
    match rename
    case Renamed => Mount(RemoveTree(fs, temp), final, Subtree(fs, temp))
    case AlreadyExists(winner) =>
      var won := Mount(fs, final, Rooted(winner));
      if removable then RemoveTree(won, temp) else won
    case RenameFailed(_) => fs
  }

  /** The disk a fetch of a missing commit leaves. */
  function FetchedDisk(fs: FileSystem, temp: Path, final: Path, ext: Externals, answer: Result<bool>)
    : FileSystem
  {
    var f := FetchFailure(fs, temp, ext, answer);
    if f.Some? then Stopped(fs, temp, ext.checkout, f.value.step)
    else Placed(AfterClone(fs, temp, ext.checkout), temp, final, ext.rename, ext.removable)
  }

  /** Creating the temporary directory and cloning into it change nothing
      outside it. */
  lemma CloneOnlyBelow(fs: FileSystem, temp: Path, checkout: Tree)
    ensures OnlyBelow(fs, CreatedTemp(fs, temp), temp, temp)
    ensures OnlyBelow(fs, AfterClone(fs, temp, checkout), temp, temp)
  {
    MountOnlyBelow(CreatedTemp(fs, temp), temp, checkout);
    OnlyBelowTrans(fs, CreatedTemp(fs, temp), AfterClone(fs, temp, checkout), temp, temp);
  }

  /** The clone changes nothing outside the temporary directory, and in
      particular does not create the final directory. */
  lemma CloneAwayFrom(fs: FileSystem, temp: Path, checkout: Tree, final: Path)
    requires Sibling(temp, final)
    ensures OnlyBelow(fs, AfterClone(fs, temp, checkout), temp, temp)
    ensures Exists(AfterClone(fs, temp, checkout), final) == Exists(fs, final)
  {
    CloneOnlyBelow(fs, temp, checkout);
    SiblingsApart(temp, final, final);
  }

  /** The rename changes nothing outside the final and the temporary
      directories. */
  lemma PlacedOnlyBelow(fs: FileSystem, temp: Path, final: Path, rename: RenameOutcome, removable: bool)
    ensures OnlyBelow(fs, Placed(fs, temp, final, rename, removable), final, temp)
  {
    match rename
    case Renamed =>
      RemoveOnlyBelow(fs, temp);
      OnlyBelowWiden(fs, RemoveTree(fs, temp), temp, final, temp);
      MountOnlyBelow(RemoveTree(fs, temp), final, Subtree(fs, temp));
      OnlyBelowWiden(RemoveTree(fs, temp), Placed(fs, temp, final, rename, removable), final, final, temp);
      OnlyBelowTrans(fs, RemoveTree(fs, temp), Placed(fs, temp, final, rename, removable), final, temp);
    case AlreadyExists(winner) =>
      var won := Mount(fs, final, Rooted(winner));
      MountOnlyBelow(fs, final, Rooted(winner));
      OnlyBelowWiden(fs, won, final, final, temp);
      if removable {
        RemoveOnlyBelow(won, temp);
        OnlyBelowWiden(won, RemoveTree(won, temp), temp, final, temp);
        OnlyBelowTrans(fs, won, RemoveTree(won, temp), final, temp);
      }
    case RenameFailed(_) =>
  }

  /** A fetch of a missing commit changes nothing outside the final and the
      temporary directories. */
  lemma FetchTouchesOnly(fs: FileSystem, temp: Path, final: Path, ext: Externals, answer: Result<bool>)
    ensures OnlyBelow(fs, FetchedDisk(fs, temp, final, ext, answer), final, temp)
  {
    var cloned := AfterClone(fs, temp, ext.checkout);
    var f := FetchFailure(fs, temp, ext, answer);
    if f.Some? {
      StoppedOnlyBelow(fs, temp, final, ext.checkout, f.value.step);
    } else {
      CloneOnlyBelow(fs, temp, ext.checkout);
      OnlyBelowWiden(fs, cloned, temp, final, temp);
      PlacedOnlyBelow(cloned, temp, final, ext.rename, ext.removable);
      OnlyBelowTrans(fs, cloned, Placed(cloned, temp, final, ext.rename, ext.removable), final, temp);
    }
  }

  /** A stopped fetch changes nothing outside the temporary directory. */
  lemma StoppedOnlyBelow(fs: FileSystem, temp: Path, final: Path, checkout: Tree, s: Step)
    ensures OnlyBelow(fs, Stopped(fs, temp, checkout, s), final, temp)
  {
    var stopped := Stopped(fs, temp, checkout, s);
    if s == ResolveHashStep || s == CreateTemp {
      assert stopped == fs;
    } else if s == GitInit || s == GitRemoteAdd || s == GitFetch || s == GitReset {
      assert stopped == CreatedTemp(fs, temp);
      CloneOnlyBelow(fs, temp, checkout);
      OnlyBelowWiden(fs, stopped, temp, final, temp);
    } else {
      assert stopped == AfterClone(fs, temp, checkout);
      CloneOnlyBelow(fs, temp, checkout);
      OnlyBelowWiden(fs, stopped, temp, final, temp);
    }
  }

  /** When the final directory was missing, it exists afterwards exactly when
      the fetch succeeded. */
  lemma FinalExistsIffFetched(fs: FileSystem, temp: Path, final: Path, ext: Externals, answer: Result<bool>)
    requires Sibling(temp, final) && !Exists(fs, final)
    ensures Exists(FetchedDisk(fs, temp, final, ext, answer), final) <==>
              FetchFailure(fs, temp, ext, answer).None?
  {
    var f := FetchFailure(fs, temp, ext, answer);
    CloneAwayFrom(fs, temp, ext.checkout, final);
    if f.Some? {
      StoppedLacksFinal(fs, temp, final, ext.checkout, f.value.step);
    } else {
      FetchSucceedsIff(fs, temp, ext, answer);
      PlacedHasFinal(AfterClone(fs, temp, ext.checkout), temp, final, ext.rename, ext.removable);
    }
  }

  /** A stopped fetch does not create the final directory. */
  lemma StoppedLacksFinal(fs: FileSystem, temp: Path, final: Path, checkout: Tree, s: Step)
    requires Sibling(temp, final) && !Exists(fs, final)
    ensures !Exists(Stopped(fs, temp, checkout, s), final)
  {
    SiblingsApart(temp, final, final);
    CloneOnlyBelow(fs, temp, checkout);
  }

  /** A rename that is not a plain failure leaves the final directory in
      place. */
  lemma PlacedHasFinal(cloned: FileSystem, temp: Path, final: Path, rename: RenameOutcome, removable: bool)
    requires Sibling(temp, final) && temp in cloned.nodes && !rename.RenameFailed?
    ensures Exists(Placed(cloned, temp, final, rename, removable), final)
  {
    SiblingsApart(temp, final, final);
    assert final + "" == final;
    if rename.Renamed? {
      assert temp[|temp|..] == "";
    }
  }

  /** The clone of a fresh temporary directory holds exactly the checkout,
      with the directory itself as its root. */
  lemma CloneSubtree(fs: FileSystem, temp: Path, checkout: Tree)
    requires Vacant(fs, temp)
    ensures Subtree(AfterClone(fs, temp, checkout), temp) == Rooted(checkout)
  {
    var cloned := AfterClone(fs, temp, checkout);
    var created := CreatedTemp(fs, temp);
    assert temp + "" == temp;
    forall p | p in cloned.nodes && Below(temp, p) ensures p[|temp|..] in Rooted(checkout) {
      if !(StartsWithPath(p, temp) && p[|temp|..] in checkout) {
        assert p in created.nodes;
        assert p == temp;
      }
    }
    forall rel | rel in Rooted(checkout)
      ensures temp + rel in cloned.nodes && cloned.nodes[temp + rel] == Rooted(checkout)[rel]
    {
      if rel !in checkout {
        assert rel == "";
        assert temp[|temp|..] == "";
      }
    }
    SubtreeIs(cloned, temp, Rooted(checkout));
  }

  /** After a successful rename into a missing final directory, the final
      directory holds exactly the checkout and nothing is left at the
      temporary path. */
  lemma RenamedHoldsCheckout(fs: FileSystem, temp: Path, final: Path, checkout: Tree, removable: bool)
    requires Sibling(temp, final) && Vacant(fs, final) && Vacant(fs, temp)
    ensures var placed := Placed(AfterClone(fs, temp, checkout), temp, final, Renamed, removable);
            Subtree(placed, final) == Rooted(checkout) && Vacant(placed, temp)
  {
    var cloned := AfterClone(fs, temp, checkout);
    var removed := RemoveTree(cloned, temp);
    var placed := Placed(cloned, temp, final, Renamed, removable);
    CloneSubtree(fs, temp, checkout);
    CloneOnlyBelow(fs, temp, checkout);
    assert placed == Mount(removed, final, Rooted(checkout));
    forall p | p in placed.nodes && Below(final, p) ensures p[|final|..] in Rooted(checkout) {
      SiblingsApart(temp, final, p);

    }
    SubtreeIs(placed, final, Rooted(checkout));
    forall p | p in placed.nodes ensures !Below(temp, p) {
      SiblingsApart(temp, final, p);
      if StartsWithPath(p, final) && p[|final|..] in Rooted(checkout) {
        BelowKeyed(final, p);
      }
    }
  }

  /** After a lost race into a missing final directory, the final directory
      holds exactly the winner's tree, and the temporary directory is gone
      exactly when its removal succeeded. */
  lemma LostRaceKeepsWinner(fs: FileSystem, temp: Path, final: Path, checkout: Tree, winner: Tree,
                            removable: bool)
    requires Sibling(temp, final) && Vacant(fs, final)
    ensures var placed := Placed(AfterClone(fs, temp, checkout), temp, final, AlreadyExists(winner), removable);
            Subtree(placed, final) == Rooted(winner) && (Vacant(placed, temp) <==> removable)
  {
    var cloned := AfterClone(fs, temp, checkout);
    var won := Mount(cloned, final, Rooted(winner));
    var placed := Placed(cloned, temp, final, AlreadyExists(winner), removable);
    CloneOnlyBelow(fs, temp, checkout);
    forall p | p in won.nodes && Below(final, p) ensures p[|final|..] in Rooted(winner) {
      SiblingsApart(temp, final, p);

    }
    SubtreeIs(won, final, Rooted(winner));
    if removable {
      forall p | p in placed.nodes && Below(final, p) ensures p[|final|..] in Rooted(winner) {
      }
      forall rel | rel in Rooted(winner)
        ensures final + rel in placed.nodes && placed.nodes[final + rel] == Rooted(winner)[rel]
      {
        BelowKeyed(final, final + rel);
        SiblingsApart(temp, final, final + rel);
      }
      SubtreeIs(placed, final, Rooted(winner));
    } else {
      SiblingsApart(temp, final, temp);
      if StartsWithPath(temp, final) && temp[|final|..] in Rooted(winner) {
        BelowKeyed(final, temp);
      }
      assert temp in placed.nodes && Below(temp, temp);
    }
  }

  /** A path keyed in a tree mounted at `at` lies at or below `at`. */
  lemma BelowKeyed(at: Path, p: Path)
    requires StartsWithPath(p, at) && TreeKey(p[|at|..])
    ensures Below(at, p)
  {
    if p[|at|..] != [] {
      assert p[|at|] == p[|at|..][0];
    }
  }

  // ----- the steps as methods -----

  /** Creating the temporary directory and cloning into it: `git init`,
      `git remote add origin <url>`, `git fetch --depth 1 origin <hash>`,
      `git reset --hard FETCH_HEAD`, stopping at the first failure. `reached`
      counts the pipeline steps taken, hash resolution included: the clone
      takes steps 1 (CreateTemp) to 5 (GitReset). */
  method Clone(temp: Path, ext: Externals, disk: Disk) returns (r: Result<Unit>, ghost reached: nat)
    modifies disk
    ensures 2 <= reached <= 6
    ensures r.Ok? <==> CloneFailure(old(disk.fs), temp, ext).None?
    ensures r.Ok? ==> reached == 6 && disk.fs == AfterClone(old(disk.fs), temp, ext.checkout)
    // a failure is that of the first step that fails, and the run stops there
    ensures r.Err? ==> var f := CloneFailure(old(disk.fs), temp, ext);
              && f.Some? && f.value.error == r.error && EndedAt(f.value.step, false, reached)
              && disk.fs == Stopped(old(disk.fs), temp, ext.checkout, f.value.step)
  {
    reached := 2;
    var created := disk.CreateDir(temp);
    if created.Err? {
      return Err(created.error.WithContext("Could not create cache directory")), reached;
    }
    reached := 3;
    var step := Run(ext.init);
    if step.Err? {
      return Err(step.error), reached;
    }
    reached := 4;
    step := Run(ext.remoteAdd);
    if step.Err? {
      return Err(step.error), reached;
    }
    reached := 5;
    step := Run(ext.fetch);
    if step.Err? {
      return Err(step.error), reached;
    }
    reached := 6;
    step := Run(ext.reset);
    if step.Err? {
      return Err(step.error), reached;
    }
    disk.Populate(temp, ext.checkout);
    r := Ok(Unit);
  }

  /** The trust-gated setup script: ask for trust in "lunar-setup for <url>",
      and run the script with lune (`ran`) only when it is given. */
  method RunTrustedSetup(url: string, setupFile: Path, setup: Outcome, trustNew: bool,
                         store: TrustStore, console: Console)
    returns (r: Result<Unit>, ghost ran: bool)
    modifies store, console
    ensures var answer := SetupAnswer(url, trustNew, old(store.file), old(console.input), store.writable);
            && (ran <==> answer == Ok(true))
            && (r.Ok? <==> TrustedRunFailure(answer, setup).None?)
            && (r.Err? ==> TrustedRunFailure(answer, setup) ==
                             Some(Failure(if ran then RunSetup else PromptTrust, r.error)))
    ensures store.file == FileAfterPrompt(old(store.file), SetupSubject(url), trustNew, old(console.input),
                                          store.writable)
    ensures console.input == InputAfterPrompt(old(store.file), SetupSubject(url), trustNew, old(console.input))
    ensures ran ==> IsTrusted(store.file, SetupSubject(url))
    ensures TrustedNames(store.file) <= TrustedNames(old(store.file)) + {SetupSubject(url)}
    ensures TrustedNames(old(store.file)) <= TrustedNames(store.file)
  {
    ran := false;
    ghost var before := store.file;
    var trusted := store.PromptForTrust(SetupSubject(url), SetupQuery(url, setupFile), trustNew, console);
    if !before.Unreadable? {
      TrustInsertsAndKeeps(before, SetupSubject(url));
    }
    if trusted.Err? {
      return Err(trusted.error), ran;
    }
    if !trusted.value {
      return Err(NotTrustedError), ran;
    }
    ran := true;
    var step := Run(setup);
    if step.Err? {
      return Err(step.error), ran;
    }
    r := Ok(Unit);
  }

  /** Moving the finished clone into place. A lost race (the final directory
      appeared meanwhile, where the platform reports that as `AlreadyExists`)
      discards the clone, best effort, and still succeeds; any other rename
      failure is an error and changes nothing. */
  method PlaceClone(temp: Path, final: Path, rename: RenameOutcome, removable: bool, disk: Disk)
    returns (r: Result<Unit>)
    modifies disk
    ensures r.Ok? <==> !rename.RenameFailed?
    ensures r.Err? ==> r.error == RenameError(rename.reason)
    ensures disk.fs == Placed(old(disk.fs), temp, final, rename, removable)
  {
    match rename {
    case Renamed =>
      disk.MoveTree(temp, final);
    case AlreadyExists(winner) =>
      disk.Populate(final, Rooted(winner));
      if removable {
        // A failed removal is reported and ignored.
        disk.RemoveDirAll(temp);
      }
    case RenameFailed(reason) =>
      return Err(RenameError(reason));
    }
    r := Ok(Unit);
  }

  /** The setup step that follows a finished clone: when the clone carries a
      setup script, it is run once trusted. The disk is only read. `reached`
      counts the pipeline steps taken so far. */
  method SetupIfPresent(url: string, temp: Path, setup: Outcome, trustNew: bool,
                        disk: Disk, store: TrustStore, console: Console)
    returns (r: Result<Unit>, ghost reached: nat, ghost setupFound: bool)
    modifies store, console
    ensures setupFound <==> HasSetup(disk.fs, temp)
    ensures var f := SetupFailure(disk.fs, temp, SetupAnswer(url, trustNew, old(store.file),
                                                             old(console.input), store.writable), setup);
            && (r.Ok? <==> f.None?)
            && (r.Err? ==> f.Some? && f.value.error == r.error && EndedAt(f.value.step, setupFound, reached))
    ensures !setupFound ==> reached == 6
    ensures 2 <= reached <= if setupFound then 8 else 6
    ensures r.Ok? ==> reached == if setupFound then 8 else 6
    ensures Took(RunSetup, setupFound, reached) ==> IsTrusted(store.file, SetupSubject(url))
    // trust is only asked for when a setup script exists
    ensures !Took(PromptTrust, setupFound, reached) ==>
              store.file == old(store.file) && console.input == old(console.input)
    ensures TrustedNames(store.file) <= TrustedNames(old(store.file)) + {SetupSubject(url)}
    ensures TrustedNames(old(store.file)) <= TrustedNames(store.file)
  {
    var setupFile := Join(temp, SetupFileName);
    setupFound, reached := false, 6;
    if Exists(disk.fs, setupFile) {
      setupFound := true;
      var ran, didRun := RunTrustedSetup(url, setupFile, setup, trustNew, store, console);
      reached := if didRun then 8 else 7;
      SetupSteps(didRun, reached);
      if ran.Err? {
        return Err(ran.error), reached, setupFound;
      }
    } else {
      StepsBeforeSetup(reached);
    }
    r := Ok(Unit);
  }

  /** A found setup script is prompted for at step 6 and run at step 7. */
  lemma SetupSteps(ran: bool, reached: nat)
    requires reached == if ran then 8 else 7
    ensures EndedAt(if ran then RunSetup else PromptTrust, true, reached)
    ensures Took(PromptTrust, true, reached)
    ensures Took(RunSetup, true, reached) <==> ran
  {
  }

  /** Clone into the temporary directory and, when the clone carries a
      setup script, run it once it is trusted. */
  method CloneAndSetup(info: RepoConfig, ext: Externals, trustNew: bool, temp: Path,
                       disk: Disk, store: TrustStore, console: Console)
    returns (r: Result<Unit>, ghost reached: nat, ghost setupFound: bool)
    modifies disk, store, console
    ensures 2 <= reached <= if setupFound then 8 else 6
    ensures var f := PreparedFailure(old(disk.fs), temp, ext,
                                     SetupAnswer(info.url, trustNew, old(store.file), old(console.input),
                                                 store.writable));
            && (r.Ok? <==> f.None?)
            && (r.Ok? ==> reached == (if setupFound then 8 else 6)
                          && disk.fs == AfterClone(old(disk.fs), temp, ext.checkout))
            && (r.Err? ==> && f.Some? && f.value.error == r.error && EndedAt(f.value.step, setupFound, reached)
                           && disk.fs == Stopped(old(disk.fs), temp, ext.checkout, f.value.step))
    // once the clone finished, the setup script is looked for in it
    ensures r.Ok? || reached > 6 ==> (setupFound <==> HasSetup(AfterClone(old(disk.fs), temp, ext.checkout), temp))
    ensures Took(RunSetup, setupFound, reached) ==> IsTrusted(store.file, SetupSubject(info.url))
    // trust is only asked for the setup script, and only when one exists
    ensures !Took(PromptTrust, setupFound, reached) ==>
              store.file == old(store.file) && console.input == old(console.input)
    ensures TrustedNames(store.file) <= TrustedNames(old(store.file)) + {SetupSubject(info.url)}
    ensures TrustedNames(old(store.file)) <= TrustedNames(store.file)
  {
    ghost var start := disk.fs;
    ghost var answer := SetupAnswer(info.url, trustNew, store.file, console.input, store.writable);
    setupFound := false;
    var cloned;
    cloned, reached := Clone(temp, ext, disk);
    PreparedSteps(start, temp, ext, answer);
    if cloned.Err? {
      StepsBeforeSetup(reached);
      return Err(cloned.error), reached, setupFound;
    }
    r, reached, setupFound := SetupIfPresent(info.url, temp, ext.setup, trustNew, disk, store, console);
    if r.Err? {
      StoppedInSetup(start, temp, ext.checkout, SetupFailure(disk.fs, temp, answer, ext.setup).value.step);
    }
  }

  /** The part of `fetch_repo` after the final directory was found missing:
      clone, run a trusted setup script, and move the clone into place. */
  method FetchMissing(info: RepoConfig, ext: Externals, trustNew: bool, final: Path, temp: Path,
                      disk: Disk, store: TrustStore, console: Console)
    returns (r: Result<Path>, ghost reached: nat, ghost setupFound: bool)
    requires Sibling(temp, final)
    requires !Exists(disk.fs, final)
    modifies disk, store, console
    ensures 2 <= reached <= if setupFound then 10 else 8
    ensures var answer := SetupAnswer(info.url, trustNew, old(store.file), old(console.input), store.writable);
            var f := FetchFailure(old(disk.fs), temp, ext, answer);
            && r == (if f.None? then Ok(final) else Err(f.value.error))
            && (f.Some? ==> EndedAt(f.value.step, setupFound, reached))
            && disk.fs == FetchedDisk(old(disk.fs), temp, final, ext, answer)
    // the final directory appears exactly on success, and nothing outside
    // it and the temporary directory changes
    ensures r.Ok? <==> Exists(disk.fs, final)
    ensures OnlyBelow(old(disk.fs), disk.fs, final, temp)
    // what the final directory holds, and what is left of the temporary one
    ensures r.Ok? && ext.rename.Renamed? && Vacant(old(disk.fs), final) && Vacant(old(disk.fs), temp) ==>
              Subtree(disk.fs, final) == Rooted(ext.checkout) && Vacant(disk.fs, temp)
    ensures r.Ok? && ext.rename.AlreadyExists? && Vacant(old(disk.fs), final) ==>
              && Subtree(disk.fs, final) == Rooted(ext.rename.winner)
              && (Vacant(disk.fs, temp) <==> ext.removable)
    ensures reached > 6 ==> (setupFound <==> HasSetup(AfterClone(old(disk.fs), temp, ext.checkout), temp))
    ensures Took(RunSetup, setupFound, reached) ==> IsTrusted(store.file, SetupSubject(info.url))
    ensures Took(RemoveTemp, setupFound, reached) <==>
              Took(RenameTemp, setupFound, reached) && ext.rename.AlreadyExists?
    // trust is only asked for the setup script, and only when one exists
    ensures !Took(PromptTrust, setupFound, reached) ==>
              store.file == old(store.file) && console.input == old(console.input)
    ensures TrustedNames(store.file) <= TrustedNames(old(store.file)) + {SetupSubject(info.url)}
    ensures TrustedNames(old(store.file)) <= TrustedNames(store.file)
  {
    ghost var start := disk.fs;
    ghost var answer := SetupAnswer(info.url, trustNew, store.file, console.input, store.writable);
    var prepared;
    prepared, reached, setupFound := CloneAndSetup(info, ext, trustNew, temp, disk, store, console);
    FetchAfterPrepared(start, temp, final, ext, answer);
    FetchedOutcome(start, temp, final, ext, answer);
    if prepared.Err? {
      StepsBeforePlacing(setupFound, reached);
      return Err(prepared.error), reached, setupFound;
    }
    var placed := PlaceClone(temp, final, ext.rename, ext.removable, disk);
    ghost var before := reached;
    reached := reached + if ext.rename.AlreadyExists? then 2 else 1;
    StepsAfterPlacing(setupFound, ext.rename.AlreadyExists?, before, reached);
    if placed.Err? {
      return Err(placed.error), reached, setupFound;
    }
    r := Ok(final);
  }

  /** What a fetch of a missing commit leaves, gathered for the method. */
  lemma FetchedOutcome(fs: FileSystem, temp: Path, final: Path, ext: Externals, answer: Result<bool>)
    requires Sibling(temp, final) && !Exists(fs, final)
    ensures var fs' := FetchedDisk(fs, temp, final, ext, answer);
            var ok := FetchFailure(fs, temp, ext, answer).None?;
            && (ok <==> Exists(fs', final))
            && OnlyBelow(fs, fs', final, temp)
            && (ok && ext.rename.Renamed? && Vacant(fs, final) && Vacant(fs, temp) ==>
                  Subtree(fs', final) == Rooted(ext.checkout) && Vacant(fs', temp))
            && (ok && ext.rename.AlreadyExists? && Vacant(fs, final) ==>
                  Subtree(fs', final) == Rooted(ext.rename.winner) && (Vacant(fs', temp) <==> ext.removable))
  {
    FinalExistsIffFetched(fs, temp, final, ext, answer);
    FetchTouchesOnly(fs, temp, final, ext, answer);
    if FetchFailure(fs, temp, ext, answer).None? {
      match ext.rename
      case Renamed =>
        if Vacant(fs, final) && Vacant(fs, temp) {
          RenamedHoldsCheckout(fs, temp, final, ext.checkout, ext.removable);
        }
      case AlreadyExists(winner) =>
        if Vacant(fs, final) {
          LostRaceKeepsWinner(fs, temp, final, ext.checkout, winner, ext.removable);
        }
      case RenameFailed(_) =>
    }
  }

  /** The fetch's failure and disk in terms of the clone and setup's: their
      failure stops the fetch on the disk they left; otherwise the rename
      decides both. */
  lemma FetchAfterPrepared(fs: FileSystem, temp: Path, final: Path, ext: Externals, answer: Result<bool>)
    ensures var p := PreparedFailure(fs, temp, ext, answer);
            && (p.Some? ==> FetchFailure(fs, temp, ext, answer) == p
                            && FetchedDisk(fs, temp, final, ext, answer) == Stopped(fs, temp, ext.checkout, p.value.step))
            && (p.None? ==> && FetchFailure(fs, temp, ext, answer) ==
                                 (if ext.rename.RenameFailed? then Some(Failure(RenameTemp, RenameError(ext.rename.reason)))
                                  else None)
                            && FetchedDisk(fs, temp, final, ext, answer) ==
                                 Placed(AfterClone(fs, temp, ext.checkout), temp, final, ext.rename, ext.removable))
  {
    var p := PreparedFailure(fs, temp, ext, answer);
    var f := FetchFailure(fs, temp, ext, answer);
    if p.None? && ext.rename.RenameFailed? {
      assert f.value.step == RenameTemp;
      assert Stopped(fs, temp, ext.checkout, RenameTemp) == AfterClone(fs, temp, ext.checkout);
    }
  }

  /** A run stopped in the clone took no step of the setup. */
  lemma StepsBeforeSetup(reached: nat)
    requires reached <= 6
    ensures !Took(PromptTrust, false, reached) && !Took(RunSetup, false, reached)
  {
  }

  /** A run stopped before the rename took neither the rename nor the
      removal. */
  lemma StepsBeforePlacing(setup: bool, reached: nat)
    requires reached <= if setup then 8 else 6
    ensures reached <= |Pipeline(setup)|
    ensures !Took(RenameTemp, setup, reached) && !Took(RemoveTemp, setup, reached)
    ensures !EndedAt(RenameTemp, setup, reached)
  {
  }

  /** A run that reached the rename took the setup steps exactly when there
      was a setup script, and the removal only after a lost race. */
  lemma StepsAfterPlacing(setup: bool, lost: bool, before: nat, after: nat)
    requires before == if setup then 8 else 6
    requires after == before + if lost then 2 else 1
    ensures after <= |Pipeline(setup)|
    ensures (Took(RunSetup, setup, before) <==> setup) && (Took(RunSetup, setup, after) <==> setup)
    ensures (Took(PromptTrust, setup, before) <==> setup) && (Took(PromptTrust, setup, after) <==> setup)
    ensures !EndedAt(RunSetup, setup, after)
    ensures Took(RenameTemp, setup, after)
    ensures (Took(RemoveTemp, setup, after) <==> lost)
    ensures (EndedAt(RenameTemp, setup, after) <==> !lost)
  {
  }

  /** The result of `fetch_repo`, given what the setup prompt would answer:
      the hash resolution's error; the commit's cache directory when it
      exists already; otherwise that directory once every step of the fetch
      succeeds, or the error of the first step that fails. */
  function FetchOutcome(fs: FileSystem, cacheFile: CacheFile, info: RepoConfig, ext: Externals,
                        answer: Result<bool>): Result<Path>
  {
    var h := ResolveHash(cacheFile, info, ext.lsRemote);
    if h.Err? then Err(h.error)
    else
      var final := CacheDir(ext.root, info.url, ext.urlHash, h.value);
      if Exists(fs, final) then Ok(final)
      else
        var f := FetchFailure(fs, TempDir(ext.root, info.url, ext.urlHash, h.value, ext.token), ext, answer);
        if f.None? then Ok(final) else Err(f.value.error)
  }

  /** `fetch_repo` succeeds exactly when the commit resolves and its cache
      directory exists already or every step of the fetch succeeds, and then
      yields the commit's cache directory. */
  lemma FetchOutcomeIff(fs: FileSystem, cacheFile: CacheFile, info: RepoConfig, ext: Externals,
                        answer: Result<bool>)
    ensures var h := ResolveHash(cacheFile, info, ext.lsRemote);
            var o := FetchOutcome(fs, cacheFile, info, ext, answer);
            && (h.Err? ==> o == Err(h.error))
            && (h.Ok? ==>
                  var final := CacheDir(ext.root, info.url, ext.urlHash, h.value);
                  var temp := TempDir(ext.root, info.url, ext.urlHash, h.value, ext.token);
                  && (o.Ok? ==> o.value == final)
                  && (o.Ok? <==> || Exists(fs, final)
                                 || (&& TempCreatable(fs, temp) && GitSucceeds(ext)
                                     && SetupPasses(AfterClone(fs, temp, ext.checkout), temp, answer, ext.setup)
                                     && !ext.rename.RenameFailed?)))
  {
    var h := ResolveHash(cacheFile, info, ext.lsRemote);
    if h.Ok? {
      var final := CacheDir(ext.root, info.url, ext.urlHash, h.value);
      var temp := TempDir(ext.root, info.url, ext.urlHash, h.value, ext.token);
      var f := FetchFailure(fs, temp, ext, answer);
      assert FetchOutcome(fs, cacheFile, info, ext, answer) ==
               if Exists(fs, final) || f.None? then Ok(final) else Err(f.value.error);
      FetchSucceedsIff(fs, temp, ext, answer);
    }
  }

  /** `fetch_repo`: resolve the commit, and return its cache directory,
      cloning it first when it does not exist yet. `trace` is the steps
      taken, in order. */
  method FetchRepo(info: RepoConfig, ext: Externals, trustNew: bool,
                   disk: Disk, cache: HashCache, store: TrustStore, console: Console)
    returns (r: Result<Path>, ghost trace: seq<Step>, ghost setupFound: bool)
    modifies disk, cache, store, console
    ensures cache.file == CacheAfterResolve(old(cache.file), info, ext.lsRemote, cache.writable)
    ensures var answer := SetupAnswer(info.url, trustNew, old(store.file), old(console.input), store.writable);
            r == FetchOutcome(old(disk.fs), old(cache.file), info, ext, answer)
    ensures IsPrefix(trace, Pipeline(setupFound)) && |trace| >= 1
    ensures var h := ResolveHash(old(cache.file), info, ext.lsRemote);
      && (h.Err? ==> trace == [ResolveHashStep] && disk.fs == old(disk.fs))
      && (h.Ok? ==>
        var final := CacheDir(ext.root, info.url, ext.urlHash, h.value);
        var temp := TempDir(ext.root, info.url, ext.urlHash, h.value, ext.token);
        && (Exists(old(disk.fs), final) ==> trace == [ResolveHashStep] && disk.fs == old(disk.fs))
        && (!Exists(old(disk.fs), final) ==>
              disk.fs == FetchedDisk(old(disk.fs), temp, final, ext,
                                     SetupAnswer(info.url, trustNew, old(store.file), old(console.input),
                                                 store.writable)))
        // only the final and the temporary directories change
        && OnlyBelow(old(disk.fs), disk.fs, final, temp))
    ensures r.Ok? ==> Exists(disk.fs, r.value)
    ensures RunSetup in trace ==> IsTrusted(store.file, SetupSubject(info.url))
    ensures PromptTrust !in trace ==> store.file == old(store.file) && console.input == old(console.input)
    ensures TrustedNames(store.file) <= TrustedNames(old(store.file)) + {SetupSubject(info.url)}
    ensures TrustedNames(old(store.file)) <= TrustedNames(store.file)
  {
    trace, setupFound := [ResolveHashStep], false;
    assert trace == Pipeline(setupFound)[..1];
    var hash := cache.FetchRepoHash(info, ext.lsRemote);
    if hash.Err? {
      return Err(hash.error), trace, setupFound;
    }
    var final := CacheDir(ext.root, info.url, ext.urlHash, hash.value);
    if Exists(disk.fs, final) {
      return Ok(final), trace, setupFound;
    }
    var temp := TempDir(ext.root, info.url, ext.urlHash, hash.value, ext.token);
    TempBesideFinal(ext.root, info.url, ext.urlHash, hash.value, ext.token);
    ghost var reached;
    r, reached, setupFound := FetchMissing(info, ext, trustNew, final, temp, disk, store, console);
    trace := Pipeline(setupFound)[..reached];
    TookIsInTrace(PromptTrust, setupFound, reached);
    TookIsInTrace(RunSetup, setupFound, reached);
  }
}
