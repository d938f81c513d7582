/** The task config resolver (task_config.rs): the walk over the
    conventional script directories, the selectors that pick tasks out of a
    directory, and the standalone configs that name a script, a repository
    or a directory. All three fill one name-to-path table in place and call
    each other; the program has no guard against a config that leads back to
    itself, so the model bounds the nesting with `fuel`. */
module TaskConfig {
  import opened Outcomes
  import opened Text
  import opened Fs
  import opened ConfigRecords
  import opened RepoHash
  import opened Security
  import opened Download
  import opened Tables

  type TaskTable = Table<Path>

  // ----- directory entries -----

  /** The index of the last "." of a file name. */
  function LastDot(name: string): (r: Option<nat>)
    ensures r.Some? ==> r.value < |name| && name[r.value] == '.'
    ensures r.Some? ==> forall k :: r.value < k < |name| ==> name[k] != '.'
    ensures r.None? ==> forall k :: 0 <= k < |name| ==> name[k] != '.'
  {
    if name == [] then None
    else if name[|name| - 1] == '.' then Some(|name| - 1)
    else LastDot(name[..|name| - 1])
  }

  /** `Path::extension` of a file name: the text after the last ".", unless
      that dot starts the name (a hidden file) or the name is "..". */
  function Extension(name: string): Option<string> {
    match LastDot(name)
    case None => None
    case Some(i) => if i == 0 || name == ".." then None else Some(name[i + 1..])
  }

  /** `Path::file_stem`: the name without its extension. */
  function FileStem(name: string): string {
    match LastDot(name)
    case None => name
    case Some(i) => if i == 0 || name == ".." then name else name[..i]
  }

  /** What the directory walk does with an entry. */
  datatype EntryKind = Script(stem: string) | Config(fallback: string) | Other

  /** A `.lua` or `.luau` entry is a script registered under its stem; an
      entry whose name ends in `.lunar.toml` is a config whose tasks default
      to the name with every trailing `.lunar.toml` removed. */
  function Classify(name: string): EntryKind {
    var ext := Extension(name);
    if ext == Some("lua") || ext == Some("luau") then Script(FileStem(name))
    else if EndsWith(name, ConfigSuffix) then Config(TrimEndMatches(name, ConfigSuffix))
    else Other
  }

  /** The extension and stem of a name with a non-empty stem and a
      non-empty, dot-free extension. */
  lemma SplitAtLastDot(stem: string, ext: string)
    requires stem != [] && ext != [] && forall k :: 0 <= k < |ext| ==> ext[k] != '.'
    ensures Extension(stem + "." + ext) == Some(ext)
    ensures FileStem(stem + "." + ext) == stem
  {
    var name := stem + "." + ext;
    assert name[|stem|] == '.';
    var i := LastDot(name).value;
    assert i == |stem|;
    assert |name| >= 3;
    assert name[..i] == stem;
    assert name[i + 1..] == ext;
  }

  /** Scripts are exactly the names "<stem>.lua" and "<stem>.luau" with a
      non-empty stem; a name like ".lua" is not one. */
  lemma ClassifyScriptIff(name: string, stem: string)
    ensures Classify(name) == Script(stem) <==>
              stem != [] && (name == stem + ".lua" || name == stem + ".luau")
  {
    if stem != [] && (name == stem + ".lua" || name == stem + ".luau") {
      ScriptNameIsScript(stem, name);
    }
    if Classify(name) == Script(stem) {
      ScriptIsScriptName(name);
    }
  }

  lemma ScriptNameIsScript(stem: string, name: string)
    requires stem != [] && (name == stem + ".lua" || name == stem + ".luau")
    ensures Classify(name) == Script(stem)
  {
    if name == stem + ".lua" {
      assert name == stem + "." + "lua";
      SplitAtLastDot(stem, "lua");
    } else {
      assert name == stem + "." + "luau";
      SplitAtLastDot(stem, "luau");
    }
  }

  lemma ScriptIsScriptName(name: string)
    requires Classify(name).Script?
    ensures var stem := Classify(name).stem;
            stem != [] && (name == stem + ".lua" || name == stem + ".luau")
  {
    var stem := Classify(name).stem;
    var i := LastDot(name).value;
    var ext := name[i + 1..];
    assert i != 0 && name != ".." && name[..i] == stem;
    assert name == stem + "." + ext;
    assert ext == "lua" || ext == "luau";
    assert stem + "." + "lua" == stem + ".lua";
    assert stem + "." + "luau" == stem + ".luau";
  }

  /** Every name ending in `.lunar.toml` is a config (its extension is
      "toml"), with the trimmed name as fallback; no other name is. */
  lemma ClassifyConfigIff(name: string)
    ensures Classify(name).Config? <==> EndsWith(name, ConfigSuffix)
    ensures Classify(name).Config? ==> Classify(name).fallback == TrimEndMatches(name, ConfigSuffix)
  {
    if EndsWith(name, ConfigSuffix) {
      var stem := name[..|name| - 5];
      assert name == stem + "." + "toml";
      assert stem[|stem| - 6..] == ".lunar";
      assert stem != [];
      SplitAtLastDot(stem, "toml");
    }
  }

  /** The fallback name drops every trailing `.lunar.toml`, so a config named
      "a.lunar.toml.lunar.toml" registers "a". */
  lemma ConfigFallbackExample()
    ensures Classify("a.lunar.toml.lunar.toml") == Config("a")
  {
    var once := "a" + ConfigSuffix;
    assert once + ConfigSuffix == "a.lunar.toml.lunar.toml";
    ClassifyConfigIff(once + ConfigSuffix);
    TrimOneSuffix(once, ConfigSuffix);
    TrimOneSuffix("a", ConfigSuffix);
    assert !EndsWith("a", ConfigSuffix);
  }

  /** Trimming a suffix off a name that ends in it trims it off the rest. */
  lemma TrimOneSuffix(x: string, suffix: string)
    requires suffix != []
    ensures TrimEndMatches(x + suffix, suffix) == TrimEndMatches(x, suffix)
  {
    assert (x + suffix)[|x|..] == suffix;
    assert (x + suffix)[..|x|] == x;
  }

  // ----- what the directory walk reads -----

  /** One directory entry: its file name and its path. */
  datatype DirEntry = DirEntry(name: string, path: Path)

  /** The entries of a directory, in listing order. */
  function EntriesOf(fs: FileSystem, p: Path): (es: seq<DirEntry>)
    requires p in fs.nodes && fs.nodes[p].Dir?
    ensures |es| == |fs.nodes[p].entries|
    ensures forall k :: 0 <= k < |es| ==>
              es[k] == DirEntry(fs.nodes[p].entries[k], Join(p, fs.nodes[p].entries[k]))
  {
    var names := fs.nodes[p].entries;
    seq(|names|, k requires 0 <= k < |names| => DirEntry(names[k], Join(p, names[k])))
  }

  /** Entries read before a listing that may have failed. */
  function Prepend(front: seq<DirEntry>, rest: Result<seq<DirEntry>>): Result<seq<DirEntry>> {
    if rest.Ok? then Ok(front + rest.value) else rest
  }

  lemma PrependPrepend(a: seq<DirEntry>, b: seq<DirEntry>, rest: Result<seq<DirEntry>>)
    ensures Prepend(a, Prepend(b, rest)) == Prepend(a + b, rest)
  {
    if rest.Ok? {
      assert a + (b + rest.value) == (a + b) + rest.value;
    }
  }

  /** The entries of the script directories `ScriptDirs[from..]` of
      `directory`, in order, skipping those that do not exist; the first
      one that exists and cannot be listed is an error. */
  function Listing(fs: FileSystem, directory: Path, from: nat): Result<seq<DirEntry>>
    requires from <= |ScriptDirs|
    decreases |ScriptDirs| - from
  {
    if from == |ScriptDirs| then Ok([])
    else
      var p := Join(directory, ScriptDirs[from]);
      if !Exists(fs, p) then Listing(fs, directory, from + 1)
      else match ReadDir(fs, p)
        case Err(e) => Err(e)
        case Ok(_) => Prepend(EntriesOf(fs, p), Listing(fs, directory, from + 1))
  }

  /** No script directory of `directory` holds a config file. */
  ghost predicate ConfigFree(fs: FileSystem, directory: Path) {
    forall i :: 0 <= i < |ScriptDirs| ==> DirConfigFree(fs, Join(directory, ScriptDirs[i]))
  }

  ghost predicate DirConfigFree(fs: FileSystem, p: Path) {
    p in fs.nodes && fs.nodes[p].Dir? ==>
      forall k :: 0 <= k < |fs.nodes[p].entries| ==> !Classify(fs.nodes[p].entries[k]).Config?
  }

  /** The registrations a run of entries makes without configs: each script
      under its stem, in order. */
  function ScriptInserts(es: seq<DirEntry>): seq<Entry<Path>>
    decreases |es|
  {
    if es == [] then []
    else
      var last := es[|es| - 1];
      ScriptInserts(es[..|es| - 1])
      + match Classify(last.name)
        case Script(stem) => [Entry(stem, last.path)]
        case _ => []
  }

  /** Entries that are neither scripts nor configs register nothing: only
      scripts contribute, each under its stem with its own path. */
  lemma {:induction false} ScriptInsertsFromScripts(es: seq<DirEntry>)
    ensures forall e :: e in ScriptInserts(es) ==>
              exists k :: 0 <= k < |es| && Classify(es[k].name) == Script(e.key) && es[k].path == e.value
    decreases |es|
  {
    if es != [] {
      var es' := es[..|es| - 1];
      ScriptInsertsFromScripts(es');
      forall e | e in ScriptInserts(es)
        ensures exists k :: 0 <= k < |es| && Classify(es[k].name) == Script(e.key) && es[k].path == e.value
      {
        if e in ScriptInserts(es') {
          var k :| 0 <= k < |es'| && Classify(es'[k].name) == Script(e.key) && es'[k].path == e.value;
          assert es[k] == es'[k];
        } else {
          assert Classify(es[|es| - 1].name) == Script(e.key) && es[|es| - 1].path == e.value;
        }
      }
    }
  }

  /** Last write wins: a script entry that no later script entry shares a
      stem with is what its stem ends up naming. */
  lemma {:induction false} LaterScriptWins(m: map<string, Path>, es: seq<DirEntry>, k: nat, stem: string)
    requires k < |es| && Classify(es[k].name) == Script(stem)
    requires forall j :: k < j < |es| ==> Classify(es[j].name) != Script(stem)
    ensures stem in InsertAll(m, ScriptInserts(es)) && InsertAll(m, ScriptInserts(es))[stem] == es[k].path
    decreases |es|
  {
    var es' := es[..|es| - 1];
    if k == |es| - 1 {
    } else {
      LaterScriptWins(m, es', k, stem);
      assert Classify(es[|es| - 1].name) != Script(stem);
      var tail := match Classify(es[|es| - 1].name)
        case Script(s) => [Entry(s, es[|es| - 1].path)]
        case _ => [];
      assert ScriptInserts(es) == ScriptInserts(es') + tail;
      InsertAllAppend(m, ScriptInserts(es'), tail);
    }
  }

  // ----- the single-script selector -----

  /** The suffixes tried after each directory name: the literal script name,
      then `.luau`, then `.lua`. */
  const ProbeSuffixes: seq<string> := ["", ".luau", ".lua"]

  /** `directory.join(dir)`: Rust compares paths by component and drops an
      inner `.` component, so joining "." is the directory itself. */
  function SingleDirPath(directory: Path, dir: string): Path {
    if dir == "." then directory else Join(directory, dir)
  }

  /** The candidates of the first `d` single-script directories. */
  function Candidates(directory: Path, script: string, d: nat): (c: seq<Path>)
    requires d <= |ScriptSingleDirs|
    ensures |c| == 3 * d
  {
    if d == 0 then []
    else
      var p := SingleDirPath(directory, ScriptSingleDirs[d - 1]);
      Candidates(directory, script, d - 1)
      + [Join(p, script + ProbeSuffixes[0]), Join(p, script + ProbeSuffixes[1]), Join(p, script + ProbeSuffixes[2])]
  }

  /** The probe order: directory-major over `lune`, `.lune`, `lunar`,
      `.lunar` and the directory itself; within each, the literal name,
      then `.luau`, then `.lua`. */
  function ProbeCandidates(directory: Path, script: string): seq<Path> {
    Candidates(directory, script, |ScriptSingleDirs|)
  }

  /** Candidate `3 * j + k` is suffix `k` in directory `j`. */
  lemma {:induction false} CandidatesOrder(directory: Path, script: string, d: nat, j: nat, k: nat)
    requires d <= |ScriptSingleDirs| && j < d && k < 3
    ensures Candidates(directory, script, d)[3 * j + k]
            == Join(SingleDirPath(directory, ScriptSingleDirs[j]), script + ProbeSuffixes[k])
  {
    if j < d - 1 {
      CandidatesOrder(directory, script, d - 1, j, k);
      CandidatesExtend(directory, script, d, 3 * j + k);
    } else {
      CandidatesLast(directory, script, d, k);
    }
  }

  /** Adding a directory keeps the earlier candidates in place. */
  lemma CandidatesExtend(directory: Path, script: string, d: nat, i: nat)
    requires 0 < d <= |ScriptSingleDirs| && i < 3 * (d - 1)
    ensures Candidates(directory, script, d)[i] == Candidates(directory, script, d - 1)[i]
  {
  }

  /** The last three candidates are the suffixes in the last directory. */
  lemma CandidatesLast(directory: Path, script: string, d: nat, k: nat)
    requires 0 < d <= |ScriptSingleDirs| && k < 3
    ensures Candidates(directory, script, d)[3 * (d - 1) + k]
            == Join(SingleDirPath(directory, ScriptSingleDirs[d - 1]), script + ProbeSuffixes[k])
  {
    var p := SingleDirPath(directory, ScriptSingleDirs[d - 1]);
    var last := [Join(p, script + ProbeSuffixes[0]), Join(p, script + ProbeSuffixes[1]), Join(p, script + ProbeSuffixes[2])];
    assert Candidates(directory, script, d) == Candidates(directory, script, d - 1) + last;
    assert Candidates(directory, script, d)[3 * (d - 1) + k] == last[k];
    if k == 0 {
      assert last[k] == Join(p, script + ProbeSuffixes[0]);
    } else if k == 1 {
      assert last[k] == Join(p, script + ProbeSuffixes[1]);
    } else {
      assert last[k] == Join(p, script + ProbeSuffixes[2]);
    }
  }

  /** The first candidate probed is the literal script name under `lune`,
      and the last is `<script>.lua` in the directory itself. */
  lemma ProbeEnds(directory: Path, script: string)
    ensures ProbeCandidates(directory, script)[0] == Join(Join(directory, "lune"), script)
    ensures ProbeCandidates(directory, script)[14] == Join(directory, script + ".lua")
  {
    CandidatesOrder(directory, script, 5, 0, 0);
    CandidatesOrder(directory, script, 5, 4, 2);
    assert script + ProbeSuffixes[0] == script;
  }

  /** The first candidate that exists. */
  function FirstExisting(fs: FileSystem, c: seq<Path>): (r: Option<Path>)
    ensures r.Some? ==> Exists(fs, r.value)
  {
    if c == [] then None
    else if Exists(fs, c[0]) then Some(c[0])
    else FirstExisting(fs, c[1..])
  }

  /** The probe finds nothing exactly when no candidate exists, and
      otherwise finds the candidate of the least index that exists. */
  lemma {:induction false} FirstExistingIsFirst(fs: FileSystem, c: seq<Path>)
    ensures FirstExisting(fs, c).None? <==> forall i :: 0 <= i < |c| ==> !Exists(fs, c[i])
    ensures FirstExisting(fs, c).Some? ==>
              exists i :: 0 <= i < |c| && c[i] == FirstExisting(fs, c).value
                          && forall j :: 0 <= j < i ==> !Exists(fs, c[j])
  {
    if c != [] && !Exists(fs, c[0]) {
      var r := FirstExisting(fs, c[1..]);
      FirstExistingIsFirst(fs, c[1..]);
      if r.Some? {
        var i :| 0 <= i < |c[1..]| && c[1..][i] == r.value
                 && forall j :: 0 <= j < i ==> !Exists(fs, c[1..][j]);
        assert c[i + 1] == r.value;
        forall j | 0 <= j < i + 1 ensures !Exists(fs, c[j]) {
          if j > 0 { assert c[j] == c[1..][j - 1]; }
        }
      } else {
        forall i | 0 <= i < |c| ensures !Exists(fs, c[i]) {
          if i > 0 { assert c[i] == c[1..][i - 1]; }
        }
      }
    } else if c != [] {
      assert c[0] == FirstExisting(fs, c).value;
    }
  }

  /** Probing two runs one after the other: the second is reached only when
      nothing in the first exists. */
  lemma {:induction false} FirstExistingAppend(fs: FileSystem, a: seq<Path>, b: seq<Path>)
    ensures FirstExisting(fs, a + b) ==
            if FirstExisting(fs, a).Some? then FirstExisting(fs, a) else FirstExisting(fs, b)
  {
    if a == [] {
      assert a + b == b;
    } else {
      assert (a + b)[0] == a[0] && (a + b)[1..] == a[1..] + b;
      FirstExistingAppend(fs, a[1..], b);
    }
  }

  /** Once the candidates of the first `d` directories hold a hit, the later
      directories are not looked at. */
  lemma {:induction false} FirstHitStays(fs: FileSystem, directory: Path, script: string, d: nat, d': nat)
    requires d <= d' <= |ScriptSingleDirs|
    requires FirstExisting(fs, Candidates(directory, script, d)).Some?
    ensures FirstExisting(fs, Candidates(directory, script, d')) == FirstExisting(fs, Candidates(directory, script, d))
    decreases d' - d
  {
    if d < d' {
      FirstHitStays(fs, directory, script, d, d' - 1);
      var p := SingleDirPath(directory, ScriptSingleDirs[d' - 1]);
      FirstExistingAppend(fs, Candidates(directory, script, d' - 1),
        [Join(p, script + ProbeSuffixes[0]), Join(p, script + ProbeSuffixes[1]), Join(p, script + ProbeSuffixes[2])]);
    }
  }

  /** Within one directory: the literal name, then `.luau`, then `.lua`. */
  lemma ProbeThree(fs: FileSystem, dir: Path, script: string)
    ensures FirstExisting(fs, [Join(dir, script + ProbeSuffixes[0]), Join(dir, script + ProbeSuffixes[1]),
                               Join(dir, script + ProbeSuffixes[2])])
            == if Exists(fs, Join(dir, script)) then Some(Join(dir, script))
               else if Exists(fs, Join(dir, script + ".luau")) then Some(Join(dir, script + ".luau"))
               else if Exists(fs, Join(dir, script + ".lua")) then Some(Join(dir, script + ".lua"))
               else None
  {
    var three := [Join(dir, script + ProbeSuffixes[0]), Join(dir, script + ProbeSuffixes[1]),
                  Join(dir, script + ProbeSuffixes[2])];
    assert script + ProbeSuffixes[0] == script;
    assert three[0] == Join(dir, script);
    assert three[1] == Join(dir, script + ".luau");
    assert three[2] == Join(dir, script + ".lua");
    assert three[1..] == [three[1], three[2]] && three[1..][1..] == [three[2]];
    if !Exists(fs, three[0]) && !Exists(fs, three[1]) {
      if !Exists(fs, three[2]) {
        assert FirstExisting(fs, three[1..][1..][1..]) == None;
      }
      assert FirstExisting(fs, three[1..][1..]) == FirstExisting(fs, three);
    }
  }

  /** The probe loop of `get_selector_tasks`: for each directory, the literal
      name, then `.luau`, then `.lua`, stopping at the first that exists. */
  method ProbeScript(directory: Path, script: string, fs: FileSystem) returns (found: Option<Path>)
    ensures found == FirstExisting(fs, ProbeCandidates(directory, script))
  {
    found := None;
    var d := 0;
    while d < |ScriptSingleDirs|
      invariant 0 <= d <= |ScriptSingleDirs|
      invariant found.None? && FirstExisting(fs, Candidates(directory, script, d)).None?
    {
      var dir := SingleDirPath(directory, ScriptSingleDirs[d]);
      ghost var three := [Join(dir, script + ProbeSuffixes[0]), Join(dir, script + ProbeSuffixes[1]),
                          Join(dir, script + ProbeSuffixes[2])];
      assert Candidates(directory, script, d + 1) == Candidates(directory, script, d) + three;
      FirstExistingAppend(fs, Candidates(directory, script, d), three);
      ProbeThree(fs, dir, script);
      if Exists(fs, Join(dir, script)) {
        found := Some(Join(dir, script));
      } else if Exists(fs, Join(dir, script + ".luau")) {
        found := Some(Join(dir, script + ".luau"));
      } else if Exists(fs, Join(dir, script + ".lua")) {
        found := Some(Join(dir, script + ".lua"));
      }
      assert FirstExisting(fs, Candidates(directory, script, d + 1)) == found;
      if found.Some? {
        FirstHitStays(fs, directory, script, d + 1, |ScriptSingleDirs|);
        break;
      }
      d := d + 1;
    }
  }

  // ----- the filter/prefix selector -----

  /** `selector.tasks`, when present, keeps only the names it lists. */
  predicate Passes(selector: ScriptSelector, name: string) {
    selector.tasks.None? || name in selector.tasks.value
  }

  /** The registered name: `prefix + name`, or the bare name. */
  function Rename(selector: ScriptSelector, name: string): string {
    match selector.prefix
    case None => name
    case Some(prefix) => prefix + name
  }

  lemma RenameInjective(selector: ScriptSelector, a: string, b: string)
    requires Rename(selector, a) == Rename(selector, b)
    ensures a == b
  {
    if selector.prefix.Some? {
      var p := selector.prefix.value;
      assert (p + a)[|p|..] == a && (p + b)[|p|..] == b;
    }
  }

  /** Different names stay different under renaming. */
  lemma RenameIsInjective(selector: ScriptSelector)
    ensures forall a, b :: Rename(selector, a) == Rename(selector, b) ==> a == b
  {
    forall a, b | Rename(selector, a) == Rename(selector, b) ensures a == b {
      RenameInjective(selector, a, b);
    }
  }

  /** What a filter/prefix selector adds: every discovered task the filter
      keeps, under its renamed name. */
  function Selected(subtasks: map<string, Path>, selector: ScriptSelector): map<string, Path> {
    RenameIsInjective(selector);
    map n | n in subtasks && Passes(selector, n) :: Rename(selector, n) := subtasks[n]
  }

  /** The selector adds exactly `{prefix + n ↦ p | (n ↦ p) in subtasks, n
      kept by the filter}`: the renamed names of kept tasks, each with its
      own path, and nothing else. Renaming is injective, so the result does
      not depend on the order the discovered tasks are visited in. */
  lemma SelectedIff(subtasks: map<string, Path>, selector: ScriptSelector)
    ensures forall n :: n in subtasks && Passes(selector, n) ==>
              Rename(selector, n) in Selected(subtasks, selector)
              && Selected(subtasks, selector)[Rename(selector, n)] == subtasks[n]
    ensures forall k :: k in Selected(subtasks, selector) ==>
              exists n :: n in subtasks && Passes(selector, n) && Rename(selector, n) == k
  {
    RenameIsInjective(selector);
  }

  /** The worked case: tasks {x, y} with `tasks = ["x"]` and `prefix = "ns-"`
      give exactly {"ns-x"}. */
  lemma SelectedExample(px: Path, py: Path)
    ensures Selected(map["x" := px, "y" := py], ScriptSelector(None, Some(["x"]), Some("ns-")))
            == map["ns-x" := px]
  {
    var subtasks := map["x" := px, "y" := py];
    var selector := ScriptSelector(None, Some(["x"]), Some("ns-"));
    SelectedIff(subtasks, selector);
    var r := Selected(subtasks, selector);
    assert Passes(selector, "x") && Rename(selector, "x") == "ns-x";
    assert !Passes(selector, "y") by { assert "y" != "x"; }
    forall k | k in r ensures k == "ns-x" {
      var n :| n in subtasks && Passes(selector, n) && Rename(selector, n) == k;
    }
  }

  /** `subtasks` restricted to the names in `done`. */
  function Restrict(subtasks: map<string, Path>, done: set<string>): map<string, Path> {
    map n | n in subtasks && n in done :: subtasks[n]
  }

  /** A task not yet seen adds its renamed entry, if kept. */
  lemma SelectedInsert(m: map<string, Path>, selector: ScriptSelector, n: string, v: Path)
    requires n !in m
    ensures Selected(m[n := v], selector) ==
            if Passes(selector, n) then Selected(m, selector)[Rename(selector, n) := v]
            else Selected(m, selector)
  {
    var lhs, sel := Selected(m[n := v], selector), Selected(m, selector);
    var rhs := if Passes(selector, n) then sel[Rename(selector, n) := v] else sel;
    forall k | k in lhs ensures k in rhs && lhs[k] == rhs[k] {
      SelectedInsertKey(m, selector, n, v, k);
    }
    forall k | k in rhs ensures k in lhs {
      SelectedInsertKeeps(m, selector, n, v, k);
    }
  }

  /** A key selected after the insertion was selected before, or is the
      new task's renamed name. */
  lemma SelectedInsertKey(m: map<string, Path>, selector: ScriptSelector, n: string, v: Path, k: string)
    requires n !in m && k in Selected(m[n := v], selector)
    ensures var sel := Selected(m, selector);
            var rhs := if Passes(selector, n) then sel[Rename(selector, n) := v] else sel;
            k in rhs && Selected(m[n := v], selector)[k] == rhs[k]
  {
    SelectedIff(m[n := v], selector);
    var x :| x in m[n := v] && Passes(selector, x) && Rename(selector, x) == k;
    SelectedIff(m, selector);
    if x != n {
      RenameInjectiveAt(selector, x, n);
    }
  }

  /** A key selected before the insertion, or the new task's renamed name
      when it is kept, is selected after it. */
  lemma SelectedInsertKeeps(m: map<string, Path>, selector: ScriptSelector, n: string, v: Path, k: string)
    requires n !in m
    requires k in (if Passes(selector, n) then Selected(m, selector)[Rename(selector, n) := v] else Selected(m, selector))
    ensures k in Selected(m[n := v], selector)
  {
    SelectedIff(m[n := v], selector);
    if !(Passes(selector, n) && k == Rename(selector, n)) {
      SelectedIff(m, selector);
      var x :| x in m && Passes(selector, x) && Rename(selector, x) == k;
      assert x in m[n := v];
    }
  }

  /** Different names keep different renamed names. */
  lemma RenameInjectiveAt(selector: ScriptSelector, a: string, b: string)
    requires a != b
    ensures Rename(selector, a) != Rename(selector, b)
  {
    if Rename(selector, a) == Rename(selector, b) {
      RenameInjective(selector, a, b);
    }
  }

  /** Visiting one more discovered task adds its renamed entry, if kept. */
  lemma SelectedStep(subtasks: map<string, Path>, selector: ScriptSelector, done: set<string>, n: string)
    requires n in subtasks && n !in done
    ensures Selected(Restrict(subtasks, done + {n}), selector) ==
            if Passes(selector, n)
            then Selected(Restrict(subtasks, done), selector)[Rename(selector, n) := subtasks[n]]
            else Selected(Restrict(subtasks, done), selector)
  {
    assert Restrict(subtasks, done + {n}) == Restrict(subtasks, done)[n := subtasks[n]];
    SelectedInsert(Restrict(subtasks, done), selector, n, subtasks[n]);
  }

  /** Inserting into a merge inserts into its right-hand side. */
  lemma MergeThenInsert(a: map<string, Path>, b: map<string, Path>, k: string, v: Path)
    ensures (a + b)[k := v] == a + b[k := v]
  {
  }

  /** The merge loop of `get_selector_tasks`: each discovered task the
      filter keeps is inserted under its renamed name, in the table's own
      unspecified order. */
  method MergeSelected(tasks: TaskTable, subtasks: map<string, Path>, selector: ScriptSelector)
    modifies tasks
    ensures tasks.entries == old(tasks.entries) + Selected(subtasks, selector)
  {
    var remaining := subtasks.Keys;
    ghost var done: set<string> := {};
    assert Restrict(subtasks, done) == map[];
    assert Selected(map[], selector) == map[];
    assert old(tasks.entries) + map[] == old(tasks.entries);
    while remaining != {}
      invariant remaining <= subtasks.Keys && done == subtasks.Keys - remaining
      invariant tasks.entries == old(tasks.entries) + Selected(Restrict(subtasks, done), selector)
      decreases remaining
    {
      var name :| name in remaining;
      SelectedStep(subtasks, selector, done, name);
      if Passes(selector, name) {
        MergeThenInsert(old(tasks.entries), Selected(Restrict(subtasks, done), selector),
                        Rename(selector, name), subtasks[name]);
        tasks.Insert(Rename(selector, name), subtasks[name]);
      }
      remaining := remaining - {name};
      done := done + {name};
    }
    assert Restrict(subtasks, done) == subtasks;
  }

  // ----- the recursive resolution -----

  /** The error the model gives when configs nest deeper than its fuel. */
  const DepthExceeded := "Task configs nest deeper than the resolution depth"

  /** Everything resolution reads and changes besides the task table: the
      disk, the hash cache, the trust store and the console, and, as
      inputs, the TOML decoder of config files, the outcomes fetching each
      repository meets, and the trust-new flag. */
  class Env {
    const disk: Disk
    const cache: HashCache
    const store: TrustStore
    const console: Console
    const decode: string -> Result<StandaloneTaskConfig>
    const fetchExternals: RepoConfig -> Externals
    const trustNew: bool

    constructor (disk: Disk, cache: HashCache, store: TrustStore, console: Console,
                 decode: string -> Result<StandaloneTaskConfig>,
                 fetchExternals: RepoConfig -> Externals, trustNew: bool)
      ensures this.disk == disk && this.cache == cache && this.store == store && this.console == console
      ensures this.decode == decode && this.fetchExternals == fetchExternals && this.trustNew == trustNew
    {
      this.disk := disk;
      this.cache := cache;
      this.store := store;
      this.console := console;
      this.decode := decode;
      this.fetchExternals := fetchExternals;
      this.trustNew := trustNew;
    }
  }

  /** `toml::from_str(&read_to_string(path)?)?`. */
  function LoadConfig(fs: FileSystem, path: Path, decode: string -> Result<StandaloneTaskConfig>)
    : Result<StandaloneTaskConfig>
  {
    match ReadFile(fs, path)
    case Err(e) => Err(e)
    case Ok(contents) => decode(contents)
  }

  /** One entry of the directory walk: a script is registered under its
      stem; a config is read, decoded and resolved under its fallback name,
      and failing to read or decode it is an error; anything else is
      skipped. */
  method AddEntry(entry: DirEntry, fuel: nat, tasks: TaskTable, env: Env) returns (r: Result<Unit>)
    modifies tasks, env.disk, env.cache, env.store, env.console
    ensures old(tasks.entries).Keys <= tasks.entries.Keys
    ensures !Classify(entry.name).Config? ==>
              r.Ok? && unchanged(env.disk, env.cache, env.store, env.console)
    ensures Classify(entry.name).Script? ==>
              tasks.entries == old(tasks.entries)[Classify(entry.name).stem := entry.path]
    ensures Classify(entry.name).Other? ==> tasks.entries == old(tasks.entries)
    ensures Classify(entry.name).Config? && (fuel == 0 || LoadConfig(old(env.disk.fs), entry.path, env.decode).Err?) ==>
              r.Err? && tasks.entries == old(tasks.entries)
              && unchanged(env.disk, env.cache, env.store, env.console)
    // a config naming only a script overwrites whatever its name held
    ensures Classify(entry.name).Config? && fuel > 0 ==>
              var config := LoadConfig(old(env.disk.fs), entry.path, env.decode);
              config.Ok? && config.value.script.Some? && config.value.repo.None? && config.value.directory.None? ==>
                r.Ok? && tasks.entries == old(tasks.entries)[EffectiveName(config.value, Classify(entry.name).fallback)
                                                             := config.value.script.value]
    decreases fuel, 0
  {
    match Classify(entry.name)
    case Script(stem) =>
      tasks.Insert(stem, entry.path);
      r := Ok(Unit);
    case Other =>
      r := Ok(Unit);
    case Config(fallback) =>
      if fuel == 0 {
        return Err(Fail(DepthExceeded));
      }
      var config := LoadConfig(env.disk.fs, entry.path, env.decode);
      if config.Err? {
        return Err(config.error);
      }
      r := GetStandaloneConfigTasks(config.value, fallback, fuel - 1, tasks, env);
  }

  /** The inner loop of `get_directory_tasks`: each entry of one listed
      directory in order, stopping at the first failing config. Entries
      that are all scripts or other files register their scripts in order,
      touch nothing but the table and cannot fail. */
  method AddEntries(entries: seq<DirEntry>, fuel: nat, tasks: TaskTable, env: Env) returns (r: Result<Unit>)
    modifies tasks, env.disk, env.cache, env.store, env.console
    ensures old(tasks.entries).Keys <= tasks.entries.Keys
    ensures (forall k :: 0 <= k < |entries| ==> !Classify(entries[k].name).Config?) ==>
              && r.Ok?
              && unchanged(env.disk, env.cache, env.store, env.console)
              && tasks.entries == InsertAll(old(tasks.entries), ScriptInserts(entries))
    decreases fuel, 1
  {
    ghost var noConfigs := forall k :: 0 <= k < |entries| ==> !Classify(entries[k].name).Config?;
    assert entries[..0] == [];
    var k := 0;
    while k < |entries|
      invariant 0 <= k <= |entries|
      invariant old(tasks.entries).Keys <= tasks.entries.Keys
      invariant noConfigs ==>
                  && unchanged(env.disk, env.cache, env.store, env.console)
                  && tasks.entries == InsertAll(old(tasks.entries), ScriptInserts(entries[..k]))
    {
      ghost var before := tasks.entries;
      r := AddEntry(entries[k], fuel, tasks, env);
      if r.Err? {
        return;
      }
      if noConfigs {
        EntryStep(before, old(tasks.entries), entries, k);
      }
      k := k + 1;
    }
    assert entries[..k] == entries;
    r := Ok(Unit);
  }

  /** One more script-or-other entry in a configless run. */
  lemma EntryStep(before: map<string, Path>, start: map<string, Path>, es: seq<DirEntry>, k: nat)
    requires k < |es| && !Classify(es[k].name).Config?
    requires before == InsertAll(start, ScriptInserts(es[..k]))
    ensures var after := if Classify(es[k].name).Script? then before[Classify(es[k].name).stem := es[k].path] else before;
            after == InsertAll(start, ScriptInserts(es[..k + 1]))
  {
    var run := es[..k + 1];
    assert run[..|run| - 1] == es[..k];
    assert run[|run| - 1] == es[k];
    if Classify(es[k].name).Script? {
      var ins := ScriptInserts(es[..k]);
      var e := Entry(Classify(es[k].name).stem, es[k].path);
      assert ScriptInserts(run) == ins + [e];
      assert (ins + [e])[..|ins + [e]| - 1] == ins;
    } else {
      assert ScriptInserts(run) == ScriptInserts(es[..k]);
    }
  }

  /** The registrations of two runs of entries are those of their
      concatenation. */
  lemma {:induction false} ScriptInsertsAppend(a: seq<DirEntry>, b: seq<DirEntry>)
    ensures ScriptInserts(a + b) == ScriptInserts(a) + ScriptInserts(b)
    decreases |b|
  {
    if b == [] {
      assert a + b == a;
    } else {
      var b' := b[..|b| - 1];
      ScriptInsertsAppend(a, b');
      assert (a + b)[..|a + b| - 1] == a + b';
      assert (a + b)[|a + b| - 1] == b[|b| - 1];
    }
  }

  /** `get_directory_tasks`: walk `lune`, `.lune`, `lunar` and `.lunar` of
      the directory in order, skipping those that do not exist, and handle
      each entry in listing order. A directory that cannot be listed, and a
      failing config, end the walk with an error; what was registered before
      stays. Without configs the result is the scripts of the listing,
      registered in order, the last of a stem winning. */
  method GetDirectoryTasks(directory: Path, fuel: nat, tasks: TaskTable, env: Env) returns (r: Result<Unit>)
    modifies tasks, env.disk, env.cache, env.store, env.console
    ensures old(tasks.entries).Keys <= tasks.entries.Keys
    ensures ConfigFree(old(env.disk.fs), directory) ==>
              && unchanged(env.disk, env.cache, env.store, env.console)
              && var listing := Listing(old(env.disk.fs), directory, 0);
                 && (r.Ok? <==> listing.Ok?)
                 && (r.Err? ==> r.error == listing.error)
                 && (r.Ok? ==> tasks.entries == InsertAll(old(tasks.entries), ScriptInserts(listing.value)))
    decreases fuel, 2
  {
    ghost var fs0 := env.disk.fs;
    ghost var free := ConfigFree(fs0, directory);
    ghost var done: seq<DirEntry> := [];
    if Listing(fs0, directory, 0).Ok? {
      assert [] + Listing(fs0, directory, 0).value == Listing(fs0, directory, 0).value;
    }
    var d := 0;
    while d < |ScriptDirs|
      invariant 0 <= d <= |ScriptDirs|
      invariant old(tasks.entries).Keys <= tasks.entries.Keys
      invariant free ==>
                  && unchanged(env.disk, env.cache, env.store, env.console)
                  && Listing(fs0, directory, 0) == Prepend(done, Listing(fs0, directory, d))
                  && tasks.entries == InsertAll(old(tasks.entries), ScriptInserts(done))
    {
      var path := Join(directory, ScriptDirs[d]);
      if Exists(env.disk.fs, path) {
        var read := ReadDir(env.disk.fs, path);
        if read.Err? {
          return Err(read.error);
        }
        var names := env.disk.fs.nodes[path].entries;
        var paths := read.value;
        var entries := seq(|names|, k requires 0 <= k < |names| => DirEntry(names[k], paths[k]));
        if free {
          assert DirConfigFree(fs0, path);
          assert entries == EntriesOf(fs0, path);
          assert forall k :: 0 <= k < |entries| ==> !Classify(entries[k].name).Config?;
        }
        r := AddEntries(entries, fuel, tasks, env);
        if r.Err? {
          return;
        }
        if free {
          InsertAllAppend(old(tasks.entries), ScriptInserts(done), ScriptInserts(entries));
          ScriptInsertsAppend(done, entries);
          PrependPrepend(done, entries, Listing(fs0, directory, d + 1));
        }
        done := done + entries;
      }
      d := d + 1;
    }
    if free {
      assert Listing(fs0, directory, d) == Ok([]);
      assert done + [] == done;
    }
    r := Ok(Unit);
  }

  /** The table after a single-script selector: the first existing probe
      candidate under `name`, or the table unchanged when none exists. */
  function WithProbe(t: map<string, Path>, name: string, fs: FileSystem, directory: Path, script: string)
    : (r: map<string, Path>)
    ensures r.Keys <= t.Keys + {name}
  {
    var probe := FirstExisting(fs, ProbeCandidates(directory, script));
    if probe.Some? then t[name := probe.value] else t
  }

  /** The table after the `script` field of a config: its path, as written,
      under the config's name or the fallback. */
  function WithScript(t: map<string, Path>, config: StandaloneTaskConfig, fallback: string)
    : map<string, Path>
  {
    if config.script.Some? then t[EffectiveName(config, fallback) := config.script.value] else t
  }

  /** `get_selector_tasks`. With a `script`, the first existing candidate of
      the probe is registered under `name` (`tasks` and `prefix` are
      ignored), and no candidate is no error. Otherwise the directory is
      walked into a fresh table (`found`), and only when that walk succeeds
      are its kept tasks merged, renamed. */
  method GetSelectorTasks(directory: Path, name: string, selector: ScriptSelector, fuel: nat,
                          tasks: TaskTable, env: Env)
    returns (r: Result<Unit>, ghost found: map<string, Path>)
    modifies tasks, env.disk, env.cache, env.store, env.console
    ensures old(tasks.entries).Keys <= tasks.entries.Keys
    ensures selector.script.Some? ==>
              && r.Ok? && unchanged(env.disk, env.cache, env.store, env.console)
              && tasks.entries == WithProbe(old(tasks.entries), name, old(env.disk.fs), directory,
                                            selector.script.value)
    ensures selector.script.None? && r.Err? ==> tasks.entries == old(tasks.entries)
    ensures selector.script.None? && r.Ok? ==> tasks.entries == old(tasks.entries) + Selected(found, selector)
    ensures selector.script.None? && ConfigFree(old(env.disk.fs), directory) ==>
              && unchanged(env.disk, env.cache, env.store, env.console)
              && var listing := Listing(old(env.disk.fs), directory, 0);
                 && (r.Ok? <==> listing.Ok?)
                 && (r.Ok? ==> found == InsertAll(map[], ScriptInserts(listing.value)))
    decreases fuel, 3
  {
    found := map[];
    if selector.script.Some? {
      var probe := ProbeScript(directory, selector.script.value, env.disk.fs);
      if probe.Some? {
        tasks.Insert(name, probe.value);
      }
      r := Ok(Unit);
    } else {
      var subtasks := new Table<Path>();
      r := GetDirectoryTasks(directory, fuel, subtasks, env);
      found := subtasks.entries;
      if r.Err? {
        return;
      }
      MergeSelected(tasks, subtasks.entries, selector);
    }
  }

  /** How the `repo` field of a config went: the trust prompt failed, trust
      was declined, fetching failed, or the repository was fetched into
      `directory`. */
  datatype RepoStep = PromptFailed(error: Error) | Declined | FetchFailed | Fetched(directory: Path)

  /** The question asked before downloading a repository. */
  function DownloadQuery(url: string): string {
    "Do you want to download " + url + " ?"
  }

  /** How the `repo` field goes, from the disk, hash cache, trust file and
      console it starts from: the url prompt's error, a decline, or, once the
      url is trusted, the result of fetching, where the setup prompt meets the
      trust file and the console the url prompt left. */
  function RepoStepFor(repo: RepoConfig, fs: FileSystem, cacheFile: CacheFile, file: TrustFile,
                       input: seq<string>, writable: bool, trustNew: bool, ext: Externals): RepoStep
  {
    var answer := TrustAnswer(file, repo.url, trustNew, input, writable);
    if answer.Err? then PromptFailed(answer.error)
    else if !answer.value then Declined
    else
      var setup := SetupAnswer(repo.url, trustNew, FileAfterPrompt(file, repo.url, trustNew, input, writable),
                               InputAfterPrompt(file, repo.url, trustNew, input), writable);
      var fetched := FetchOutcome(fs, cacheFile, repo, ext, setup);
      if fetched.Ok? then Fetched(fetched.value) else FetchFailed
  }

  /** The repository is fetched exactly when its url is trusted already, or
      is trusted now by the trust-new flag or an accepted answer and the
      store can record it; the prompt fails when it cannot; any other answer
      declines. A fetched repository is the resolved commit's cache
      directory: a failing resolution is a failed fetch, and a commit whose
      directory exists is fetched without cloning. */
  lemma RepoStepIff(repo: RepoConfig, fs: FileSystem, cacheFile: CacheFile, file: TrustFile,
                    input: seq<string>, writable: bool, trustNew: bool, ext: Externals)
    ensures var step := RepoStepFor(repo, fs, cacheFile, file, input, writable, trustNew, ext);
            var asked := !IsTrusted(file, repo.url) && (trustNew || Accepted(NextAnswer(input)));
            var h := ResolveHash(cacheFile, repo, ext.lsRemote);
            && (step.Fetched? || step.FetchFailed? <==>
                  IsTrusted(file, repo.url) || (asked && !file.Unreadable? && writable))
            && (step.PromptFailed? <==> asked && (file.Unreadable? || !writable))
            && (step.Declined? <==> !IsTrusted(file, repo.url) && !trustNew && !Accepted(NextAnswer(input)))
            && (step.Fetched? ==> h.Ok? && step.directory == CacheDir(ext.root, repo.url, ext.urlHash, h.value))
            && (step.Fetched? || step.FetchFailed? ==>
                  && (h.Err? ==> step == FetchFailed)
                  && (h.Ok? && Exists(fs, CacheDir(ext.root, repo.url, ext.urlHash, h.value)) ==>
                        step == Fetched(CacheDir(ext.root, repo.url, ext.urlHash, h.value))))
  {
    var answer := TrustAnswer(file, repo.url, trustNew, input, writable);
    if answer == Ok(true) {
      var setup := SetupAnswer(repo.url, trustNew, FileAfterPrompt(file, repo.url, trustNew, input, writable),
                               InputAfterPrompt(file, repo.url, trustNew, input), writable);
      FetchOutcomeIff(fs, cacheFile, repo, ext, setup);
    }
  }

  /** The first half of the `repo` field: ask for trust in the url, and
      fetch the repository only when it is trusted. */
  method TrustAndFetch(repo: RepoConfig, env: Env) returns (step: RepoStep)
    modifies env.disk, env.cache, env.store, env.console
    ensures step == RepoStepFor(repo, old(env.disk.fs), old(env.cache.file), old(env.store.file),
                                old(env.console.input), env.store.writable, env.trustNew,
                                env.fetchExternals(repo))
    ensures step.PromptFailed? || step.Declined? ==> unchanged(env.disk, env.cache)
    // the repository is downloaded only once its url is trusted
    ensures step.Fetched? || step.FetchFailed? ==> repo.url in TrustedNames(env.store.file)
    ensures step.Fetched? ==> Exists(env.disk.fs, step.directory)
    ensures IsTrusted(old(env.store.file), repo.url) ==> step.Fetched? || step.FetchFailed?
    ensures !IsTrusted(old(env.store.file), repo.url) && !env.trustNew
            && !Accepted(NextAnswer(old(env.console.input))) ==>
              step == Declined && env.store.file == old(env.store.file)
    ensures TrustedNames(old(env.store.file)) <= TrustedNames(env.store.file)
  {
    var trusted := env.store.PromptForTrust(repo.url, DownloadQuery(repo.url), env.trustNew, env.console);
    if trusted.Err? {
      return PromptFailed(trusted.error);
    }
    if !trusted.value {
      // skipped with a warning: the repository is not trusted
      return Declined;
    }
    IsTrustedIffStored(env.store.file, repo.url);
    var fetched, trace, setupFound := FetchRepo(repo, env.fetchExternals(repo), env.trustNew,
                                                env.disk, env.cache, env.store, env.console);
    if fetched.Err? {
      // skipped with a warning: the fetch error is reported, not propagated
      return FetchFailed;
    }
    step := Fetched(fetched.value);
  }

  /** The `repo` field: a failed prompt is an error; a decline or a failed
      fetch skips the repository without an error; otherwise the selector
      (or the default one) is applied to the fetched directory. */
  method AddRepoTasks(repo: RepoConfig, name: string, fuel: nat, tasks: TaskTable, env: Env)
    returns (r: Result<Unit>, step: RepoStep, ghost found: map<string, Path>)
    modifies tasks, env.disk, env.cache, env.store, env.console
    ensures step == RepoStepFor(repo, old(env.disk.fs), old(env.cache.file), old(env.store.file),
                                old(env.console.input), env.store.writable, env.trustNew,
                                env.fetchExternals(repo))
    ensures old(tasks.entries).Keys <= tasks.entries.Keys
    ensures !step.Fetched? ==> tasks.entries == old(tasks.entries)
    // a fetched repository is handed to its selector
    ensures step.Fetched? && repo.selector.GetOr(DefaultSelector).script.Some? ==>
              r.Ok? && tasks.entries == WithProbe(old(tasks.entries), name, env.disk.fs, step.directory,
                                                  repo.selector.GetOr(DefaultSelector).script.value)
    ensures step.Fetched? && repo.selector.GetOr(DefaultSelector).script.None? ==>
              && (r.Err? ==> tasks.entries == old(tasks.entries))
              && (r.Ok? ==> tasks.entries == old(tasks.entries) + Selected(found, repo.selector.GetOr(DefaultSelector)))
    ensures step.PromptFailed? ==> r == Err(step.error)
    ensures step.Declined? || step.FetchFailed? ==> r.Ok?
    ensures step.PromptFailed? || step.Declined? ==> unchanged(env.disk, env.cache)
    ensures IsTrusted(old(env.store.file), repo.url) ==> step.Fetched? || step.FetchFailed?
    ensures !IsTrusted(old(env.store.file), repo.url) && !env.trustNew
            && !Accepted(NextAnswer(old(env.console.input))) ==>
              step == Declined && r.Ok? && env.store.file == old(env.store.file)
    decreases fuel, 4
  {
    found := map[];
    step := TrustAndFetch(repo, env);
    match step
    case PromptFailed(e) =>
      r := Err(e);
    case Declined =>
      r := Ok(Unit);
    case FetchFailed =>
      r := Ok(Unit);
    case Fetched(directory) =>
      r, found := GetSelectorTasks(directory, name, repo.selector.GetOr(DefaultSelector), fuel, tasks, env);
  }

  /** `get_standalone_config_tasks`: under the config's name, or else the
      fallback, register the `script` path as written, then the tasks of the
      `repo`, then those of the `directory`, which is used as written and
      without a trust prompt. Only insertions are made. */
  method GetStandaloneConfigTasks(config: StandaloneTaskConfig, fallback: string, fuel: nat,
                                  tasks: TaskTable, env: Env)
    returns (r: Result<Unit>)
    modifies tasks, env.disk, env.cache, env.store, env.console
    ensures old(tasks.entries).Keys <= tasks.entries.Keys
    ensures config.script.Some? ==> EffectiveName(config, fallback) in tasks.entries
    ensures config.repo.None? && config.directory.None? ==>
              && r.Ok? && unchanged(env.disk, env.cache, env.store, env.console)
              && tasks.entries == WithScript(old(tasks.entries), config, fallback)
    // a declined repository adds nothing and does not stop the config
    ensures config.repo.Some? && !IsTrusted(old(env.store.file), config.repo.value.url) && !env.trustNew
            && !Accepted(NextAnswer(old(env.console.input))) ==>
              && (config.directory.None? ==>
                    && r.Ok? && unchanged(env.disk, env.cache) && env.store.file == old(env.store.file)
                    && tasks.entries == WithScript(old(tasks.entries), config, fallback))
              && (config.directory.Some? && config.directory.value.selector.GetOr(DefaultSelector).script.Some? ==>
                    && r.Ok? && unchanged(env.disk, env.cache) && env.store.file == old(env.store.file)
                    && tasks.entries == WithProbe(WithScript(old(tasks.entries), config, fallback),
                                                  EffectiveName(config, fallback), old(env.disk.fs),
                                                  config.directory.value.path,
                                                  config.directory.value.selector.GetOr(DefaultSelector).script.value))
    // a local directory is used as written, without consulting the trust store
    ensures config.repo.None? && config.directory.Some?
            && config.directory.value.selector.GetOr(DefaultSelector).script.Some? ==>
              && r.Ok? && unchanged(env.disk, env.cache, env.store, env.console)
              && tasks.entries == WithProbe(WithScript(old(tasks.entries), config, fallback),
                                            EffectiveName(config, fallback), old(env.disk.fs),
                                            config.directory.value.path,
                                            config.directory.value.selector.GetOr(DefaultSelector).script.value)
    decreases fuel, 5
  {
    var name := EffectiveName(config, fallback);
    if config.script.Some? {
      tasks.Insert(name, config.script.value);
    }
    assert tasks.entries == WithScript(old(tasks.entries), config, fallback);
    if config.repo.Some? {
      var step;
      ghost var found;
      r, step, found := AddRepoTasks(config.repo.value, name, fuel, tasks, env);
      if r.Err? {
        return;
      }
    }
    if config.directory.Some? {
      ghost var found;
      r, found := GetSelectorTasks(config.directory.value.path, name,
                                   config.directory.value.selector.GetOr(DefaultSelector), fuel, tasks, env);
      if r.Err? {
        return;
      }
    }
    r := Ok(Unit);
  }
}
