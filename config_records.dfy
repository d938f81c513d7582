/** The records a `*.lunar.toml` file decodes to, and the conventional script
    directories (task_config.rs). They are values: nothing updates them. */
module ConfigRecords {
  import opened Outcomes

  /** Which tasks to take from a directory: one script by name, or every
      discovered task, optionally filtered by exact name and prefixed. */
  datatype ScriptSelector = ScriptSelector(
    script: Option<string>,
    tasks: Option<seq<string>>,
    prefix: Option<string>)

  /** `ScriptSelector::default()`: take every task, unrenamed. */
  const DefaultSelector := ScriptSelector(None, None, None)

  /** The `repo` table of a config: a repository reference. */
  datatype RepoConfig = RepoConfig(
    url: string,
    tag: Option<string>,
    hash: Option<string>,
    selector: Option<ScriptSelector>)

  /** The `directory` table of a config. */
  datatype DirectoryConfig = DirectoryConfig(
    path: string,
    selector: Option<ScriptSelector>)

  /** A standalone task config; each field that is present contributes tasks. */
  datatype StandaloneTaskConfig = StandaloneTaskConfig(
    name: Option<string>,
    repo: Option<RepoConfig>,
    directory: Option<DirectoryConfig>,
    script: Option<string>)

  /** The directories searched for scripts, in order. */
  const ScriptDirs: seq<string> := ["lune", ".lune", "lunar", ".lunar"]

  /** The directories searched for a single named script, in order; "." is
      the directory itself. */
  const ScriptSingleDirs: seq<string> := ["lune", ".lune", "lunar", ".lunar", "."]

  /** The suffix that marks a standalone task config file. */
  const ConfigSuffix := ".lunar.toml"

  /** `tag.unwrap_or("HEAD")`. */
  function TagOrHead(tag: Option<string>): string {
    tag.GetOr("HEAD")
  }

  /** The name a config's tasks are registered under: its own `name`, else
      the name derived from its file. */
  function EffectiveName(config: StandaloneTaskConfig, fallback: string): (name: string)
    ensures config.name.Some? ==> name == config.name.value
    ensures config.name.None? ==> name == fallback
  {
    config.name.GetOr(fallback)
  }
}
