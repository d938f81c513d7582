/** An abstract filesystem: every path that exists names a node, a directory
    (with its entry names in the order a directory listing yields them), a
    file (with its contents) or a node that exists but cannot be read. Paths
    are strings joined the way `Path::join` joins them on Unix. */
module Fs {
  import opened Outcomes

  type Path = string

  /** `Path::join`: an absolute name replaces the base; otherwise a separator
      is added unless the base is empty or already ends with one. */
  function Join(dir: Path, name: string): Path {
    if name != [] && name[0] == '/' then name
    else if dir == [] || dir[|dir| - 1] == '/' then dir + name
    else dir + "/" + name
  }

  /** Joining a relative name keeps the base as a prefix and is injective in
      the name. */
  lemma JoinRelative(dir: Path, a: string, b: string)
    requires a == [] || a[0] != '/'
    requires b == [] || b[0] != '/'
    ensures StartsWithPath(Join(dir, a), dir)
    ensures Join(dir, a) == Join(dir, b) ==> a == b
  {
    var sep := if dir == [] || dir[|dir| - 1] == '/' then "" else "/";
    assert Join(dir, a) == dir + sep + a && Join(dir, b) == dir + sep + b;
    assert (dir + sep + a)[|dir + sep|..] == a;
    assert (dir + sep + b)[|dir + sep|..] == b;
  }

  /** Joining a name followed by more characters that do not start with a
      separator extends the joined path by those characters. */
  lemma JoinAppend(dir: Path, a: string, b: string)
    requires b == [] || b[0] != '/'
    ensures Join(dir, a + b) == Join(dir, a) + b
  {
    if a == [] {
      assert a + b == b;
    } else {
      assert (a + b)[0] == a[0];
      if a[0] != '/' {
        if dir == [] || dir[|dir| - 1] == '/' {
          assert dir + (a + b) == dir + a + b;
        } else {
          assert dir + "/" + (a + b) == dir + "/" + a + b;
        }
      }
    }
  }

  predicate StartsWithPath(p: Path, prefix: Path) {
    |prefix| <= |p| && p[..|prefix|] == prefix
  }

  datatype Node = Dir(entries: seq<string>) | File(contents: string) | Unreadable

  datatype FileSystem = FileSystem(nodes: map<Path, Node>)

  /** `Path::exists`. */
  predicate Exists(fs: FileSystem, p: Path) {
    p in fs.nodes
  }

  /** `read_dir`: the paths of the entries of a directory; anything else that
      exists, or nothing at all, is an error. */
  function ReadDir(fs: FileSystem, p: Path): (r: Result<seq<Path>>)
    ensures r.Ok? <==> p in fs.nodes && fs.nodes[p].Dir?
    ensures r.Ok? ==> (|r.value| == |fs.nodes[p].entries|
                   && forall i :: 0 <= i < |r.value| ==> r.value[i] == Join(p, fs.nodes[p].entries[i]))
  {
    if p in fs.nodes && fs.nodes[p].Dir? then
      var entries := fs.nodes[p].entries;
      Ok(seq(|entries|, i requires 0 <= i < |entries| => Join(p, entries[i])))
    else if p in fs.nodes then
      Err(Fail("Not a directory or permission denied"))
    else
      Err(Fail("No such file or directory"))
  }

  /** `fs::read_to_string` and `fs::read`: the contents of a readable file. */
  function ReadFile(fs: FileSystem, p: Path): (r: Result<string>)
    ensures r.Ok? <==> p in fs.nodes && fs.nodes[p].File?
    ensures r.Ok? ==> r.value == fs.nodes[p].contents
  {
    if p in fs.nodes && fs.nodes[p].File? then Ok(fs.nodes[p].contents)
    else if p in fs.nodes then Err(Fail("Is a directory or permission denied"))
    else Err(Fail("No such file or directory"))
  }

  /** A key of a tree: "" for its root, or a "/"-led path below the root. */
  predicate TreeKey(rel: string) {
    rel == [] || rel[0] == '/'
  }

  /** A tree of nodes keyed by paths relative to its root. */
  type Tree = t: map<string, Node> | forall rel :: rel in t ==> TreeKey(rel)

  /** `p` is `root` or lies below it. */
  predicate Below(root: Path, p: Path) {
    p == root || (StartsWithPath(p, root) && |p| > |root| && p[|root|] == '/')
  }

  /** Nothing exists at or below `root`. */
  ghost predicate Vacant(fs: FileSystem, root: Path) {
    forall p :: p in fs.nodes ==> !Below(root, p)
  }

  /** `fs'` differs from `fs` only at or below `a` or `b`: every other path
      exists in both or in neither, with the same node. */
  ghost predicate OnlyBelow(fs: FileSystem, fs': FileSystem, a: Path, b: Path) {
    forall p :: !Below(a, p) && !Below(b, p) ==>
      (p in fs.nodes <==> p in fs'.nodes) && (p in fs.nodes ==> fs'.nodes[p] == fs.nodes[p])
  }

  /** The nodes of `fs` at or below `root`, keyed relative to `root`. */
  function Subtree(fs: FileSystem, root: Path): (t: Tree)
    ensures forall rel :: rel in t ==> (Below(root, root + rel) && root + rel in fs.nodes
                                    && t[rel] == fs.nodes[root + rel])
    ensures forall p :: p in fs.nodes && Below(root, p) ==> p[|root|..] in t
  {
    var keys := RelativeKeys(fs, root);
    assert forall rel :: rel in keys ==> TreeKey(rel) by {
      forall rel | rel in keys ensures TreeKey(rel) {
        BelowKey(root, root + rel);
      }
    }
    map rel | rel in keys :: fs.nodes[root + rel]
  }

  /** A path at or below `root` is `root` followed by a tree key. */
  lemma BelowKey(root: Path, p: Path)
    requires Below(root, p)
    ensures TreeKey(p[|root|..]) && p == root + p[|root|..]
  {
  }

  /** A map that holds exactly the nodes at or below `root` is its subtree. */
  lemma SubtreeIs(fs: FileSystem, root: Path, t: Tree)
    requires forall rel :: rel in t ==> root + rel in fs.nodes && fs.nodes[root + rel] == t[rel]
    requires forall p :: p in fs.nodes && Below(root, p) ==> p[|root|..] in t
    ensures Subtree(fs, root) == t
  {
    var s := Subtree(fs, root);
    forall rel | rel in t ensures rel in s {
      assert Below(root, root + rel) by {
        assert (root + rel)[..|root|] == root;
        if rel != [] {
          assert (root + rel)[|root|] == rel[0];
        }
      }
      assert (root + rel)[|root|..] == rel;
    }
    forall rel | rel in s ensures rel in t {
      assert (root + rel)[|root|..] == rel;
    }
  }

  /** The keys of `Subtree(fs, root)`. */
  function RelativeKeys(fs: FileSystem, root: Path): (keys: set<string>)
    ensures forall rel :: rel in keys ==> root + rel in fs.nodes && Below(root, root + rel)
    ensures forall p :: p in fs.nodes && Below(root, p) ==> p[|root|..] in keys
  {
    var keys := set p | p in fs.nodes && Below(root, p) :: p[|root|..];
    assert forall rel :: rel in keys ==> root + rel in fs.nodes && Below(root, root + rel) by {
      forall rel | rel in keys ensures root + rel in fs.nodes && Below(root, root + rel) {
        var p :| p in fs.nodes && Below(root, p) && p[|root|..] == rel;
        assert p == root + rel;
      }
    }
    keys
  }

  /** `fs` with the nodes of `t` placed below `at`. */
  function Mount(fs: FileSystem, at: Path, t: Tree): (r: FileSystem)
    ensures forall rel :: rel in t ==> at + rel in r.nodes && r.nodes[at + rel] == t[rel]
    ensures forall p :: p in fs.nodes && !(StartsWithPath(p, at) && p[|at|..] in t) ==>
              p in r.nodes && r.nodes[p] == fs.nodes[p]
    ensures forall p :: p in r.nodes ==> p in fs.nodes || (StartsWithPath(p, at) && p[|at|..] in t)
  {
    var mounted := map p | p in (set rel | rel in t :: at + rel) ::
      assert p[|at|..] in t by {
        var rel :| rel in t && p == at + rel;
        assert p[|at|..] == rel;
      }
      t[p[|at|..]];
    FileSystem(fs.nodes + mounted)
  }

  /** `fs` without `root` and everything below it (`remove_dir_all`). */
  function RemoveTree(fs: FileSystem, root: Path): (r: FileSystem)
    ensures forall p :: p in r.nodes <==> p in fs.nodes && !Below(root, p)
    ensures forall p :: p in r.nodes ==> r.nodes[p] == fs.nodes[p]
  {
    FileSystem(map p | p in fs.nodes && !Below(root, p) :: fs.nodes[p])
  }

  /** Mounting a tree changes nothing outside its mount point. */
  lemma MountOnlyBelow(fs: FileSystem, at: Path, t: Tree)
    ensures OnlyBelow(fs, Mount(fs, at, t), at, at)
  {
    forall p | StartsWithPath(p, at) && p[|at|..] in t ensures Below(at, p) {
      assert TreeKey(p[|at|..]);
      if p[|at|..] != [] {
        assert p[|at|] == p[|at|..][0];
      }
    }
  }

  /** Removing a tree changes nothing outside it. */
  lemma RemoveOnlyBelow(fs: FileSystem, root: Path)
    ensures OnlyBelow(fs, RemoveTree(fs, root), root, root)
  {
  }

  /** Changes confined to the same two trees compose. */
  lemma OnlyBelowTrans(fs: FileSystem, fs': FileSystem, fs'': FileSystem, a: Path, b: Path)
    requires OnlyBelow(fs, fs', a, b) && OnlyBelow(fs', fs'', a, b)
    ensures OnlyBelow(fs, fs'', a, b)
  {
  }

  /** Changes confined to one tree are confined to it and any other. */
  lemma OnlyBelowWiden(fs: FileSystem, fs': FileSystem, d: Path, a: Path, b: Path)
    requires OnlyBelow(fs, fs', d, d) && (d == a || d == b)
    ensures OnlyBelow(fs, fs', a, b)
  {
  }

  /** The error of creating a directory where something else exists. */
  const FileInTheWay := Fail("File exists")

  /** The error of creating a directory below something that is not one. */
  const NotADirectory := Fail("Not a directory")

  /** Some existing proper ancestor of `p` (a prefix ending just before a
      `/`) is not a directory, so `create_dir_all` cannot reach `p`. */
  predicate AncestorBlocked(fs: FileSystem, p: Path) {
    exists i :: 0 < i < |p| && p[i] == '/' && p[..i] in fs.nodes && !fs.nodes[p[..i]].Dir?
  }

  /** The error `create_dir_all` reports when it fails. */
  function CreateDirError(fs: FileSystem, p: Path): Error {
    if AncestorBlocked(fs, p) then NotADirectory else FileInTheWay
  }

  /** The disk as one mutable object: the only state the filesystem
      operations of the program change. */
  class Disk {
    var fs: FileSystem

    constructor (initial: FileSystem)
      ensures fs == initial
    {
      fs := initial;
    }

    /** `create_dir_all` of a directory that is then empty: it fails when an
        existing ancestor or the path itself is not a directory. The
        missing parents it creates are not recorded. */
    method CreateDir(p: Path) returns (r: Result<Unit>)
      modifies this
      ensures r.Ok? <==> !AncestorBlocked(old(fs), p) && (!Exists(old(fs), p) || old(fs).nodes[p].Dir?)
      ensures r.Err? ==> r.error == CreateDirError(old(fs), p)
      ensures r.Ok? && !Exists(old(fs), p) ==> fs == FileSystem(old(fs).nodes[p := Dir([])])
      ensures !(r.Ok? && !Exists(old(fs), p)) ==> fs == old(fs)
    {
      if AncestorBlocked(fs, p) {
        r := Err(NotADirectory);
      } else if p !in fs.nodes {
        fs := FileSystem(fs.nodes[p := Dir([])]);
        r := Ok(Unit);
      } else if fs.nodes[p].Dir? {
        r := Ok(Unit);
      } else {
        r := Err(FileInTheWay);
      }
    }

    /** Places the nodes of `t` below `at`. */
    method Populate(at: Path, t: Tree)
      modifies this
      ensures fs == Mount(old(fs), at, t)
    {
      fs := Mount(fs, at, t);
    }

    /** Moves the tree at `src` to `dst`, which must not exist. */
    method MoveTree(src: Path, dst: Path)
      modifies this
      ensures fs == Mount(RemoveTree(old(fs), src), dst, Subtree(old(fs), src))
    {
      fs := Mount(RemoveTree(fs, src), dst, Subtree(fs, src));
    }

    /** `remove_dir_all`. */
    method RemoveDirAll(p: Path)
      modifies this
      ensures fs == RemoveTree(old(fs), p)
    {
      fs := RemoveTree(fs, p);
    }
  }
}
