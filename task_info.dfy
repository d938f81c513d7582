/** The task info extractor (task_info.rs): the metadata block a script may
    carry in a `--[=[ lunar … ]=]` comment, and the flattening of the tree of
    inline sub-tasks it declares into one table of task records. */
module TaskInfo {
  import opened Outcomes
  import opened Text
  import opened Fs
  import opened Tables

  /** The metadata of a script, or of one of its inline sub-tasks. `tasks`
      lists the sub-tasks in the order the decoded table yields them. */
  datatype InlineTaskInfo = InlineTaskInfo(
    args: Option<string>,
    about: Option<string>,
    hide: Option<bool>,
    tasks: seq<Subtask>)

  datatype Subtask = Subtask(name: string, info: InlineTaskInfo)

  /** A resolved task: its usage and description, the script it runs, and
      the fixed arguments placed before the user's own. */
  datatype TaskInfo = TaskInfo(
    args: Option<string>,
    about: Option<string>,
    path: Option<Path>,
    subtaskArgs: seq<string>)

  /** The metadata of a script without a block: every field at its default. */
  const EmptyInfo := InlineTaskInfo(None, None, None, [])

  /** `hide.unwrap_or(false)`. */
  predicate Hidden(info: InlineTaskInfo) {
    info.hide.GetOr(false)
  }

  /** The record `add_inline_task` inserts for a visible task. */
  function Record(info: InlineTaskInfo, path: Option<Path>, args: seq<string>): TaskInfo {
    TaskInfo(info.args, info.about, path, args)
  }

  /** What `add_inline_task(tasks, name, path, info, args)` inserts, in
      order: the task itself unless hidden, then each sub-task's insertions,
      the sub-task's name appended to the arguments. */
  function Inserts(name: string, path: Option<Path>, info: InlineTaskInfo, args: seq<string>)
    : seq<Entry<TaskInfo>>
    decreases info, 1
  {
    (if Hidden(info) then [] else [Entry(name, Record(info, path, args))])
    + ChildInserts(path, info, |info.tasks|, args)
  }

  /** The insertions of the first `n` sub-tasks of `parent`. */
  function ChildInserts(path: Option<Path>, parent: InlineTaskInfo, n: nat, args: seq<string>)
    : seq<Entry<TaskInfo>>
    requires n <= |parent.tasks|
    decreases parent, 0, n
  {
    if n == 0 then []
    else
      var sub := parent.tasks[n - 1];
      ChildInserts(path, parent, n - 1, args) + Inserts(sub.name, path, sub.info, args + [sub.name])
  }

  /** `leaf` is the node reached from `info` by following the sub-task names
      `names`. */
  ghost predicate NodeAt(info: InlineTaskInfo, names: seq<string>, leaf: InlineTaskInfo)
    decreases |names|
  {
    if names == [] then leaf == info
    else exists i :: 0 <= i < |info.tasks| && info.tasks[i].name == names[0]
                     && NodeAt(info.tasks[i].info, names[1..], leaf)
  }

  /** The name a node is registered under: the top-level name for the root,
      its own bare name for a sub-task. */
  function KeyOf(name: string, names: seq<string>): string {
    if names == [] then name else names[|names| - 1]
  }

  /** `e` is the record of a visible node of the tree below `info`. */
  ghost predicate FromNode(name: string, path: Option<Path>, info: InlineTaskInfo, args: seq<string>,
                           e: Entry<TaskInfo>)
  {
    exists names, leaf :: NodeAt(info, names, leaf) && !Hidden(leaf)
      && e == Entry(KeyOf(name, names), Record(leaf, path, args + names))
  }

  /** Every insertion is the record of a visible node: it is keyed by the
      node's bare name, carries the script's path, and its fixed arguments
      are the parent's followed by the names on the way down. */
  lemma {:induction false} InsertsFromNodes(name: string, path: Option<Path>, info: InlineTaskInfo,
                                            args: seq<string>)
    ensures forall e :: e in Inserts(name, path, info, args) ==> FromNode(name, path, info, args, e)
    decreases info, 1
  {
    forall e | e in Inserts(name, path, info, args)
      ensures FromNode(name, path, info, args, e)
    {
      if !Hidden(info) && e == Entry(name, Record(info, path, args)) {
        assert NodeAt(info, [], info);
        assert args + [] == args;
      } else {
        assert e in ChildInserts(path, info, |info.tasks|, args);
        ChildInsertsFromNodes(name, path, info, |info.tasks|, args, e);
      }
    }
  }

  lemma {:induction false} ChildInsertsFromNodes(name: string, path: Option<Path>, parent: InlineTaskInfo,
                                                 n: nat, args: seq<string>, e: Entry<TaskInfo>)
    requires n <= |parent.tasks|
    requires e in ChildInserts(path, parent, n, args)
    ensures FromNode(name, path, parent, args, e)
    decreases parent, 0, n
  {
    var sub := parent.tasks[n - 1];
    if e in ChildInserts(path, parent, n - 1, args) {
      ChildInsertsFromNodes(name, path, parent, n - 1, args, e);
    } else {
      assert e in Inserts(sub.name, path, sub.info, args + [sub.name]);
      InsertsFromNodes(sub.name, path, sub.info, args + [sub.name]);
      var names', leaf :| NodeAt(sub.info, names', leaf) && !Hidden(leaf)
        && e == Entry(KeyOf(sub.name, names'), Record(leaf, path, args + [sub.name] + names'));
      var names := [sub.name] + names';
      assert names[1..] == names';
      assert parent.tasks[n - 1].name == names[0] && NodeAt(parent.tasks[n - 1].info, names[1..], leaf);
      assert NodeAt(parent, names, leaf);
      AppendName(args, sub.name, names');
      assert KeyOf(sub.name, names') == KeyOf(name, names);
      assert NodeAt(parent, names, leaf) && !Hidden(leaf)
        && e == Entry(KeyOf(name, names), Record(leaf, path, args + names));
    }
  }

  /** The arguments below a sub-task: the parent's, the sub-task's name,
      then the names further down. */
  lemma AppendName(args: seq<string>, name: string, names: seq<string>)
    ensures args + [name] + names == args + ([name] + names)
  {
  }

  /** Conversely, every visible node of the tree is recorded, whether or not
      the nodes above it are hidden. */
  lemma {:induction false} NodesAreInserted(name: string, path: Option<Path>, info: InlineTaskInfo,
                                            args: seq<string>, names: seq<string>, leaf: InlineTaskInfo)
    requires NodeAt(info, names, leaf) && !Hidden(leaf)
    ensures Entry(KeyOf(name, names), Record(leaf, path, args + names)) in Inserts(name, path, info, args)
    decreases |names|
  {
    if names == [] {
      assert args + [] == args;
    } else {
      var i :| 0 <= i < |info.tasks| && info.tasks[i].name == names[0]
                && NodeAt(info.tasks[i].info, names[1..], leaf);
      var sub := info.tasks[i];
      NodesAreInserted(sub.name, path, sub.info, args + [sub.name], names[1..], leaf);
      AppendName(args, sub.name, names[1..]);
      assert [sub.name] + names[1..] == names;
      assert KeyOf(sub.name, names[1..]) == KeyOf(name, names);
      ChildInsertsContain(path, info, |info.tasks|, args, i);
    }
  }

  /** The insertions of the first `n` sub-tasks contain those of each of them. */
  lemma {:induction false} ChildInsertsContain(path: Option<Path>, parent: InlineTaskInfo, n: nat,
                                               args: seq<string>, i: nat)
    requires i < n <= |parent.tasks|
    ensures var sub := parent.tasks[i];
            forall e :: e in Inserts(sub.name, path, sub.info, args + [sub.name]) ==>
              e in ChildInserts(path, parent, n, args)
    decreases n
  {
    if i < n - 1 {
      ChildInsertsContain(path, parent, n - 1, args, i);
    }
  }

  /** Every record derived from one script carries that script's path, and
      its fixed arguments extend the arguments it was given. */
  lemma InsertsSharePath(name: string, path: Option<Path>, info: InlineTaskInfo, args: seq<string>)
    ensures forall e :: e in Inserts(name, path, info, args) ==>
              e.value.path == path && |args| <= |e.value.subtaskArgs|
              && e.value.subtaskArgs[..|args|] == args
  {
    InsertsFromNodes(name, path, info, args);
    forall e | e in Inserts(name, path, info, args)
      ensures e.value.path == path && |args| <= |e.value.subtaskArgs| && e.value.subtaskArgs[..|args|] == args
    {
      var names, leaf :| NodeAt(info, names, leaf) && !Hidden(leaf)
        && e == Entry(KeyOf(name, names), Record(leaf, path, args + names));
      assert (args + names)[..|args|] == args;
    }
  }

  /** A hidden task gets no record of its own: every record derived from it
      belongs to a sub-task, keyed by the last of its extra arguments. */
  lemma HiddenHasNoRecord(name: string, path: Option<Path>, info: InlineTaskInfo, args: seq<string>)
    requires Hidden(info)
    ensures forall e :: e in Inserts(name, path, info, args) ==>
              |e.value.subtaskArgs| > |args| && e.key == e.value.subtaskArgs[|e.value.subtaskArgs| - 1]
  {
    InsertsFromNodes(name, path, info, args);
    forall e | e in Inserts(name, path, info, args)
      ensures |e.value.subtaskArgs| > |args| && e.key == e.value.subtaskArgs[|e.value.subtaskArgs| - 1]
    {
      var names, leaf :| NodeAt(info, names, leaf) && !Hidden(leaf)
        && e == Entry(KeyOf(name, names), Record(leaf, path, args + names));
      assert names != [];
    }
  }

  /** The tables filled with task records. */
  type InfoTable = Table<TaskInfo>

  /** `add_inline_task`: insert the task unless hidden, then flatten each
      sub-task under its bare name with its name pushed onto a copy of the
      fixed arguments. */
  method AddInlineTask(tasks: InfoTable, name: string, path: Option<Path>, info: InlineTaskInfo,
                       subtaskArgs: seq<string>)
    modifies tasks
    ensures tasks.entries == InsertAll(old(tasks.entries), Inserts(name, path, info, subtaskArgs))
    decreases info
  {
    var own: seq<Entry<TaskInfo>> := [];
    if !Hidden(info) {
      tasks.Insert(name, Record(info, path, subtaskArgs));
      own := [Entry(name, Record(info, path, subtaskArgs))];
    }
    ghost var base := tasks.entries;
    assert InsertAll(base, ChildInserts(path, info, 0, subtaskArgs)) == base;
    var i := 0;
    while i < |info.tasks|
      invariant 0 <= i <= |info.tasks|
      invariant tasks.entries == InsertAll(base, ChildInserts(path, info, i, subtaskArgs))
    {
      var sub := info.tasks[i];
      var subsubtaskArgs := subtaskArgs + [sub.name];
      AddInlineTask(tasks, sub.name, path, sub.info, subsubtaskArgs);
      InsertAllAppend(base, ChildInserts(path, info, i, subtaskArgs), Inserts(sub.name, path, sub.info, subsubtaskArgs));
      i := i + 1;
    }
    InsertAllAppend(old(tasks.entries), own, ChildInserts(path, info, |info.tasks|, subtaskArgs));
  }

  // ----- the metadata block -----

  const BlockOpen := "--[=["
  const BlockMarker := "lunar"
  const BlockClose := "]=]"

  /** `[^\S\r\n]`: whitespace other than a carriage return or a line feed. */
  predicate IsBlank(c: char) {
    IsWhitespace(c) && c != '\r' && c != '\n'
  }

  /** `[^\S\n]`: whitespace other than a line feed. */
  predicate IsLineSpace(c: char) {
    IsWhitespace(c) && c != '\n'
  }

  predicate HasAt(s: string, i: nat, t: string) {
    i + |t| <= |s| && s[i..i + |t|] == t
  }

  /** The end of the run of blanks starting at `i`. */
  function SkipBlank(s: string, i: nat): (j: nat)
    requires i <= |s|
    ensures i <= j <= |s|
    ensures forall k :: i <= k < j ==> IsBlank(s[k])
    ensures j < |s| ==> !IsBlank(s[j])
    decreases |s| - i
  {
    if i < |s| && IsBlank(s[i]) then SkipBlank(s, i + 1) else i
  }

  /** The end of the run of line spaces starting at `i`. */
  function SkipLineSpace(s: string, i: nat): (j: nat)
    requires i <= |s|
    ensures i <= j <= |s|
    ensures forall k :: i <= k < j ==> IsLineSpace(s[k])
    ensures j < |s| ==> !IsLineSpace(s[j])
    decreases |s| - i
  {
    if i < |s| && IsLineSpace(s[i]) then SkipLineSpace(s, i + 1) else i
  }

  /** Where the body of a block opened at `a` begins: the opener
      `--[=[`, blanks, `lunar`, line spaces and a line feed. */
  function BodyStart(s: string, a: nat): Option<nat> {
    if !HasAt(s, a, BlockOpen) then None
    else
      var i := SkipBlank(s, a + |BlockOpen|);
      if !HasAt(s, i, BlockMarker) then None
      else
        var j := SkipLineSpace(s, i + |BlockMarker|);
        if j < |s| && s[j] == '\n' then Some(j + 1) else None
  }

  /** The opening part of the pattern, `--\[=\[[^\S\r\n]*lunar[^\S\n]*\n`,
      matches `s[a..b]`, with `lunar` at `i` and the line feed at `j`. */
  predicate OpenerWith(s: string, a: nat, i: nat, j: nat, b: nat) {
    && HasAt(s, a, BlockOpen) && a + |BlockOpen| <= i
    && HasAt(s, i, BlockMarker)
    && (forall k :: a + |BlockOpen| <= k < i ==> IsBlank(s[k]))
    && i + |BlockMarker| <= j < |s|
    && (forall k :: i + |BlockMarker| <= k < j ==> IsLineSpace(s[k]))
    && s[j] == '\n' && b == j + 1
  }

  ghost predicate OpenerMatches(s: string, a: nat, b: nat) {
    exists i: nat, j: nat :: OpenerWith(s, a, i, j, b)
  }

  /** `BodyStart` finds exactly the openers the pattern matches: the runs of
      blanks cannot be cut short, since neither `l` nor a line feed is one. */
  lemma BodyStartIsOpener(s: string, a: nat, b: nat)
    ensures BodyStart(s, a) == Some(b) <==> OpenerMatches(s, a, b)
  {
    if BodyStart(s, a) == Some(b) {
      var i := SkipBlank(s, a + |BlockOpen|);
      var j := SkipLineSpace(s, i + |BlockMarker|);
      assert OpenerWith(s, a, i, j, b);
    }
    if OpenerMatches(s, a, b) {
      var i: nat, j: nat :| OpenerWith(s, a, i, j, b);
      OpenerIsBodyStart(s, a, i, j, b);
    }
  }

  lemma OpenerIsBodyStart(s: string, a: nat, i: nat, j: nat, b: nat)
    requires OpenerWith(s, a, i, j, b)
    ensures BodyStart(s, a) == Some(b)
  {
    assert s[i] == 'l' by { assert s[i..i + |BlockMarker|][0] == s[i]; }
    SkipBlankTo(s, a + |BlockOpen|, i);
    SkipLineSpaceTo(s, i + |BlockMarker|, j);
  }

  /** A run of blanks ended by a non-blank is skipped exactly. */
  lemma SkipBlankTo(s: string, x: nat, i: nat)
    requires x <= i < |s| && !IsBlank(s[i])
    requires forall k :: x <= k < i ==> IsBlank(s[k])
    ensures SkipBlank(s, x) == i
  {
  }

  /** A run of line spaces ended by a line feed is skipped exactly. */
  lemma SkipLineSpaceTo(s: string, x: nat, j: nat)
    requires x <= j < |s| && !IsLineSpace(s[j])
    requires forall k :: x <= k < j ==> IsLineSpace(s[k])
    ensures SkipLineSpace(s, x) == j
  {
  }

  /** The first closing `]=]` at or after `from`. */
  function FindClose(s: string, from: nat): (q: Option<nat>)
    ensures q.Some? ==> from <= q.value && HasAt(s, q.value, BlockClose)
    ensures q.Some? ==> forall k :: from <= k < q.value ==> !HasAt(s, k, BlockClose)
    ensures q.None? ==> forall k :: from <= k ==> !HasAt(s, k, BlockClose)
    decreases |s| - from
  {
    if from + |BlockClose| > |s| then None
    else if HasAt(s, from, BlockClose) then Some(from)
    else FindClose(s, from + 1)
  }

  /** The whole pattern `--\[=\[…\n(.*?)\-*]=\]` matches at `a` with the body
      starting at `b`, the capture ending at `e`, the dashes running from
      `e` to `q`, and `]=]` at `q`. */
  ghost predicate MatchAt(s: string, a: nat, b: nat, e: nat, q: nat) {
    && BodyStart(s, a) == Some(b)
    && b <= e <= q
    && HasAt(s, q, BlockClose)
    && (forall k :: e <= k < q ==> s[k] == '-')
  }

  /** The match regex semantics choose: the leftmost start at or after
      `from`, and at that start the shortest capture (`.*?` is lazy). */
  ghost predicate Leftmost(s: string, from: nat, a: nat, b: nat, e: nat, q: nat) {
    && from <= a && MatchAt(s, a, b, e, q)
    && forall a': nat, b': nat, e': nat, q': nat :: from <= a' && MatchAt(s, a', b', e', q') ==> a <= a' && (a' == a ==> e <= e')
  }

  /** The block found scanning from `a`: the first opener with a closer
      after it, and the text up to the first closer without its trailing
      dashes. */
  function FindBlockFrom(s: string, a: nat): Option<string>
    decreases |s| - a
  {
    if a >= |s| then None
    else match BodyStart(s, a)
      case None => FindBlockFrom(s, a + 1)
      case Some(b) =>
        match FindClose(s, b)
        case None => FindBlockFrom(s, a + 1)
        case Some(q) => assert b <= q <= |s|; Some(TrimEndMatches(s[b..q], "-"))
  }

  /** The capture of the metadata pattern in a script's contents. */
  function ExtractBlock(contents: string): Option<string> {
    FindBlockFrom(contents, 0)
  }

  /** The text up to a closer, without its trailing dashes, followed by
      those dashes. */
  lemma DashRun(s: string, b: nat, q: nat)
    requires b <= q <= |s|
    ensures var body := TrimEndMatches(s[b..q], "-");
            && b + |body| <= q && s[b..b + |body|] == body
            && (forall k :: b + |body| <= k < q ==> s[k] == '-')
            && (body == [] || body[|body| - 1] != '-')
            && (body == [] || s[b + |body| - 1] != '-')
  {
    var t := s[b..q];
    var body := TrimEndMatches(t, "-");
    TrimDashes(t);
    SliceRun(s, b, q, |body|, '-');
    if body != [] {
      assert s[b + |body| - 1] == s[b..b + |body|][|body| - 1];
    }
  }

  /** Indices into the slice `s[b..q]` are indices into `s` shifted by `b`. */
  lemma SliceRun(s: string, b: nat, q: nat, m: nat, c: char)
    requires b + m <= q <= |s|
    requires forall k :: m <= k < |s[b..q]| ==> s[b..q][k] == c
    ensures s[b..b + m] == s[b..q][..m]
    ensures forall k :: b + m <= k < q ==> s[k] == c
  {
    forall k | b + m <= k < q ensures s[k] == c {
      assert s[k] == s[b..q][k - b];
    }
  }

  /** Trimming the dashes off `t` leaves a prefix of `t`, not ending in a
      dash, followed in `t` by dashes only. */
  lemma TrimDashes(t: string)
    ensures var body := TrimEndMatches(t, "-");
            && |body| <= |t| && t[..|body|] == body
            && (forall k :: |body| <= k < |t| ==> t[k] == '-')
            && (body == [] || body[|body| - 1] != '-')
  {
    var body := TrimEndMatches(t, "-");
    var dashes := Repeat("-", TrimmedCount(t, "-"));
    TrimEndMatchesShape(t, "-");
    RepeatDashes(TrimmedCount(t, "-"));
    assert t[..|body|] == body;
    forall k | |body| <= k < |t| ensures t[k] == '-' {
      assert t[k] == dashes[k - |body|];
    }
    if body != [] {
      assert body[|body| - 1..] == [body[|body| - 1]];
    }
  }

  /** At an opener whose first closer is `q`, the shortest capture ends
      where the dashes before `q` begin. */
  lemma ShortestCapture(s: string, a: nat, b: nat, q: nat)
    requires BodyStart(s, a) == Some(b) && FindClose(s, b) == Some(q)
    ensures var body := TrimEndMatches(s[b..q], "-");
            && b + |body| <= q && s[b..b + |body|] == body
            && MatchAt(s, a, b, b + |body|, q)
            && forall b': nat, e': nat, q': nat :: MatchAt(s, a, b', e', q') ==> b + |body| <= e'
  {
    DashRun(s, b, q);
    var body := TrimEndMatches(s[b..q], "-");
    var e := b + |body|;
    assert e == b || s[e - 1] != '-';
    NoShorterCapture(s, a, b, q, e);
  }

  /** A capture ending at `e`, where no dash precedes `e`, is not longer
      than any capture of a match at `a`. */
  lemma NoShorterCapture(s: string, a: nat, b: nat, q: nat, e: nat)
    requires BodyStart(s, a) == Some(b) && FindClose(s, b) == Some(q)
    requires b <= e <= q && (e == b || s[e - 1] != '-')
    ensures forall b': nat, e': nat, q': nat :: MatchAt(s, a, b', e', q') ==> e <= e'
  {
    forall b': nat, e': nat, q': nat | MatchAt(s, a, b', e', q') ensures e <= e' {
      CaptureNotShorter(s, a, b, q, e, b', e', q');
    }
  }

  lemma CaptureNotShorter(s: string, a: nat, b: nat, q: nat, e: nat, b': nat, e': nat, q': nat)
    requires BodyStart(s, a) == Some(b) && FindClose(s, b) == Some(q)
    requires b <= e <= q && (e == b || s[e - 1] != '-')
    requires MatchAt(s, a, b', e', q')
    ensures e <= e'
  {
    assert b' == b;
    if q' != q {
      // the first closer lies inside the dash run of any later one
      assert q < q';
      assert s[q] == ']' by { assert s[q..q + |BlockClose|][0] == s[q]; }
      assert q < e';
    }
  }

  /** `n` copies of "-" are n dashes. */
  lemma {:induction false} RepeatDashes(n: nat)
    ensures |Repeat("-", n)| == n
    ensures forall k :: 0 <= k < n ==> Repeat("-", n)[k] == '-'
  {
    if n > 0 {
      RepeatDashes(n - 1);
    }
  }

  lemma LeftmostHere(s: string, from: nat, b: nat, q: nat)
    requires BodyStart(s, from) == Some(b) && FindClose(s, b) == Some(q)
    ensures var body := TrimEndMatches(s[b..q], "-");
            b + |body| <= q && s[b..b + |body|] == body && Leftmost(s, from, from, b, b + |body|, q)
  {
    ShortestCapture(s, from, b, q);
  }

  lemma NoMatchHere(s: string, from: nat)
    requires BodyStart(s, from).None? || FindClose(s, BodyStart(s, from).value).None?
    ensures forall b: nat, e: nat, q: nat :: !MatchAt(s, from, b, e, q)
  {
  }

  lemma LeftmostLater(s: string, from: nat, a: nat, b: nat, e: nat, q: nat)
    requires forall b: nat, e: nat, q: nat :: !MatchAt(s, from, b, e, q)
    requires Leftmost(s, from + 1, a, b, e, q)
    ensures Leftmost(s, from, a, b, e, q)
  {
    forall a': nat, b': nat, e': nat, q': nat | from <= a' && MatchAt(s, a', b', e', q')
      ensures a <= a' && (a' == a ==> e <= e')
    {
      assert a' != from;
    }
  }

  /** The scanner implements the pattern: it finds a block exactly when the
      pattern matches, and then yields the capture of the leftmost match
      with the shortest capture. */
  lemma {:induction false} FindBlockIsLeftmost(s: string, from: nat)
    ensures FindBlockFrom(s, from).None? ==>
              forall a: nat, b: nat, e: nat, q: nat :: from <= a ==> !MatchAt(s, a, b, e, q)
    ensures FindBlockFrom(s, from).Some? ==>
              exists a: nat, b: nat, e: nat, q: nat :: Leftmost(s, from, a, b, e, q) && FindBlockFrom(s, from).value == s[b..e]
    decreases |s| - from
  {
    if from >= |s| {
      forall a: nat, b: nat, e: nat, q: nat | from <= a ensures !MatchAt(s, a, b, e, q) {
        assert !HasAt(s, a, BlockOpen);
      }
    } else if BodyStart(s, from).Some? && FindClose(s, BodyStart(s, from).value).Some? {
      FoundHere(s, from);
    } else {
      FindBlockIsLeftmost(s, from + 1);
      FoundLater(s, from, from + 1);
    }
  }

  /** An opener at `from` with a closer after it is the leftmost match. */
  lemma FoundHere(s: string, from: nat)
    requires from < |s| && BodyStart(s, from).Some? && FindClose(s, BodyStart(s, from).value).Some?
    ensures FindBlockFrom(s, from).Some?
    ensures exists a: nat, b: nat, e: nat, q: nat :: Leftmost(s, from, a, b, e, q) && FindBlockFrom(s, from).value == s[b..e]
  {
    var b := BodyStart(s, from).value;
    var q := FindClose(s, b).value;
    var body := TrimEndMatches(s[b..q], "-");
    LeftmostHere(s, from, b, q);
    assert FindBlockFrom(s, from) == Some(body);
    assert Leftmost(s, from, from, b, b + |body|, q) && FindBlockFrom(s, from).value == s[b..b + |body|];
  }

  /** Without a match at `from`, scanning from `from` finds what scanning
      from the next position finds. */
  lemma FoundLater(s: string, from: nat, next: nat)
    requires from < |s| && (BodyStart(s, from).None? || FindClose(s, BodyStart(s, from).value).None?)
    requires next == from + 1
    requires FindBlockFrom(s, next).None? ==>
               forall a: nat, b: nat, e: nat, q: nat :: next <= a ==> !MatchAt(s, a, b, e, q)
    requires FindBlockFrom(s, next).Some? ==>
               exists a: nat, b: nat, e: nat, q: nat :: Leftmost(s, next, a, b, e, q) && FindBlockFrom(s, next).value == s[b..e]
    ensures FindBlockFrom(s, from).None? ==>
              forall a: nat, b: nat, e: nat, q: nat :: from <= a ==> !MatchAt(s, a, b, e, q)
    ensures FindBlockFrom(s, from).Some? ==>
              exists a: nat, b: nat, e: nat, q: nat :: Leftmost(s, from, a, b, e, q) && FindBlockFrom(s, from).value == s[b..e]
  {
    NoMatchHere(s, from);
    assert FindBlockFrom(s, from) == FindBlockFrom(s, next);
    if FindBlockFrom(s, from).None? {
      forall a: nat, b: nat, e: nat, q: nat | from <= a ensures !MatchAt(s, a, b, e, q) {
        if a != from {
          assert next <= a;
        }
      }
    } else {
      var a: nat, b: nat, e: nat, q: nat :|
        Leftmost(s, next, a, b, e, q) && FindBlockFrom(s, next).value == s[b..e];
      LeftmostLater(s, from, a, b, e, q);
      assert Leftmost(s, from, a, b, e, q) && FindBlockFrom(s, from).value == s[b..e];
    }
  }

  // ----- reading a script's metadata -----

  /** The outcome of decoding a block as a TOML document. */
  datatype Decoded = Decoded(info: InlineTaskInfo) | Malformed(message: string)

  /** The description given to a script whose block does not decode. */
  function FailedNote(message: string): string {
    "[failed to parse info: " + message + "]"
  }

  /** The metadata of a script from its contents: defaults without a block;
      a note in place of the description when the block does not decode. */
  function ScriptInfo(contents: string, decode: string -> Decoded): InlineTaskInfo {
    match ExtractBlock(contents)
    case None => EmptyInfo
    case Some(block) =>
      match decode(block)
      case Decoded(info) => info
      case Malformed(message) => InlineTaskInfo(None, Some(FailedNote(message)), None, [])
  }

  /** A script without a block is one visible task with every field at its
      default and no sub-task. */
  lemma NoBlockIsOneDefaultTask(contents: string, decode: string -> Decoded, name: string, path: Option<Path>)
    requires forall a: nat, b: nat, e: nat, q: nat :: !MatchAt(contents, a, b, e, q)
    ensures ScriptInfo(contents, decode) == EmptyInfo
    ensures Inserts(name, path, EmptyInfo, []) == [Entry(name, TaskInfo(None, None, path, []))]
  {
    FindBlockIsLeftmost(contents, 0);
  }

  /** A block that does not decode still gives one visible task, whose
      description carries the decoder's message and whose other fields are
      at their defaults. */
  lemma MalformedIsOneNotedTask(contents: string, decode: string -> Decoded, name: string, path: Option<Path>)
    requires ExtractBlock(contents).Some? && decode(ExtractBlock(contents).value).Malformed?
    ensures var message := decode(ExtractBlock(contents).value).message;
            var info := ScriptInfo(contents, decode);
            && !Hidden(info) && info.args.None? && info.tasks == []
            && info.about == Some("[failed to parse info: " + message + "]")
            && Inserts(name, path, info, []) == [Entry(name, TaskInfo(None, info.about, path, []))]
  {
  }

  /** `get_base_script_info`: reading the script is the only thing that can
      fail; a missing or malformed block is never an error. */
  function GetBaseScriptInfo(fs: FileSystem, path: Path, decode: string -> Decoded): (r: Result<InlineTaskInfo>)
    ensures r.Err? <==> ReadFile(fs, path).Err?
    ensures r.Ok? ==> r.value == ScriptInfo(fs.nodes[path].contents, decode)
  {
    match ReadFile(fs, path)
    case Err(e) => Err(e)
    case Ok(contents) => Ok(ScriptInfo(contents, decode))
  }

  /** `e` is one of the records derived from the top-level task `name`. */
  ghost predicate SeededBy(fs: FileSystem, decode: string -> Decoded, tasks: map<string, Path>,
                           name: string, e: Entry<TaskInfo>)
  {
    && name in tasks
    && GetBaseScriptInfo(fs, tasks[name], decode).Ok?
    && e in Inserts(name, Some(tasks[name]), GetBaseScriptInfo(fs, tasks[name], decode).value, [])
  }

  /** What `get_task_infos` has established once the tasks outside
      `remaining` are visited: each of them was read, each record comes from
      one of them, and each that is not hidden has its own record. */
  ghost predicate Gathered(fs: FileSystem, decode: string -> Decoded, tasks: map<string, Path>,
                           remaining: set<string>, m: map<string, TaskInfo>)
  {
    && remaining <= tasks.Keys
    && (forall name :: name in tasks && name !in remaining ==> ReadFile(fs, tasks[name]).Ok?)
    && (forall k :: k in m ==> exists name :: name !in remaining && SeededBy(fs, decode, tasks, name, Entry(k, m[k])))
    && (forall name :: (name in tasks && name !in remaining
          && !Hidden(GetBaseScriptInfo(fs, tasks[name], decode).value)) ==> name in m)
  }

  /** Visiting one more readable task keeps `Gathered`. */
  lemma GatherStep(fs: FileSystem, decode: string -> Decoded, tasks: map<string, Path>,
                   remaining: set<string>, name: string, before: map<string, TaskInfo>)
    requires Gathered(fs, decode, tasks, remaining, before)
    requires name in remaining && GetBaseScriptInfo(fs, tasks[name], decode).Ok?
    ensures Gathered(fs, decode, tasks, remaining - {name},
                     InsertAll(before, Inserts(name, Some(tasks[name]), GetBaseScriptInfo(fs, tasks[name], decode).value, [])))
  {
    var info := GetBaseScriptInfo(fs, tasks[name], decode).value;
    var ins := Inserts(name, Some(tasks[name]), info, []);
    var after := InsertAll(before, ins);
    InsertAllKeys(before, ins);
    forall k | k in after
      ensures exists n :: n !in remaining - {name} && SeededBy(fs, decode, tasks, n, Entry(k, after[k]))
    {
      InsertAllOrigin(before, ins, k);
      if Entry(k, after[k]) in ins {
        assert SeededBy(fs, decode, tasks, name, Entry(k, after[k]));
      } else {
        var n :| n !in remaining && SeededBy(fs, decode, tasks, n, Entry(k, before[k]));
        assert n !in remaining - {name};
      }
    }
    if !Hidden(info) {
      assert ins[0].key == name;
      InsertedKeysAt(ins, 0);
    }
  }

  /** `get_task_infos`: flatten every discovered script's metadata, seeded
      with the script's path and no fixed arguments, into one table. The
      tasks are visited in the table's own unspecified order. */
  method GetTaskInfos(tasks: map<string, Path>, fs: FileSystem, decode: string -> Decoded)
    returns (r: Result<map<string, TaskInfo>>)
    ensures r.Err? <==> exists name :: name in tasks && ReadFile(fs, tasks[name]).Err?
    ensures r.Err? ==> exists name :: name in tasks && ReadFile(fs, tasks[name]) == Err(r.error)
    ensures r.Ok? ==> forall k :: k in r.value ==> exists name :: SeededBy(fs, decode, tasks, name, Entry(k, r.value[k]))
    ensures r.Ok? ==> forall name :: name in tasks && !Hidden(GetBaseScriptInfo(fs, tasks[name], decode).value) ==>
              name in r.value
  {
    var infos := new Table<TaskInfo>();
    var remaining := tasks.Keys;
    while remaining != {}
      invariant Gathered(fs, decode, tasks, remaining, infos.entries)
      decreases remaining
    {
      var name :| name in remaining;
      var info := GetBaseScriptInfo(fs, tasks[name], decode);
      if info.Err? {
        assert ReadFile(fs, tasks[name]).Err?;
        return Err(info.error);
      }
      ghost var before := infos.entries;
      AddInlineTask(infos, name, Some(tasks[name]), info.value, []);
      GatherStep(fs, decode, tasks, remaining, name, before);
      remaining := remaining - {name};
    }
    r := Ok(infos.entries);
  }
}
