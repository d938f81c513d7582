/** The commit-hash resolver (repo_hash.rs): validation and extraction of a
    40-character commit hash, the persistent hash cache and the decision
    between the online answer and the cached one. */
module RepoHash {
  import opened Outcomes
  import opened Text
  import opened Process
  import opened ConfigRecords

  predicate IsLowerHex(c: char) {
    ('0' <= c <= '9') || ('a' <= c <= 'f')
  }

  /** The number of whitespace characters `s` starts with. */
  function LeadingWhitespace(s: string): (n: nat)
    ensures n <= |s| && AllWhitespace(s[..n])
    ensures n < |s| ==> !IsWhitespace(s[n])
  {
    var t := TrimStart(s);
    assert t == s[|s| - |t|..];
    assert t != [] ==> s[|s| - |t|] == t[0];
    |s| - |t|
  }

  /** The hash pattern `^\s*([a-f0-9]{40}).*\s*$` (`.` excludes the line
      break, `$` is the end of the text) matches `s` with the forty hex
      characters at `w` and the trailing whitespace starting at `k`. */
  ghost predicate PatternMatchesAt(s: string, w: int, k: int) {
    && 0 <= w && w + 40 <= k <= |s|
    && AllWhitespace(s[..w])
    && (forall i :: w <= i < w + 40 ==> IsLowerHex(s[i]))
    && (forall i :: w + 40 <= i < k ==> s[i] != '\n')
    && AllWhitespace(s[k..])
  }

  ghost predicate PatternMatches(s: string) {
    exists w, k :: PatternMatchesAt(s, w, k)
  }

  /** Matching the pattern and taking its capture group: the forty hex
      characters that follow the leading whitespace, provided nothing after
      them but trailing whitespace contains a line break. */
  function HashCapture(s: string): Option<string> {
    var w := LeadingWhitespace(s);
    if w + 40 <= |s| && (forall i :: w <= i < w + 40 ==> IsLowerHex(s[i]))
       && '\n' !in TrimEnd(s[w + 40..])
    then Some(s[w..w + 40])
    else None
  }

  /** `HashCapture` is the pattern: it succeeds exactly when the pattern
      matches, and then yields the capture of every match. */
  lemma HashCaptureIsPattern(s: string)
    ensures HashCapture(s).Some? <==> PatternMatches(s)
    ensures forall w, k :: PatternMatchesAt(s, w, k) ==> HashCapture(s) == Some(s[w..w + 40])
  {
    if HashCapture(s).Some? {
      CaptureIsMatch(s);
    }
    forall w, k | PatternMatchesAt(s, w, k) ensures HashCapture(s) == Some(s[w..w + 40]) {
      MatchIsCapture(s, w, k);
    }
  }

  /** A capture comes from a match: the leading whitespace, the hash, the
      rest of its line, the trailing whitespace. */
  lemma CaptureIsMatch(s: string)
    requires HashCapture(s).Some?
    ensures PatternMatchesAt(s, LeadingWhitespace(s), LeadingWhitespace(s) + 40 + |TrimEnd(s[LeadingWhitespace(s) + 40..])|)
  {
    var L := LeadingWhitespace(s);
    CaptureAtLeading(s);
    var rest := s[L + 40..];
    var t := TrimEnd(rest);
    var k := L + 40 + |t|;
    assert '\n' !in t;
    assert AllWhitespace(s[k..]) by {
      assert s[k..] == rest[|t|..];
    }
    assert t == s[L + 40..k] by {
      assert rest[..|t|] == s[L + 40..k];
    }
    SliceAvoids(s, L + 40, t, '\n');
  }

  /** A character missing from a slice is missing at each of its indices. */
  lemma SliceAvoids(s: string, from: nat, t: string, c: char)
    requires from + |t| <= |s| && t == s[from..from + |t|] && c !in t
    ensures forall i :: from <= i < from + |t| ==> s[i] != c
  {
    forall i | from <= i < from + |t| ensures s[i] != c {
      assert s[i] == t[i - from];
    }
  }

  /** Every match is captured, at the hash it places. */
  lemma MatchIsCapture(s: string, w: int, k: int)
    requires PatternMatchesAt(s, w, k)
    ensures HashCapture(s) == Some(s[w..w + 40])
  {
    MatchStartsAfterWhitespace(s, w, k);
    assert '\n' !in TrimEnd(s[w + 40..]) by {
      var rest := s[w + 40..];
      var t := TrimEnd(rest);
      assert rest[k - w - 40..] == s[k..];
      TrimEndWithin(rest, k - w - 40);
      forall i | 0 <= i < |t| ensures t[i] != '\n' {
        assert t[i] == rest[i] == s[w + 40 + i];
      }
    }
  }

  /** In every match the forty hex characters start right after the leading
      whitespace. */
  lemma MatchStartsAfterWhitespace(s: string, w: int, k: int)
    requires PatternMatchesAt(s, w, k)
    ensures w == LeadingWhitespace(s)
  {
    assert !IsWhitespace(s[w]);
    TrimStartStopsAt(s, w);
  }

  /** A capture is forty lowercase hex characters. */
  lemma HashCaptureShape(s: string)
    requires HashCapture(s).Some?
    ensures |HashCapture(s).value| == 40
    ensures forall i :: 0 <= i < 40 ==> IsLowerHex(HashCapture(s).value[i])
  {
    var w := LeadingWhitespace(s);
    forall i | 0 <= i < 40 ensures IsLowerHex(HashCapture(s).value[i]) {
      assert HashCapture(s).value[i] == s[w + i];
    }
  }

  /** A capture is the forty hex characters after the leading whitespace,
      with no line break before the trailing whitespace. */
  lemma CaptureAtLeading(s: string)
    requires HashCapture(s).Some?
    ensures var w := LeadingWhitespace(s);
            && w + 40 <= |s| && HashCapture(s).value == s[w..w + 40]
            && (forall i :: w <= i < w + 40 ==> IsLowerHex(s[i]))
            && '\n' !in TrimEnd(s[w + 40..])
  {
  }

  /** `TrimStart` drops exactly the leading whitespace. */
  lemma TrimStartFrom(s: string)
    ensures TrimStart(s) == s[LeadingWhitespace(s)..]
  {
  }

  lemma PrefixSlice(s: string, w: nat, n: nat)
    requires w + n <= |s|
    ensures |s[w..w + n]| == n && StartsWith(s[w..], s[w..w + n])
  {
    assert s[w..][..n] == s[w..w + n];
  }

  /** Fewer than forty characters never match. */
  lemma ShortHashRejected(s: string)
    requires |s| < 40
    ensures HashCapture(s).None?
  {
  }

  /** A hash whose first non-blank character is an uppercase hex digit never
      matches. */
  lemma UppercaseHashRejected(s: string)
    requires LeadingWhitespace(s) < |s| && 'A' <= s[LeadingWhitespace(s)] <= 'F'
    ensures HashCapture(s).None?
  {
  }

  /** What the pattern does accept: forty lowercase hex characters followed
      by any text without a line break, so a longer hex string passes too. */
  lemma HexPrefixAccepted(h: string, tail: string)
    requires |h| == 40 && forall i :: 0 <= i < 40 ==> IsLowerHex(h[i])
    requires '\n' !in tail
    ensures HashCapture(h + tail) == Some(h)
  {
    var s := h + tail;
    assert AllWhitespace(s[..0]);
    assert !IsWhitespace(s[0]);
    TrimStartStopsAt(s, 0);
    assert LeadingWhitespace(s) == 0;
    assert s[40..] == tail;
    assert s[0..40] == h;
    assert forall i :: 0 <= i < 40 ==> IsLowerHex(s[i]);
    var t := TrimEnd(tail);
    assert t == tail[..|t|];
    assert '\n' !in t;
  }

  /** The error for an explicit hash the pattern rejects. */
  function InvalidHashError(h: string): Error {
    Fail("Invalid hash: " + h + "; expected full 40-character hash")
  }

  /** The error for an `ls-remote` output without a hash line. */
  function NoResultsError(url: string, tag: string): Error {
    Fail("Failed to fetch repo hash online;\nno results for 'git ls-remote " + url + " " + tag + "'")
  }

  /** `fetch_repo_hash_online`. An explicit hash is validated and returned
      as written (the whole string, not the capture) without running git;
      otherwise `lsRemote` is the outcome of `git ls-remote <url> <tag>` and
      the hash is the capture of its standard output. */
  function FetchRepoHashOnline(info: RepoConfig, lsRemote: Outcome): (r: Result<string>)
    ensures info.hash.Some? ==>
              && (r.Ok? <==> PatternMatches(info.hash.value))
              && (r.Ok? ==> r.value == info.hash.value)
              && (r.Err? ==> r.error == InvalidHashError(info.hash.value))
    ensures info.hash.None? && Run(lsRemote).Err? ==> r == Err(Run(lsRemote).error)
    ensures info.hash.None? && Run(lsRemote).Ok? ==>
              && (r.Ok? <==> PatternMatches(lsRemote.output.stdout))
              && (r.Ok? ==> |r.value| == 40 && StartsWith(TrimStart(lsRemote.output.stdout), r.value))
              && (r.Err? ==> r.error == NoResultsError(info.url, TagOrHead(info.tag)))
  {
    if info.hash.Some? then
      HashCaptureIsPattern(info.hash.value);
      if HashCapture(info.hash.value).None? then Err(InvalidHashError(info.hash.value))
      else Ok(info.hash.value)
    else
      match Run(lsRemote)
      case Err(e) => Err(e)
      case Ok(out) =>
        HashCaptureIsPattern(out.stdout);
        match HashCapture(out.stdout)
        case None => Err(NoResultsError(info.url, TagOrHead(info.tag)))
        case Some(h) =>
          CaptureAtLeading(out.stdout);
          TrimStartFrom(out.stdout);
          PrefixSlice(out.stdout, LeadingWhitespace(out.stdout), 40);
          Ok(h)
  }

  /** The cache key of a repository reference: "{tag or HEAD} on {url}". */
  function CacheKey(info: RepoConfig): string {
    TagOrHead(info.tag) + " on " + info.url
  }

  /** Git tag names contain no space, and for such tags the key tells
      references with different tags or urls apart. */
  lemma CacheKeyInjective(a: RepoConfig, b: RepoConfig)
    requires ' ' !in TagOrHead(a.tag) && ' ' !in TagOrHead(b.tag)
    requires CacheKey(a) == CacheKey(b)
    ensures TagOrHead(a.tag) == TagOrHead(b.tag) && a.url == b.url
  {
    var ta, tb := TagOrHead(a.tag), TagOrHead(b.tag);
    var ka, kb := CacheKey(a), CacheKey(b);
    FirstSpace(ta, a.url);
    FirstSpace(tb, b.url);
    assert |ta| == |tb|;
    assert ta == ka[..|ta|] && tb == kb[..|tb|];
    assert a.url == ka[|ta| + 4..] && b.url == kb[|tb| + 4..];
  }

  /** In a key built from a space-free tag, the first space ends the tag. */
  lemma FirstSpace(t: string, url: string)
    ensures ' ' !in t ==> var key := t + " on " + url;
              key[|t|] == ' ' && forall i :: 0 <= i < |t| ==> key[i] != ' '
  {
  }

  /** The state of `repo_hash_cache.json`: absent, unreadable, not decodable,
      or a decoded cache. */
  datatype CacheFile = Missing | Unreadable | Garbled | Stored(repos: map<string, string>)

  /** `try_read_hash_cache`: a missing file is `None`, an undecodable one too;
      only a failing read is an error. */
  function ReadCache(f: CacheFile): (r: Result<Option<map<string, string>>>)
    ensures r.Err? <==> f.Unreadable?
    ensures r.Ok? ==> (r.value.Some? <==> f.Stored?)
  {
    match f
    case Missing => Ok(None)
    case Unreadable => Err(Fail("Permission denied"))
    case Garbled => Ok(None)
    case Stored(m) => Ok(Some(m))
  }

  /** The cache as read, with a missing or undecodable file as empty. */
  function CacheEntries(f: CacheFile): map<string, string>
    requires !f.Unreadable?
  {
    ReadCache(f).value.GetOr(map[])
  }

  /** The cached hash for a reference. */
  function CachedValue(f: CacheFile, info: RepoConfig): Option<string>
    requires !f.Unreadable?
  {
    var m := CacheEntries(f);
    if CacheKey(info) in m then Some(m[CacheKey(info)]) else None
  }

  /** The cache file after `add_one_to_hash_cache` succeeds. */
  function AfterAdd(f: CacheFile, info: RepoConfig, hash: string): CacheFile
    requires !f.Unreadable?
  {
    Stored(CacheEntries(f)[CacheKey(info) := hash])
  }

  /** The function that reads and the function that writes use the same key:
      what is added is what is read back, and every other key keeps its value. */
  lemma AddThenRead(f: CacheFile, info: RepoConfig, hash: string, other: RepoConfig)
    requires !f.Unreadable?
    ensures CachedValue(AfterAdd(f, info, hash), info) == Some(hash)
    ensures CacheKey(other) != CacheKey(info) ==>
              CachedValue(AfterAdd(f, info, hash), other) == CachedValue(f, other)
  {
  }

  /** The message added when neither the online lookup nor the cache gives
      a hash. */
  const NoHashContext := "Could not fetch hash online or from local cache"

  /** `fetch_repo_hash`'s answer: the online answer wins; without one the
      cached value is used. An explicit hash is treated as the online answer,
      so a rejected one can still fall back to the cache. A failing cache
      read is an error even when the online answer succeeded. */
  function ResolveHash(f: CacheFile, info: RepoConfig, lsRemote: Outcome): (r: Result<string>)
    ensures f.Unreadable? ==> r.Err?
    ensures !f.Unreadable? ==>
      var online := FetchRepoHashOnline(info, lsRemote);
      var cached := CachedValue(f, info);
      && (online.Ok? ==> r == Ok(online.value))
      && (online.Err? && cached.Some? ==> r == Ok(cached.value))
      && (online.Err? && cached.None? ==> r == Err(online.error.WithContext(NoHashContext)))
  {
    match ReadCache(f)
    case Err(e) => Err(e)
    case Ok(_) =>
      var online := FetchRepoHashOnline(info, lsRemote);
      var cached := CachedValue(f, info);
      if online.Ok? then Ok(online.value)
      else if cached.Some? then Ok(cached.value)
      else Err(online.error.WithContext(NoHashContext))
  }

  /** The cache file after `fetch_repo_hash`: refreshed only when the online
      answer exists, differs from the cached one and the write succeeds. */
  function CacheAfterResolve(f: CacheFile, info: RepoConfig, lsRemote: Outcome, writable: bool): (g: CacheFile)
    ensures f.Unreadable? ==> g == f
    ensures !f.Unreadable? ==>
      var online := FetchRepoHashOnline(info, lsRemote);
      && (online.Ok? && CachedValue(f, info) != Some(online.value) && writable ==>
            g == AfterAdd(f, info, online.value))
      && (!(online.Ok? && CachedValue(f, info) != Some(online.value) && writable) ==> g == f)
  {
    if f.Unreadable? then f
    else
      var online := FetchRepoHashOnline(info, lsRemote);
      if online.Ok? && CachedValue(f, info) != Some(online.value) && writable
      then AfterAdd(f, info, online.value)
      else f
  }

  /** Once a hash has been resolved online into a writable cache, a later
      resolution of the same reference whose online lookup fails yields the
      same hash from the cache. */
  lemma OfflineRepeatsOnline(f: CacheFile, info: RepoConfig, lsRemote: Outcome, later: Outcome)
    requires !f.Unreadable?
    requires FetchRepoHashOnline(info, lsRemote).Ok?
    requires FetchRepoHashOnline(info, later).Err?
    ensures var g := CacheAfterResolve(f, info, lsRemote, true);
            ResolveHash(g, info, later) == ResolveHash(f, info, lsRemote)
  {
    var h := FetchRepoHashOnline(info, lsRemote).value;
    if CachedValue(f, info) != Some(h) {
      AddThenRead(f, info, h, info);
    }
  }

  /** Resolving never removes a reference from the cache and never changes
      the entry of a reference with another key. */
  lemma ResolveKeepsOtherEntries(f: CacheFile, info: RepoConfig, lsRemote: Outcome, writable: bool,
                                 other: RepoConfig)
    requires !f.Unreadable?
    requires CacheKey(other) != CacheKey(info)
    ensures CachedValue(CacheAfterResolve(f, info, lsRemote, writable), other) == CachedValue(f, other)
  {
    var online := FetchRepoHashOnline(info, lsRemote);
    if online.Ok? && CachedValue(f, info) != Some(online.value) && writable {
      AddThenRead(f, info, online.value, other);
    }
  }

  /** The persisted hash cache. `writable` says whether writing the file
      succeeds. */
  class HashCache {
    var file: CacheFile
    const writable: bool

    constructor (initial: CacheFile, canWrite: bool)
      ensures file == initial && writable == canWrite
    {
      file := initial;
      writable := canWrite;
    }

    /** `fetch_repo_hash_cached`. */
    method FetchCached(info: RepoConfig) returns (r: Result<Option<string>>)
      ensures r.Err? <==> file.Unreadable?
      ensures r.Err? ==> r.error == ReadCache(file).error
      ensures r.Ok? ==> (r.value.Some? <==> file.Stored? && CacheKey(info) in file.repos)
      ensures r.Ok? && r.value.Some? ==> r.value.value == file.repos[CacheKey(info)]
    {
      var read := ReadCache(file);
      if read.Err? {
        return Err(read.error);
      }
      var cache := read.value.GetOr(map[]);
      var key := TagOrHead(info.tag) + " on " + info.url;
      if key in cache {
        r := Ok(Some(cache[key]));
      } else {
        r := Ok(None);
      }
    }

    /** `add_one_to_hash_cache`: read, set this reference's key, write. */
    method AddOne(info: RepoConfig, hash: string) returns (r: Result<Unit>)
      modifies this
      ensures r.Ok? <==> !old(file).Unreadable? && writable
      ensures r.Ok? ==> file == AfterAdd(old(file), info, hash)
      ensures r.Err? ==> file == old(file)
    {
      var read := ReadCache(file);
      if read.Err? {
        return Err(read.error);
      }
      var cache := read.value.GetOr(map[]);
      var key := TagOrHead(info.tag) + " on " + info.url;
      cache := cache[key := hash];
      if !writable {
        return Err(Fail("Permission denied"));
      }
      file := Stored(cache);
      r := Ok(Unit);
    }

    /** `fetch_repo_hash`: resolve, and refresh the cache when the online
        answer differs from it. A failed cache update is ignored. */
    method FetchRepoHash(info: RepoConfig, lsRemote: Outcome) returns (r: Result<string>)
      modifies this
      ensures r == ResolveHash(old(file), info, lsRemote)
      ensures file == CacheAfterResolve(old(file), info, lsRemote, writable)
    {
      var online := FetchRepoHashOnline(info, lsRemote);
      var cached := FetchCached(info);
      if cached.Err? {
        return Err(cached.error);
      }
      var cachedHash := cached.value;
      if online.Ok? {
        if Some(online.value) != cachedHash {
          var written := AddOne(info, online.value);
          // A failed cache update is reported and ignored.
        }
        return Ok(online.value);
      }
      if cachedHash.Some? {
        return Ok(cachedHash.value);
      }
      r := Err(online.error.WithContext(NoHashContext));
    }
  }
}
