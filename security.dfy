/** The trust store (security.rs): a persisted set of trusted subject names,
    and the decision whether to trust a new subject. */
module Security {
  import opened Outcomes
  import opened Text

  /** The state of the trust file on disk: absent, present but unreadable,
      present but not a valid trust record, or a valid record. */
  datatype TrustFile = Missing | Unreadable | Corrupt | Stored(trusted: set<string>)

  /** The names an intact store holds; a missing or corrupt file holds none. */
  function TrustedNames(f: TrustFile): set<string> {
    if f.Stored? then f.trusted else {}
  }

  /** `read_trust_file`: a missing file and an undecodable one both read as
      the empty store; only a failing read is an error. */
  function ReadTrustFile(f: TrustFile): (r: Result<set<string>>)
    ensures r.Err? <==> f.Unreadable?
    ensures r.Ok? ==> r.value == TrustedNames(f)
  {
    match f
    case Missing => Ok({})
    case Unreadable => Err(StoreDenied)
    case Corrupt => Ok({})
    case Stored(s) => Ok(s)
  }

  /** `is_trusted`: a read error counts as the empty store. */
  predicate IsTrusted(f: TrustFile, name: string) {
    var read := ReadTrustFile(f);
    read.Ok? && name in read.value
  }

  /** A name is trusted exactly when an intact store holds it; a missing,
      unreadable or corrupt file trusts nothing. */
  lemma IsTrustedIffStored(f: TrustFile, name: string)
    ensures IsTrusted(f, name) <==> f.Stored? && name in f.trusted
  {
  }

  /** The trust file after `trust(name)` succeeds. */
  function AfterTrust(f: TrustFile, name: string): TrustFile
    requires !f.Unreadable?
  {
    Stored(ReadTrustFile(f).value + {name})
  }

  /** `trust` inserts the name and keeps every name the store held. */
  lemma TrustInsertsAndKeeps(f: TrustFile, name: string)
    requires !f.Unreadable?
    ensures TrustedNames(AfterTrust(f, name)) == TrustedNames(f) + {name}
    ensures IsTrusted(AfterTrust(f, name), name)
    ensures forall other :: IsTrusted(f, other) ==> IsTrusted(AfterTrust(f, name), other)
  {
  }

  /** Trusting twice is the same as trusting once. */
  lemma TrustIdempotent(f: TrustFile, name: string)
    requires !f.Unreadable?
    ensures AfterTrust(AfterTrust(f, name), name) == AfterTrust(f, name)
  {
  }

  /** A corrupt file is replaced by a store holding just the new name. */
  lemma TrustReplacesCorrupt(name: string)
    ensures AfterTrust(Corrupt, name) == Stored({name})
  {
  }

  /** The user's answer accepts when, trimmed, it is one character that
      lower-cases to 'y'. */
  predicate Accepted(answer: string) {
    var t := Trim(answer);
    |t| == 1 && LowerChar(t[0]) == 'y'
  }

  /** `Accepted` is the comparison the program makes: the trimmed,
      lower-cased answer equals "y". */
  lemma AcceptedIsLowercaseY(answer: string)
    ensures Accepted(answer) <==> ToLower(Trim(answer)) == "y"
  {
    var t := Trim(answer);
    if |t| == 1 {
      assert ToLower(t) == [LowerChar(t[0])];
    }
  }

  /** The accepted answers are exactly "y" and "Y" surrounded by whitespace. */
  lemma AcceptedIff(answer: string)
    ensures Accepted(answer) <==> Trim(answer) == "y" || Trim(answer) == "Y"
  {
    ToLowerIsY(Trim(answer));
  }

  /** "y" or "Y" with any whitespace around it (a line break included) is
      accepted: "Y" and " y\n" pass. */
  lemma AcceptsPaddedY(pre: string, c: char, post: string)
    requires AllWhitespace(pre) && AllWhitespace(post)
    requires c == 'y' || c == 'Y'
    ensures Accepted(pre + [c] + post)
  {
    TrimPadded(pre, [c], post);
    AcceptedIff(pre + [c] + post);
  }

  /** An answer that does not trim to exactly one character is declined:
      "yes" and the empty answer read at end of input do not pass. */
  lemma DeclinesOtherLengths(answer: string)
    requires |Trim(answer)| != 1
    ensures !Accepted(answer)
  {
  }

  /** Standard input, as the lines still to be read. */
  class Console {
    var input: seq<string>

    constructor (lines: seq<string>)
      ensures input == lines
    {
      input := lines;
    }

    /** `read_line`: the next line, or "" at end of input. */
    method ReadLine() returns (line: string)
      modifies this
      ensures old(input) == [] ==> line == "" && input == []
      ensures old(input) != [] ==> line == old(input)[0] && input == old(input)[1..]
    {
      if input == [] {
        line := "";
      } else {
        line := input[0];
        input := input[1..];
      }
    }
  }

  /** The next answer the console will give. */
  function NextAnswer(input: seq<string>): string {
    if input == [] then "" else input[0]
  }

  function AfterRead(input: seq<string>): seq<string> {
    if input == [] then [] else input[1..]
  }

  /** The error of a trust file that cannot be read or written. */
  const StoreDenied := Fail("Permission denied")

  /** The answer `prompt_for_trust` gives for `name`: yes at once when it is
      already trusted; otherwise, when the trust-new flag is set or the next
      answer accepts, yes once the name is stored, or the store's error; no
      for any other answer. */
  function TrustAnswer(f: TrustFile, name: string, trustNew: bool, input: seq<string>, writable: bool)
    : (r: Result<bool>)
    ensures r == Ok(true) <==>
              IsTrusted(f, name) || ((trustNew || Accepted(NextAnswer(input))) && !f.Unreadable? && writable)
    ensures r == Ok(false) <==> !IsTrusted(f, name) && !trustNew && !Accepted(NextAnswer(input))
    ensures r.Err? ==> r.error == StoreDenied
  {
    if IsTrusted(f, name) then Ok(true)
    else if !trustNew && !Accepted(NextAnswer(input)) then Ok(false)
    else if f.Unreadable? || !writable then Err(StoreDenied)
    else Ok(true)
  }

  /** The trust file after that prompt: the name is stored when the answer
      is yes and it was not trusted before; otherwise nothing changes. */
  function FileAfterPrompt(f: TrustFile, name: string, trustNew: bool, input: seq<string>, writable: bool)
    : (r: TrustFile)
    ensures r != f ==> !f.Unreadable? && r == AfterTrust(f, name)
    ensures TrustAnswer(f, name, trustNew, input, writable) == Ok(true) ==> IsTrusted(r, name)
  {
    if TrustAnswer(f, name, trustNew, input, writable) == Ok(true) && !IsTrusted(f, name)
    then AfterTrust(f, name) else f
  }

  /** The lines left after that prompt: one answer is read unless the name
      is trusted already or the trust-new flag is set. */
  function InputAfterPrompt(f: TrustFile, name: string, trustNew: bool, input: seq<string>): seq<string> {
    if IsTrusted(f, name) || trustNew then input else AfterRead(input)
  }

  /** The persisted trust store. `writable` says whether writing the file
      succeeds. */
  class TrustStore {
    var file: TrustFile
    const writable: bool

    constructor (initial: TrustFile, canWrite: bool)
      ensures file == initial && writable == canWrite
    {
      file := initial;
      writable := canWrite;
    }

    /** `trust`: read, insert, write. A failing read or write is an error and
        leaves the file as it was. */
    method Trust(name: string) returns (r: Result<Unit>)
      modifies this
      ensures r.Ok? <==> !old(file).Unreadable? && writable
      ensures r.Ok? ==> file == AfterTrust(old(file), name)
      ensures r.Err? ==> file == old(file) && r.error == StoreDenied
    {
      var read := ReadTrustFile(file);
      if read.Err? {
        return Err(read.error);
      }
      var updated := read.value + {name};
      if !writable {
        return Err(StoreDenied);
      }
      file := Stored(updated);
      r := Ok(Unit);
    }

    /** `prompt_for_trust`: an already trusted name is accepted at once; with
        the trust-new flag a new name is trusted without asking; otherwise
        one answer is read and only an accepted answer records trust. The
        query is only displayed, so the model ignores it. */
    method PromptForTrust(name: string, query: string, trustNew: bool, console: Console)
      returns (r: Result<bool>)
      modifies this, console
      ensures IsTrusted(old(file), name) ==>
                r == Ok(true) && file == old(file) && console.input == old(console.input)
      ensures !IsTrusted(old(file), name) && trustNew ==>
                && console.input == old(console.input)
                && (r.Ok? <==> !old(file).Unreadable? && writable)
                && (r.Ok? ==> r.value && file == AfterTrust(old(file), name))
      ensures !IsTrusted(old(file), name) && !trustNew ==>
                && console.input == AfterRead(old(console.input))
                && (!Accepted(NextAnswer(old(console.input))) ==> r == Ok(false))
                && (Accepted(NextAnswer(old(console.input))) ==>
                      && (r.Ok? <==> !old(file).Unreadable? && writable)
                      && (r.Ok? ==> r.value && file == AfterTrust(old(file), name)))
      ensures r == TrustAnswer(old(file), name, trustNew, old(console.input), writable)
      ensures file == FileAfterPrompt(old(file), name, trustNew, old(console.input), writable)
      ensures console.input == InputAfterPrompt(old(file), name, trustNew, old(console.input))
      ensures r != Ok(true) ==> file == old(file)
      ensures r == Ok(true) ==> IsTrusted(file, name)
      ensures TrustedNames(old(file)) <= TrustedNames(file)
    {
      if IsTrusted(file, name) {
        return Ok(true);
      }
      if trustNew {
        var t := Trust(name);
        if t.Err? {
          return Err(t.error);
        }
        return Ok(true);
      }
      var answer := console.ReadLine();
      if Accepted(answer) {
        var t := Trust(name);
        if t.Err? {
          return Err(t.error);
        }
        r := Ok(true);
      } else {
        r := Ok(false);
      }
    }
  }
}
