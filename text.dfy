/** String helpers with the behaviour of the Rust standard library calls the
    program relies on: Unicode whitespace (`char::is_whitespace`, also what the
    regular expression class `\s` matches), `str::trim`, lower-casing,
    `str::trim_end_matches` and the decimal rendering of an integer. */
module Text {

  /** The Unicode White_Space property. */
  predicate IsWhitespace(c: char) {
    || ('\t' <= c <= '\r')
    || c == ' '
    || c == '\U{0085}'
    || c == '\U{00A0}'
    || c == '\U{1680}'
    || ('\U{2000}' <= c <= '\U{200A}')
    || c == '\U{2028}'
    || c == '\U{2029}'
    || c == '\U{202F}'
    || c == '\U{205F}'
    || c == '\U{3000}'
  }

  predicate AllWhitespace(s: string) {
    forall i :: 0 <= i < |s| ==> IsWhitespace(s[i])
  }

  function TrimStart(s: string): (r: string)
    ensures |r| <= |s| && r == s[|s| - |r|..]
    ensures AllWhitespace(s[..|s| - |r|])
    ensures r != [] ==> !IsWhitespace(r[0])
  {
    if s != [] && IsWhitespace(s[0]) then
      var r := TrimStart(s[1..]);
      TrimStartStep(s, r);
      r
    else
      assert s[..0] == [];
      s
  }

  function TrimEnd(s: string): (r: string)
    ensures |r| <= |s| && r == s[..|r|]
    ensures AllWhitespace(s[|r|..])
    ensures r != [] ==> !IsWhitespace(r[|r| - 1])
  {
    if s != [] && IsWhitespace(s[|s| - 1]) then
      var r := TrimEnd(s[..|s| - 1]);
      assert s[..|s| - 1][..|r|] == s[..|r|];
      WhitespaceSuffixSnoc(s, |r|);
      r
    else
      s
  }

  /** A whitespace character in front of what `TrimStart` removes from the
      rest is removed with it. */
  lemma TrimStartStep(s: string, r: string)
    requires s != [] && IsWhitespace(s[0])
    requires |r| <= |s[1..]| && r == s[1..][|s[1..]| - |r|..]
    requires AllWhitespace(s[1..][..|s[1..]| - |r|])
    ensures |r| <= |s| && r == s[|s| - |r|..]
    ensures AllWhitespace(s[..|s| - |r|])
  {
    var m := |s| - |r|;
    assert s[1..][m - 1..] == s[m..];
    forall i | 0 <= i < m ensures IsWhitespace(s[..m][i]) {
      if i > 0 {
        assert s[..m][i] == s[1..][..m - 1][i - 1];
      }
    }
  }

  /** A whitespace run followed by a whitespace character. */
  lemma WhitespaceSuffixSnoc(s: string, k: nat)
    requires k < |s| && IsWhitespace(s[|s| - 1]) && AllWhitespace(s[..|s| - 1][k..])
    ensures AllWhitespace(s[k..])
  {
    forall i | 0 <= i < |s| - k ensures IsWhitespace(s[k..][i]) {
      if i < |s| - 1 - k {
        assert s[k..][i] == s[..|s| - 1][k..][i];
      }
    }
  }

  /** `str::trim`: strips leading and trailing whitespace. */
  function Trim(s: string): string {
    TrimEnd(TrimStart(s))
  }

  /** Whitespace in front of a string that starts with a non-whitespace
      character is exactly what `TrimStart` removes. */
  lemma {:induction false} TrimStartPadded(w: string, t: string)
    requires AllWhitespace(w)
    requires t == [] || !IsWhitespace(t[0])
    ensures TrimStart(w + t) == t
  {
    if w != [] {
      assert (w + t)[1..] == w[1..] + t;
      TrimStartPadded(w[1..], t);
    }
  }

  /** Whitespace after a string that ends with a non-whitespace character is
      exactly what `TrimEnd` removes. */
  lemma {:induction false} TrimEndPadded(t: string, w: string)
    requires AllWhitespace(w)
    requires t == [] || !IsWhitespace(t[|t| - 1])
    ensures TrimEnd(t + w) == t
  {
    if w != [] {
      assert (t + w)[..|t + w| - 1] == t + w[..|w| - 1];
      TrimEndPadded(t, w[..|w| - 1]);
    }
  }

  /** Trimming a padded non-whitespace core gives the core. */
  lemma TrimPadded(pre: string, core: string, post: string)
    requires AllWhitespace(pre) && AllWhitespace(post)
    requires core != [] && !IsWhitespace(core[0]) && !IsWhitespace(core[|core| - 1])
    ensures Trim(pre + core + post) == core
  {
    assert pre + core + post == pre + (core + post);
    TrimStartPadded(pre, core + post);
    TrimEndPadded(core, post);
  }

  /** `TrimStart` stops at the first non-whitespace character. */
  lemma {:induction false} TrimStartStopsAt(s: string, w: nat)
    requires w < |s| && AllWhitespace(s[..w]) && !IsWhitespace(s[w])
    ensures TrimStart(s) == s[w..]
  {
    if w > 0 {
      assert IsWhitespace(s[..w][0]);
      assert s[1..][..w - 1] == s[1..w];
      assert s[1..][w - 1] == s[w];
      TrimStartStopsAt(s[1..], w - 1);
      assert s[1..][w - 1..] == s[w..];
    } else {
      assert s[0..] == s;
    }
  }

  /** `TrimEnd` removes at least every whitespace suffix. */
  lemma {:induction false} TrimEndWithin(s: string, m: nat)
    requires m <= |s| && AllWhitespace(s[m..])
    ensures |TrimEnd(s)| <= m
  {
    if m < |s| {
      assert IsWhitespace(s[m..][|s| - 1 - m]);
      var s' := s[..|s| - 1];
      assert s'[m..] == s[m..|s| - 1];
      assert AllWhitespace(s'[m..]) by {
        forall i | 0 <= i < |s'[m..]| ensures IsWhitespace(s'[m..][i]) {
          assert s'[m..][i] == s[m..][i];
        }
      }
      TrimEndWithin(s', m);
    }
  }

  /** Lower-casing of one character, for the ASCII letters. */
  function LowerChar(c: char): char {
    if 'A' <= c <= 'Z' then (c as int + 32) as char else c
  }

  function ToLower(s: string): (r: string)
    ensures |r| == |s|
    ensures forall i :: 0 <= i < |s| ==> r[i] == LowerChar(s[i])
  {
    if s == [] then [] else [LowerChar(s[0])] + ToLower(s[1..])
  }

  /** The lower-cased string is "y" exactly when the string is "y" or "Y". */
  lemma ToLowerIsY(s: string)
    ensures ToLower(s) == "y" <==> s == "y" || s == "Y"
  {
    if ToLower(s) == "y" {
      assert |s| == 1 && LowerChar(s[0]) == 'y';
    }
  }

  predicate StartsWith(s: string, prefix: string) {
    |prefix| <= |s| && s[..|prefix|] == prefix
  }

  predicate EndsWith(s: string, suffix: string) {
    |suffix| <= |s| && s[|s| - |suffix|..] == suffix
  }

  /** `n` copies of `s`, concatenated. */
  function Repeat(s: string, n: nat): string {
    if n == 0 then [] else Repeat(s, n - 1) + s
  }

  /** `str::trim_end_matches(suffix)`: removes every trailing repetition of
      `suffix`; an empty pattern removes nothing. */
  function TrimEndMatches(s: string, suffix: string): (r: string)
    ensures |r| <= |s|
    ensures suffix != [] ==> !EndsWith(r, suffix)
    decreases |s|
  {
    if suffix != [] && EndsWith(s, suffix) then TrimEndMatches(s[..|s| - |suffix|], suffix)
    else s
  }

  /** How many copies of `suffix` `TrimEndMatches` removes. */
  ghost function TrimmedCount(s: string, suffix: string): nat
    decreases |s|
  {
    if suffix != [] && EndsWith(s, suffix) then TrimmedCount(s[..|s| - |suffix|], suffix) + 1
    else 0
  }

  /** What is removed is a run of whole copies of the suffix: the input is
      the result followed by those copies. */
  lemma {:induction false} TrimEndMatchesShape(s: string, suffix: string)
    ensures s == TrimEndMatches(s, suffix) + Repeat(suffix, TrimmedCount(s, suffix))
    decreases |s|
  {
    if suffix != [] && EndsWith(s, suffix) {
      var s' := s[..|s| - |suffix|];
      TrimEndMatchesShape(s', suffix);
      var r, n := TrimEndMatches(s', suffix), TrimmedCount(s', suffix);
      assert TrimEndMatches(s, suffix) == r;
      assert TrimmedCount(s, suffix) == n + 1;
      SplitAtSuffix(s, suffix);
      AppendAssoc(s', suffix, s, r, Repeat(suffix, n));
      assert Repeat(suffix, n + 1) == Repeat(suffix, n) + suffix;
    } else {
      assert s + [] == s;
    }
  }

  /** A string that ends with `suffix` is its rest followed by `suffix`. */
  lemma SplitAtSuffix(s: string, suffix: string)
    requires EndsWith(s, suffix)
    ensures s == s[..|s| - |suffix|] + suffix
  {
  }

  /** Appending to a concatenation. */
  lemma AppendAssoc(s': string, suffix: string, s: string, r: string, rep: string)
    requires s' == r + rep && s == s' + suffix
    ensures s == r + (rep + suffix)
  {
  }

  predicate IsDigit(c: char) {
    '0' <= c <= '9'
  }

  function DigitChar(d: nat): (c: char)
    requires d < 10
    ensures IsDigit(c)
  {
    ('0' as int + d) as char
  }

  /** The decimal digits of a natural number, most significant first. */
  function NatToDecimal(n: nat): (r: string)
    ensures r != []
    ensures forall i :: 0 <= i < |r| ==> IsDigit(r[i])
  {
    if n < 10 then [DigitChar(n)] else NatToDecimal(n / 10) + [DigitChar(n % 10)]
  }

  /** The value of a string of decimal digits. */
  function DecimalValue(s: string): nat
    requires forall i :: 0 <= i < |s| ==> IsDigit(s[i])
  {
    if s == [] then 0 else
      assert IsDigit(s[|s| - 1]);
      10 * DecimalValue(s[..|s| - 1]) + (s[|s| - 1] as int - '0' as int)
  }

  lemma {:induction false} DecimalRoundTrip(n: nat)
    ensures DecimalValue(NatToDecimal(n)) == n
  {
    if n >= 10 {
      DecimalRoundTrip(n / 10);
      var s := NatToDecimal(n);
      assert s[..|s| - 1] == NatToDecimal(n / 10);
    }
  }

  /** `{}` formatting of a signed integer. */
  function IntToDecimal(i: int): string {
    if i < 0 then "-" + NatToDecimal(-i) else NatToDecimal(i)
  }

  /** The decimal rendering of an integer can be read back: a sign exactly
      when negative, then digits whose value is the magnitude. */
  lemma IntToDecimalRoundTrip(i: int)
    ensures var s := IntToDecimal(i);
            s != [] && (s[0] == '-' <==> i < 0)
            && var digits := if i < 0 then s[1..] else s;
               (forall k :: 0 <= k < |digits| ==> IsDigit(digits[k]))
               && DecimalValue(digits) == if i < 0 then -i else i
  {
    if i < 0 {
      DecimalRoundTrip(-i);
      assert IntToDecimal(i)[1..] == NatToDecimal(-i);
    } else {
      DecimalRoundTrip(i);
      assert IsDigit(NatToDecimal(i)[0]);
    }
  }

  /** No character of a decimal rendering is a line break. */
  lemma IntToDecimalHasNoNewline(i: int)
    ensures '\n' !in IntToDecimal(i)
  {
    var s := IntToDecimal(i);
    if i < 0 {
      assert forall k :: 1 <= k < |s| ==> IsDigit(s[k]) by {
        assert s[1..] == NatToDecimal(-i);
        forall k | 1 <= k < |s| ensures IsDigit(s[k]) { assert s[k] == s[1..][k - 1]; }
      }
    }
  }
}
