/** Character and string helpers with the semantics of the Rust `str` and JavaScript
    `String` methods the application calls: whitespace splitting, trimming, line
    splitting, prefix/substring tests, `rfind`, ASCII lower-casing and joining. */
module Text {

  import opened Options

  /** Unicode `White_Space`, the class Rust's `char::is_whitespace` tests; it drives
      `split_whitespace` and `trim`. */
  predicate IsWhitespace(c: char) {
    || c == ' '
    || ('\t' <= c <= '\r')
    || c == '\U{0085}' || c == '\U{00A0}' || c == '\U{1680}'
    || ('\U{2000}' <= c <= '\U{200A}')
    || c == '\U{2028}' || c == '\U{2029}' || c == '\U{202F}' || c == '\U{205F}' || c == '\U{3000}'
  }

  /** True iff every character of `s` is whitespace (the empty string included). */
  predicate IsBlank(s: string) {
    forall i :: 0 <= i < |s| ==> IsWhitespace(s[i])
  }

  /** True iff no character of `s` is whitespace. */
  predicate IsWord(s: string) {
    forall i :: 0 <= i < |s| ==> !IsWhitespace(s[i])
  }

  predicate StartsWith(s: string, prefix: string) {
    |prefix| <= |s| && s[..|prefix|] == prefix
  }

  predicate EndsWith(s: string, suffix: string) {
    |suffix| <= |s| && s[|s| - |suffix|..] == suffix
  }

  /** JavaScript's `s.includes(needle)`: `needle` occurs at some position of `s`. */
  predicate Contains(s: string, needle: string)
    decreases |s|
  {
    StartsWith(s, needle) || (|s| > 0 && Contains(s[1..], needle))
  }

  lemma ContainsAt(s: string, needle: string, i: nat)
    requires i + |needle| <= |s| && s[i..i + |needle|] == needle
    ensures Contains(s, needle)
    decreases i
  {
    if i > 0 {
      assert s[1..][i - 1..i - 1 + |needle|] == needle;
      ContainsAt(s[1..], needle, i - 1);
    }
  }

  /** The empty string occurs in every string, so an empty search text keeps everything. */
  lemma ContainsEmpty(s: string)
    ensures Contains(s, "")
  {
  }

  // ---------------------------------------------------------------------------
  // trim

  function TrimStart(s: string): (r: string)
    decreases |s|
  {
    if |s| > 0 && IsWhitespace(s[0]) then TrimStart(s[1..]) else s
  }

  function TrimEnd(s: string): (r: string)
    decreases |s|
  {
    if |s| > 0 && IsWhitespace(s[|s| - 1]) then TrimEnd(s[..|s| - 1]) else s
  }

  /** Rust's `str::trim`: leading and trailing whitespace removed. */
  function Trim(s: string): string {
    TrimEnd(TrimStart(s))
  }

  lemma {:induction false} TrimStartEmptyIffBlank(s: string)
    ensures TrimStart(s) == [] <==> IsBlank(s)
    decreases |s|
  {
    if |s| > 0 && IsWhitespace(s[0]) {
      TrimStartEmptyIffBlank(s[1..]);
      assert IsBlank(s) <==> IsBlank(s[1..]) by {
        if IsBlank(s[1..]) {
          forall i | 0 <= i < |s| ensures IsWhitespace(s[i]) {
            if i > 0 { assert s[i] == s[1..][i - 1]; }
          }
        }
      }
    }
  }

  lemma {:induction false} TrimEndEmptyIffBlank(s: string)
    ensures TrimEnd(s) == [] <==> IsBlank(s)
    decreases |s|
  {
    if |s| > 0 && IsWhitespace(s[|s| - 1]) {
      var init := s[..|s| - 1];
      TrimEndEmptyIffBlank(init);
      assert IsBlank(s) <==> IsBlank(init) by {
        if IsBlank(init) {
          forall i | 0 <= i < |s| ensures IsWhitespace(s[i]) {
            if i < |s| - 1 { assert s[i] == init[i]; }
          }
        }
      }
    }
  }

  /** `s.trim().is_empty()` holds exactly for blank strings. */
  lemma TrimEmptyIffBlank(s: string)
    ensures Trim(s) == [] <==> IsBlank(s)
  {
    TrimStartEmptyIffBlank(s);
    TrimEndEmptyIffBlank(TrimStart(s));
    if TrimStart(s) != [] {
      assert !IsBlank(s);
      TrimStartNonBlank(s);
    }
  }

  lemma {:induction false} TrimStartNonBlank(s: string)
    requires !IsBlank(s)
    ensures !IsBlank(TrimStart(s))
    decreases |s|
  {
    if |s| > 0 && IsWhitespace(s[0]) {
      assert !IsBlank(s[1..]) by {
        var i :| 0 <= i < |s| && !IsWhitespace(s[i]);
        assert s[1..][i - 1] == s[i];
      }
      TrimStartNonBlank(s[1..]);
    }
  }

  // ---------------------------------------------------------------------------
  // split_whitespace

  /** The number of leading non-whitespace characters of `s`. */
  function WordLength(s: string): (n: nat)
    ensures n <= |s|
    ensures IsWord(s[..n])
    ensures n < |s| ==> IsWhitespace(s[n])
    ensures |s| > 0 && !IsWhitespace(s[0]) ==> n >= 1
    decreases |s|
  {
    if |s| == 0 || IsWhitespace(s[0]) then 0
    else
      var m := WordLength(s[1..]);
      assert s[..m + 1] == [s[0]] + s[1..][..m];
      1 + m
  }

  /** Rust's `str::split_whitespace`: the maximal runs of non-whitespace characters,
      in order. */
  function Tokens(s: string): (r: seq<string>)
    ensures forall k :: 0 <= k < |r| ==> r[k] != [] && IsWord(r[k])
    decreases |s|
  {
    if |s| == 0 then []
    else if IsWhitespace(s[0]) then Tokens(s[1..])
    else
      var n := WordLength(s);
      [s[..n]] + Tokens(s[n..])
  }

  lemma {:induction false} TokensSkipBlank(ws: string, s: string)
    requires IsBlank(ws)
    ensures Tokens(ws + s) == Tokens(s)
    decreases |ws|
  {
    if |ws| > 0 {
      assert (ws + s)[0] == ws[0];
      assert (ws + s)[1..] == ws[1..] + s;
      assert IsBlank(ws[1..]) by {
        forall i | 0 <= i < |ws| - 1 ensures IsWhitespace(ws[1..][i]) {
          assert ws[1..][i] == ws[i + 1];
        }
      }
      TokensSkipBlank(ws[1..], s);
    } else {
      assert ws + s == s;
    }
  }

  lemma {:induction false} WordLengthOfWord(w: string, s: string)
    requires IsWord(w)
    requires |s| == 0 || IsWhitespace(s[0])
    ensures WordLength(w + s) == |w|
    decreases |w|
  {
    if |w| > 0 {
      assert (w + s)[1..] == w[1..] + s;
      WordLengthOfWord(w[1..], s);
    } else {
      assert w + s == s;
    }
  }

  lemma TokensWord(w: string, s: string)
    requires w != [] && IsWord(w)
    requires |s| == 0 || IsWhitespace(s[0])
    ensures Tokens(w + s) == [w] + Tokens(s)
  {
    WordLengthOfWord(w, s);
    assert (w + s)[..|w|] == w;
    assert (w + s)[|w|..] == s;
  }

  /** Joins `parts` with `sep` between consecutive elements (JavaScript's
      `Array.prototype.join`). */
  function Join(parts: seq<string>, sep: string): string
    decreases |parts|
  {
    if |parts| == 0 then ""
    else if |parts| == 1 then parts[0]
    else parts[0] + sep + Join(parts[1..], sep)
  }

  /** The concatenation of all `parts`, in order. */
  function Concat(parts: seq<string>): string
    decreases |parts|
  {
    if |parts| == 0 then "" else Concat(parts[..|parts| - 1]) + parts[|parts| - 1]
  }

  lemma ConcatSnoc(parts: seq<string>, last: string)
    ensures Concat(parts + [last]) == Concat(parts) + last
  {
    assert (parts + [last])[..|parts|] == parts;
  }

  /** Splitting a blank-separated join of words recovers the words. */
  lemma {:induction false} TokensOfJoin(words: seq<string>, sep: string)
    requires sep != [] && IsBlank(sep)
    requires forall k :: 0 <= k < |words| ==> words[k] != [] && IsWord(words[k])
    ensures Tokens(Join(words, sep)) == words
    decreases |words|
  {
    if |words| == 1 {
      TokensWord(words[0], "");
      assert words[0] + "" == words[0];
    } else if |words| > 1 {
      var rest := Join(words[1..], sep);
      TokensOfJoin(words[1..], sep);
      TokensSkipBlank(sep, rest);
      assert (sep + rest)[0] == sep[0];
      TokensWord(words[0], sep + rest);
      assert words[0] + sep + rest == words[0] + (sep + rest);
      assert words == [words[0]] + words[1..];
    }
  }

  // ---------------------------------------------------------------------------
  // lines

  /** The number of characters of `s` before its first line feed. */
  function LineLength(s: string): (n: nat)
    ensures n <= |s|
    ensures '\n' !in s[..n]
    ensures n < |s| ==> s[n] == '\n'
    decreases |s|
  {
    if |s| == 0 || s[0] == '\n' then 0
    else
      var m := LineLength(s[1..]);
      assert s[..m + 1] == [s[0]] + s[1..][..m];
      1 + m
  }

  /** `s` cut at every line feed. Rust's `str::lines` also strips a `'\r'` before each
      line feed and yields no final empty line; both differences vanish once a line is
      split into whitespace-separated tokens. */
  function Lines(s: string): (r: seq<string>)
    ensures |r| >= 1
    ensures forall k :: 0 <= k < |r| ==> '\n' !in r[k]
    decreases |s|
  {
    var n := LineLength(s);
    if n == |s| then [s] else [s[..n]] + Lines(s[n + 1..])
  }

  /** Splitting into lines loses nothing: joining them back with line feeds restores
      the text. */
  lemma {:induction false} LinesJoin(s: string)
    ensures Join(Lines(s), "\n") == s
    decreases |s|
  {
    var n := LineLength(s);
    if n < |s| {
      var rest := s[n + 1..];
      LinesJoin(rest);
      var lines := Lines(s);
      assert lines == [s[..n]] + Lines(rest);
      assert lines[0] == s[..n] && lines[1..] == Lines(rest);
      assert Join(lines, "\n") == s[..n] + "\n" + Join(Lines(rest), "\n");
      SplitAt(s, n);
    }
  }

  lemma SplitAt(s: string, n: nat)
    requires n < |s| && s[n] == '\n'
    ensures s == s[..n] + "\n" + s[n + 1..]
  {
    assert s == s[..n] + [s[n]] + s[n + 1..];
  }

  // ---------------------------------------------------------------------------
  // rfind, lower-casing

  /** Rust's `str::rfind(c)`: the index of the last occurrence of `c`. */
  function LastIndexOf(s: string, c: char): (r: Option<nat>)
    ensures r.Some? ==> r.value < |s| && s[r.value] == c && c !in s[r.value + 1..]
    ensures r.None? ==> c !in s
    decreases |s|
  {
    if |s| == 0 then None
    else if s[|s| - 1] == c then Some(|s| - 1)
    else
      var r := LastIndexOf(s[..|s| - 1], c);
      assert s == s[..|s| - 1] + [s[|s| - 1]];
      r
  }

  /** Lower-cases the ASCII letters `A`–`Z` and leaves every other character alone. */
  function LowerChar(c: char): char {
    if 'A' <= c <= 'Z' then (c as int + 32) as char else c
  }

  function Lower(s: string): (r: string)
    ensures |r| == |s|
  {
    seq(|s|, i requires 0 <= i < |s| => LowerChar(s[i]))
  }
}
