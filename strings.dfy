/** The JavaScript string built-ins the application relies on (`trim`, the `\s` class,
    `startsWith`, `endsWith`, `split` on one character, `join`, `includes`, `substring`,
    `toLowerCase`), over Dafny strings, and the leftmost-occurrence search with which the
    model states where a regular expression with a literal part matches. */
module Strings {
  import opened Util

  /** The characters of ECMAScript's WhiteSpace and LineTerminator productions, which are both
      what `\s` matches in a regular expression and what `trim` removes: tab, line tabulation,
      form feed, space, no-break space, the byte order mark, every space separator of
      category Zs, line feed, carriage return, and the line and paragraph separators. */
  predicate IsSpace(c: char) {
    c == '\t' || c == '\n' || c == '\U{B}' || c == '\U{C}' || c == '\r' || c == ' '
    || c == '\U{A0}' || c == '\U{1680}' || ('\U{2000}' <= c <= '\U{200A}')
    || c == '\U{2028}' || c == '\U{2029}' || c == '\U{202F}' || c == '\U{205F}'
    || c == '\U{3000}' || c == '\U{FEFF}'
  }

  predicate AllSpace(s: string) {
    forall i :: 0 <= i < |s| ==> IsSpace(s[i])
  }

  /** The number of whitespace characters at the start of `s`. */
  function LeadingSpaces(s: string): (n: nat)
    ensures n <= |s|
    ensures forall i :: 0 <= i < n ==> IsSpace(s[i])
    ensures n < |s| ==> !IsSpace(s[n])
  {
    if s == [] || !IsSpace(s[0]) then 0 else 1 + LeadingSpaces(s[1..])
  }

  /** The number of whitespace characters at the end of `s`. */
  function TrailingSpaces(s: string): (n: nat)
    ensures n <= |s|
    ensures forall i :: |s| - n <= i < |s| ==> IsSpace(s[i])
    ensures n < |s| ==> !IsSpace(s[|s| - 1 - n])
  {
    if s == [] || !IsSpace(s[|s| - 1]) then 0 else 1 + TrailingSpaces(s[..|s| - 1])
  }

  /** `s.trim()`: the longest slice of `s` that neither starts nor ends with whitespace;
      what it cuts off on either side is whitespace only. */
  function Trim(s: string): (r: string)
    ensures LeadingSpaces(s) + |r| <= |s|
    ensures r == s[LeadingSpaces(s)..LeadingSpaces(s) + |r|]
    ensures AllSpace(s[..LeadingSpaces(s)]) && AllSpace(s[LeadingSpaces(s) + |r|..])
    ensures r == [] <==> AllSpace(s)
    ensures r != [] ==> !IsSpace(r[0]) && !IsSpace(r[|r| - 1])
  {
    var lead := LeadingSpaces(s);
    var t := s[lead..];
    var r := t[..|t| - TrailingSpaces(t)];
    assert r != [] ==> r[0] == s[lead];
    assert AllSpace(s) ==> lead == |s|;
    r
  }

  /** A string that neither starts nor ends with whitespace is its own trim. */
  lemma TrimKeeps(s: string)
    requires s == [] || (!IsSpace(s[0]) && !IsSpace(s[|s| - 1]))
    ensures Trim(s) == s
  {
    if s != [] {
      assert LeadingSpaces(s) == 0;
      assert TrailingSpaces(s) == 0;
    }
  }

  /** A leading whitespace character is cut off by trimming. */
  lemma TrimDropsSpace(c: char, s: string)
    requires IsSpace(c)
    ensures Trim([c] + s) == Trim(s)
  {
    var t := [c] + s;
    assert t[1..] == s;
    assert LeadingSpaces(t) == 1 + LeadingSpaces(s);
    assert t[LeadingSpaces(t)..] == s[LeadingSpaces(s)..];
  }

  /** Trimming a text set between two whitespace characters gives the text back, when the
      text itself neither starts nor ends with whitespace. */
  lemma TrimSurrounded(a: char, body: string, b: char)
    requires IsSpace(a) && IsSpace(b)
    requires body != [] && !IsSpace(body[0]) && !IsSpace(body[|body| - 1])
    ensures Trim([a] + body + [b]) == body
  {
    var t := [a] + body + [b];
    assert t[1..] == body + [b];
    assert LeadingSpaces(t[1..]) == 0;
    assert LeadingSpaces(t) == 1;
    var u := t[1..];
    assert u[..|u| - 1] == body;
    assert TrailingSpaces(body) == 0;
    assert TrailingSpaces(u) == 1;
  }

  /** Trimming twice is trimming once. */
  lemma TrimIdempotent(s: string)
    ensures Trim(Trim(s)) == Trim(s)
  {
    TrimKeeps(Trim(s));
  }

  /** `!s.trim()`: the string is empty or whitespace only. */
  predicate IsBlank(s: string) {
    Trim(s) == ""
  }

  predicate StartsWith(s: string, prefix: string) {
    |prefix| <= |s| && s[..|prefix|] == prefix
  }

  /** A string whose first character differs from the prefix's does not start with it. */
  lemma FirstCharDiffers(s: string, prefix: string)
    requires prefix != [] && (s == [] || s[0] != prefix[0])
    ensures !StartsWith(s, prefix)
  {
    if |prefix| <= |s| {
      assert s[..|prefix|][0] == s[0];
    }
  }

  predicate EndsWith(s: string, suffix: string) {
    |suffix| <= |s| && s[|s| - |suffix|..] == suffix
  }

  /** `s.substring(0, n)` for `n >= 0`: the first `n` characters, or all of `s` if it is shorter. */
  function Take(s: string, n: nat): (r: string)
    ensures |r| == if n <= |s| then n else |s|
    ensures r == s[..|r|]
  {
    if n <= |s| then s[..n] else s
  }

  /** The position of the first `c` in `s`, or `|s|` if there is none. */
  function FirstIndexOf(s: string, c: char): (i: nat)
    ensures i <= |s|
    ensures c !in s[..i]
    ensures i < |s| ==> s[i] == c
  {
    if s == [] then 0
    else if s[0] == c then 0
    else
      var j := FirstIndexOf(s[1..], c);
      assert s[..j + 1] == [s[0]] + s[1..][..j];
      j + 1
  }

  /** `parts.join(sep)` */
  function Join(parts: seq<string>, sep: char): string
  {
    if parts == [] then ""
    else if |parts| == 1 then parts[0]
    else parts[0] + [sep] + Join(parts[1..], sep)
  }

  /** `s.split(sep)` for a one-character separator: the pieces between the separators,
      none of which holds the separator, and which `Join` puts back together. */
  function Split(s: string, sep: char): (r: seq<string>)
    ensures |r| >= 1
    ensures forall i :: 0 <= i < |r| ==> sep !in r[i]
    ensures Join(r, sep) == s
    decreases |s|
  {
    var i := FirstIndexOf(s, sep);
    if i == |s| then
      assert s[..i] == s;
      [s]
    else
      var rest := Split(s[i + 1..], sep);
      var r := [s[..i]] + rest;
      assert r[1..] == rest;
      assert s == s[..i] + [sep] + s[i + 1..];
      r
  }

  /** Splitting a joined list of separator-free pieces gives back the pieces. */
  lemma {:induction false} SplitJoin(parts: seq<string>, sep: char)
    requires |parts| >= 1
    requires forall i :: 0 <= i < |parts| ==> sep !in parts[i]
    ensures Split(Join(parts, sep), sep) == parts
  {
    var s := Join(parts, sep);
    if |parts| == 1 {
      assert FirstIndexOf(s, sep) == |s|;
    } else {
      var tail := Join(parts[1..], sep);
      assert s == parts[0] + [sep] + tail;
      assert s[|parts[0]|] == sep;
      assert s[..|parts[0]|] == parts[0];
      assert FirstIndexOf(s, sep) == |parts[0]|;
      assert s[|parts[0]| + 1..] == tail;
      SplitJoin(parts[1..], sep);
      assert parts == [parts[0]] + parts[1..];
    }
  }

  /** `pat` occurs in `s` at position `i`. */
  predicate OccursAt(s: string, pat: string, i: int) {
    0 <= i && i + |pat| <= |s| && s[i..i + |pat|] == pat
  }

  /** The leftmost occurrence of `pat` at or after `from`, if any. The application calls no
      `indexOf`; the model uses this search to say where a regular expression's literal
      parts are found, as in the summary pattern of `generateSummary`. */
  function IndexOf(s: string, pat: string, from: nat): (r: Option<nat>)
    ensures r.Some? ==> from <= r.value && OccursAt(s, pat, r.value)
    ensures r.Some? ==> forall j :: from <= j < r.value ==> !OccursAt(s, pat, j)
    ensures r.None? ==> forall j :: from <= j ==> !OccursAt(s, pat, j)
    decreases |s| - from
  {
    if from + |pat| > |s| then None
    else if s[from..from + |pat|] == pat then Some(from)
    else IndexOf(s, pat, from + 1)
  }

  /** An occurrence with none before it, from `from` on, is the one the search finds. */
  lemma {:induction false} IndexOfFirst(s: string, pat: string, from: nat, k: nat)
    requires from <= k && OccursAt(s, pat, k)
    requires forall j :: from <= j < k ==> !OccursAt(s, pat, j)
    ensures IndexOf(s, pat, from) == Some(k)
    decreases k - from
  {
    if from < k {
      assert !OccursAt(s, pat, from);
      IndexOfFirst(s, pat, from + 1, k);
    }
  }

  /** `s.includes(pat)` */
  function Includes(s: string, pat: string): (b: bool)
    ensures b <==> exists j :: OccursAt(s, pat, j)
  {
    IndexOf(s, pat, 0).Some?
  }

  /** `pat` starts nowhere in `[lo, hi)` of `s`. */
  predicate Absent(s: string, pat: string, lo: nat, hi: nat) {
    forall j :: lo <= j < hi ==> !OccursAt(s, pat, j)
  }

  /** A slice of a stretch in which `pat` does not start does not contain `pat`. */
  lemma NotIncludedInSlice(s: string, pat: string, lo: nat, hi: nat, lo': nat, hi': nat, t: string)
    requires |pat| >= 1 && lo <= lo' <= hi' <= hi <= |s|
    requires Absent(s, pat, lo, hi)
    requires t == s[lo'..hi']
    ensures !Includes(t, pat)
  {
    forall j | 0 <= j ensures !OccursAt(t, pat, j) {
      if j + |pat| <= |t| {
        var u, v := t[j..j + |pat|], s[lo' + j..lo' + j + |pat|];
        assert forall k :: 0 <= k < |pat| ==> u[k] == v[k];
        assert !OccursAt(s, pat, lo' + j);
      }
    }
  }

  /** Trimming a slice in which `pat` does not start leaves a text without `pat`. */
  lemma TrimmedSliceExcludes(s: string, pat: string, lo: nat, hi: nat)
    requires |pat| >= 1 && lo <= hi <= |s|
    requires Absent(s, pat, lo, hi)
    ensures !Includes(Trim(s[lo..hi]), pat)
  {
    PartExcludes(s, pat, lo, hi, LeadingSpaces(s[lo..hi]), Trim(s[lo..hi]));
  }

  lemma PartExcludes(s: string, pat: string, lo: nat, hi: nat, lead: nat, c: string)
    requires |pat| >= 1 && lo <= hi <= |s|
    requires Absent(s, pat, lo, hi)
    requires lead + |c| <= hi - lo && c == s[lo..hi][lead..lead + |c|]
    ensures !Includes(c, pat)
  {
    SliceOfSlice(s, lo, hi, lead, lead + |c|);
    NotIncludedInSlice(s, pat, lo, hi, lo + lead, lo + lead + |c|, c);
  }

  lemma SliceOfSlice(s: string, lo: nat, hi: nat, i: nat, j: nat)
    requires lo <= hi <= |s| && i <= j <= hi - lo
    ensures s[lo..hi][i..j] == s[lo + i..lo + j]
  {
    var u, v := s[lo..hi][i..j], s[lo + i..lo + j];
    assert |u| == |v|;
    forall k | 0 <= k < |u| ensures u[k] == v[k] {
      assert u[k] == s[lo..hi][i + k] == s[lo + i + k];
    }
  }

  /** `toLowerCase` on one character, for the ASCII letters. */
  function LowerChar(c: char): char
  {
    if 'A' <= c <= 'Z' then (c as int + 32) as char else c
  }

  /** `s.toLowerCase()`, for the ASCII letters. */
  function Lower(s: string): (r: string)
    ensures |r| == |s|
    ensures forall i :: 0 <= i < |s| ==> r[i] == LowerChar(s[i])
  {
    Map(s, LowerChar)
  }
}
