/** The markdown-subset renderer of `components/MarkdownRenderer.tsx`: a pure, total map from the
    response text to a sequence of typed blocks whose inline text is a sequence of plain and
    bold runs. The React elements themselves are left out; a block stands for the element the
    renderer would emit. */
module Markdown {
  import opened Util
  import opened Strings

  datatype Run = Plain(text: string) | Bold(text: string)

  datatype Block =
    | Code(code: string)
    | Quote(runs: seq<Run>)
    | H2(runs: seq<Run>)
    | H3(runs: seq<Run>)
    | OList(items: seq<seq<Run>>)
    | UList(items: seq<seq<Run>>)
    | Para(runs: seq<Run>)

  // ---------------------------------------------------------------------------------------
  // Inline pass: renderWithBold, i.e. text.split(/(\*\*.*?\*\*)/g) and the bold test

  /** The two characters at `i` are `**`: `Strings.OccursAt(s, "**", i)` spelt out character by
      character, which keeps the solver context of the span proofs small (`OccursStars` relates
      the two where a `Strings` lemma is used). */
  predicate StarsAt(s: string, i: int) {
    0 <= i && i + 1 < |s| && s[i] == '*' && s[i + 1] == '*'
  }

  /** The characters ECMAScript's `.` does not match: the four LineTerminator code points
      (line feed, carriage return, line separator, paragraph separator). */
  predicate IsLineTerminator(c: char) {
    c == '\n' || c == '\r' || c == '\U{2028}' || c == '\U{2029}'
  }

  /** A text that `.*` can match in full. */
  predicate OneLine(t: string) {
    forall j :: 0 <= j < |t| ==> !IsLineTerminator(t[j])
  }

  /** A delimited span as the regular expression matches it: `**`, then text without a line
      terminator (`.` does not match one), closed by the first `**` that follows (`.*?` is
      lazy). */
  predicate IsSpan(f: string) {
    && |f| >= 4
    && StarsAt(f, 0)
    && StarsAt(f, |f| - 2)
    && OneLine(f)
    && forall j :: 2 <= j < |f| - 2 ==> !StarsAt(f, j)
  }

  /** Where the lazy `.*?\*\*` that follows an opening `**` stops: the first `**` at or after
      `k` that is reached without crossing a line terminator. */
  function CloseFrom(s: string, k: nat): (r: Option<nat>)
    ensures r.Some? ==> k <= r.value && StarsAt(s, r.value)
    ensures r.Some? ==> forall j :: k <= j < r.value ==> !IsLineTerminator(s[j]) && !StarsAt(s, j)
    ensures r.None? ==> forall e :: k <= e && StarsAt(s, e) ==> !OneLine(s[k..e])
    decreases |s| - k
  {
    if k + 1 >= |s| then None
    else if StarsAt(s, k) then Some(k)
    else if IsLineTerminator(s[k]) then
      assert s[k..][0] == s[k];
      None
    else
      CloseFrom(s, k + 1)
  }

  /** The end of the delimited span that starts at `q`, if one does. */
  function SpanAt(s: string, q: nat): (r: Option<nat>)
    ensures r.Some? ==> q + 4 <= r.value <= |s| && IsSpan(s[q..r.value])
    ensures r.None? <==> !StarsAt(s, q) || CloseFrom(s, q + 2).None?
  {
    if StarsAt(s, q) then
      match CloseFrom(s, q + 2)
      case Some(k) =>
        var f := s[q..k + 2];
        assert forall j :: 0 <= j < |f| ==> f[j] == s[q + j];
        Some(k + 2)
      case None => None
    else None
  }

  /** No delimited span starts anywhere in `f`. */
  predicate NoSpan(f: string) {
    forall j :: 0 <= j < |f| ==> SpanAt(f, j).None?
  }

  /** A span found inside a slice is found at the same place in the whole string. */
  lemma {:induction false} CloseFromSlice(s: string, p: nat, q: nat, k: nat)
    requires p <= q <= |s|
    requires CloseFrom(s[p..q], k).Some?
    ensures CloseFrom(s, p + k) == Some(p + CloseFrom(s[p..q], k).value)
    decreases q - p - k
  {
    var t := s[p..q];
    assert t[k] == s[p + k] && t[k + 1] == s[p + k + 1];
    if !StarsAt(t, k) {
      CloseFromSlice(s, p, q, k + 1);
    }
  }

  lemma SpanAtSlice(s: string, p: nat, q: nat, j: nat)
    requires p <= q <= |s|
    requires SpanAt(s[p..q], j).Some?
    ensures SpanAt(s, p + j).Some?
  {
    var t := s[p..q];
    assert t[j] == s[p + j] && t[j + 1] == s[p + j + 1];
    CloseFromSlice(s, p, q, j + 2);
  }

  /** A stretch of `s` in which no span starts contains no span of its own. */
  lemma NoSpanSlice(s: string, p: nat, q: nat)
    requires p <= q <= |s|
    requires forall j :: p <= j < q ==> SpanAt(s, j).None?
    ensures NoSpan(s[p..q])
  {
    forall j | 0 <= j < q - p ensures SpanAt(s[p..q], j).None? {
      if SpanAt(s[p..q], j).Some? { SpanAtSlice(s, p, q, j); }
    }
  }

  /** The pieces of `s.split(/(\*\*.*?\*\*)/g)`, following ECMAScript's split loop: `p` is where
      the current unmatched piece began and `q` the next position at which a span is tried.
      The separators are kept (the pattern has a capture group), so the result alternates
      between unmatched pieces, in which no span starts, and delimited spans, and it begins
      and ends with an unmatched piece, possibly empty. */
  function Fragments(s: string, p: nat, q: nat): (r: seq<string>)
    requires p <= q <= |s|
    requires forall j :: p <= j < q ==> SpanAt(s, j).None?
    ensures |r| % 2 == 1
    decreases |s| - q
  {
    if q == |s| then
      [s[p..]]
    else
      match SpanAt(s, q)
      case Some(e) =>
        [s[p..q], s[q..e]] + Fragments(s, e, e)
      case None =>
        Fragments(s, p, q + 1)
  }

  /** The pieces are a cut of `s[p..]`, alternate between unmatched pieces and spans, and
      each span is the leftmost one from where the previous one ended. */
  ghost predicate FragmentsOf(s: string, p: nat, r: seq<string>) {
    p <= |s| && Concat(r) == s[p..] && Alternates(r) && LeftmostSplit(s, p, r)
  }

  lemma {:induction false} FragmentsShape(s: string, p: nat, q: nat)
    requires p <= q <= |s|
    requires forall j :: p <= j < q ==> SpanAt(s, j).None?
    ensures FragmentsOf(s, p, Fragments(s, p, q))
    decreases |s| - q, 1
  {
    if q == |s| {
      LastFragment(s, p);
    } else if SpanAt(s, q).Some? {
      FragmentsShapeAtSpan(s, p, q);
    } else {
      FragmentsShape(s, p, q + 1);
    }
  }

  lemma {:induction false} FragmentsShapeAtSpan(s: string, p: nat, q: nat)
    requires p <= q < |s|
    requires forall j :: p <= j < q ==> SpanAt(s, j).None?
    requires SpanAt(s, q).Some?
    ensures FragmentsOf(s, p, Fragments(s, p, q))
    decreases |s| - q, 0
  {
    var e := SpanAt(s, q).value;
    FragmentsShape(s, e, e);
    FragmentsStep(s, p, q, e, Fragments(s, e, e));
  }

  lemma LastFragment(s: string, p: nat)
    requires p <= |s|
    requires forall j :: p <= j < |s| ==> SpanAt(s, j).None?
    ensures FragmentsOf(s, p, [s[p..]])
  {
    NoSpanSlice(s, p, |s|);
    assert s[p..|s|] == s[p..] && [s[p..]][1..] == [];
  }

  lemma FragmentsStep(s: string, p: nat, q: nat, e: nat, rest: seq<string>)
    requires p <= q < |s|
    requires forall j :: p <= j < q ==> SpanAt(s, j).None?
    requires SpanAt(s, q) == Some(e)
    requires FragmentsOf(s, e, rest)
    ensures FragmentsOf(s, p, [s[p..q], s[q..e]] + rest)
  {
    NoSpanSlice(s, p, q);
    PrependPieces(s, p, q, e, rest);
    AlternatesPrepend(s[p..q], s[q..e], rest);
    LeftmostPrepend(s, p, q, e, rest);
  }

  lemma LeftmostPrepend(s: string, p: nat, q: nat, e: nat, rest: seq<string>)
    requires p <= q < |s|
    requires forall j :: p <= j < q ==> SpanAt(s, j).None?
    requires SpanAt(s, q) == Some(e)
    requires LeftmostSplit(s, e, rest)
    ensures LeftmostSplit(s, p, [s[p..q], s[q..e]] + rest)
  {
    var r := [s[p..q], s[q..e]] + rest;
    assert r[0] == s[p..q] && r[1] == s[q..e] && r[2..] == rest;
  }

  /** `r` is how the split loop cuts `s[p..]`, stated without the loop: an unmatched piece in
      which no span starts anywhere in `s`, then either the end of the text or the span
      that starts right after it, followed by the cut of the rest. So every span is the
      leftmost one from where the previous one ended. */
  ghost predicate LeftmostSplit(s: string, p: nat, r: seq<string>)
    decreases |r|
  {
    && p <= |s| && |r| >= 1 && p + |r[0]| <= |s| && r[0] == s[p..p + |r[0]|]
    && (forall j :: p <= j < p + |r[0]| ==> SpanAt(s, j).None?)
    && if |r| == 1 then p + |r[0]| == |s|
       else
         && |r| >= 3
         && SpanAt(s, p + |r[0]|).Some?
         && r[1] == s[p + |r[0]|..SpanAt(s, p + |r[0]|).value]
         && LeftmostSplit(s, SpanAt(s, p + |r[0]|).value, r[2..])
  }

  /** A cut at leftmost spans is the one the scan makes, so the scan's pieces are the only
      ones that contract admits. */
  lemma LeftmostSplitUnique(s: string, p: nat, r: seq<string>, r': seq<string>)
    requires LeftmostSplit(s, p, r) && LeftmostSplit(s, p, r')
    ensures r == r'
  {
    LeftmostIsFragments(s, p, p, r);
    LeftmostIsFragments(s, p, p, r');
  }

  lemma {:induction false} LeftmostIsFragments(s: string, p: nat, q: nat, r: seq<string>)
    requires p <= q <= |s|
    requires forall j :: p <= j < q ==> SpanAt(s, j).None?
    requires LeftmostSplit(s, p, r)
    ensures r == Fragments(s, p, q)
    decreases |s| - q, 1
  {
    if q == |s| {
      CutAtEnd(s, p, r);
    } else if SpanAt(s, q).Some? {
      LeftmostAtSpan(s, p, q, r);
    } else {
      LeftmostPastNone(s, p, q, r);
    }
  }

  lemma {:induction false} LeftmostPastNone(s: string, p: nat, q: nat, r: seq<string>)
    requires p <= q < |s| && SpanAt(s, q).None?
    requires forall j :: p <= j < q ==> SpanAt(s, j).None?
    requires LeftmostSplit(s, p, r)
    ensures r == Fragments(s, p, q)
    decreases |s| - q, 0
  {
    LeftmostIsFragments(s, p, q + 1, r);
  }

  lemma {:induction false} LeftmostAtSpan(s: string, p: nat, q: nat, r: seq<string>)
    requires p <= q < |s| && SpanAt(s, q).Some?
    requires forall j :: p <= j < q ==> SpanAt(s, j).None?
    requires LeftmostSplit(s, p, r)
    ensures r == Fragments(s, p, q)
    decreases |s| - q, 0
  {
    var e := SpanAt(s, q).value;
    CutAtSpan(s, p, q, r);
    LeftmostIsFragments(s, e, e, r[2..]);
    SameCut(r, [s[p..q], s[q..e]] + Fragments(s, e, e));
  }

  /** With no span before the end of the text, the cut is that one piece. */
  lemma CutAtEnd(s: string, p: nat, r: seq<string>)
    requires p <= |s|
    requires forall j :: p <= j < |s| ==> SpanAt(s, j).None?
    requires LeftmostSplit(s, p, r)
    ensures r == [s[p..]]
  {
    assert |r| > 1 ==> SpanAt(s, p + |r[0]|).Some?;
    assert |r| == 1 && p + |r[0]| == |s|;
    assert r == [r[0]] && s[p..p + |r[0]|] == s[p..];
  }

  /** With no span from `p` up to a span at `q`, the cut's first piece ends at `q`, and the
      span at `q` is its second piece. */
  lemma CutAtSpan(s: string, p: nat, q: nat, r: seq<string>)
    requires p <= q < |s| && SpanAt(s, q).Some?
    requires forall j :: p <= j < q ==> SpanAt(s, j).None?
    requires LeftmostSplit(s, p, r)
    ensures |r| >= 3 && r[0] == s[p..q] && r[1] == s[q..SpanAt(s, q).value]
    ensures LeftmostSplit(s, SpanAt(s, q).value, r[2..])
  {
    assert |r| > 1 ==> SpanAt(s, p + |r[0]|).Some?;
    assert p + |r[0]| == q;
  }

  lemma SameCut(r: seq<string>, r': seq<string>)
    requires |r| >= 3 && |r'| >= 3 && r[0] == r'[0] && r[1] == r'[1] && r[2..] == r'[2..]
    ensures r == r'
  {
    assert r == [r[0], r[1]] + r[2..] && r' == [r'[0], r'[1]] + r'[2..];
  }

  /** Unmatched pieces, in which no span starts, sit at the even positions and delimited spans
      at the odd ones. */
  predicate Alternates(r: seq<string>) {
    && (forall i :: 0 <= i < |r| && i % 2 == 1 ==> IsSpan(r[i]))
    && (forall i :: 0 <= i < |r| && i % 2 == 0 ==> NoSpan(r[i]))
  }

  lemma AlternatesPrepend(a: string, b: string, rest: seq<string>)
    requires NoSpan(a) && IsSpan(b) && Alternates(rest)
    ensures Alternates([a, b] + rest)
  {
    var r := [a, b] + rest;
    forall i | 2 <= i < |r| ensures r[i] == rest[i - 2] && (i % 2 == (i - 2) % 2) { }
  }

  lemma PrependPieces(s: string, p: nat, q: nat, e: nat, rest: seq<string>)
    requires p <= q <= e <= |s|
    requires Concat(rest) == s[e..]
    ensures Concat([s[p..q], s[q..e]] + rest) == s[p..]
  {
    var r := [s[p..q], s[q..e]] + rest;
    assert r[1..] == [s[q..e]] + rest && r[1..][1..] == rest;
    assert s[p..] == s[p..q] + (s[q..e] + s[e..]);
  }

  /** `part.slice(2, -2)` for a part that begins and ends with `**`. */
  function Unwrap(f: string): (r: string)
    ensures |f| >= 4 ==> f == f[..2] + r + f[|f| - 2..]
    ensures |f| < 4 ==> r == ""
  {
    if |f| >= 4 then f[2..|f| - 2] else ""
  }

  /** A piece that begins and ends with `**` is shown bold, whether it is a delimited span
      or an unmatched piece; every other piece is plain. */
  function ToRun(f: string): Run
  {
    if StartsWith(f, "**") && EndsWith(f, "**") then Bold(Unwrap(f)) else Plain(f)
  }

  /** The text inside a delimited span holds neither a line terminator nor `**`. */
  lemma SpanInner(f: string)
    requires IsSpan(f)
    ensures ToRun(f) == Bold(f[2..|f| - 2])
    ensures OneLine(Unwrap(f)) && !Includes(Unwrap(f), "**")
  {
    var t := Unwrap(f);
    assert forall j :: 0 <= j < |t| ==> t[j] == f[j + 2];
    forall j | 0 <= j ensures !OccursAt(t, "**", j) {
      if j + 2 <= |t| {
        assert t[j] == f[j + 2] && t[j + 1] == f[j + 3];
        assert !StarsAt(f, j + 2);
        OccursStars(t, j);
      }
    }
  }

  lemma OccursStars(t: string, j: nat)
    ensures OccursAt(t, "**", j) <==> StarsAt(t, j)
  {
    if j + 2 <= |t| {
      assert t[j] == t[j..j + 2][0] && t[j + 1] == t[j..j + 2][1];
    }
  }

  /** What a run was written as in the source text. */
  function Source(r: Run): string
  {
    match r
    case Plain(t) => t
    case Bold(t) => "**" + t + "**"
  }

  /** `renderWithBold(text)`: an empty text is returned as it is (one empty plain run); any
      other text is split and each piece becomes a run. The runs in odd positions come from
      delimited spans: they are bold, and their text holds neither a line terminator nor `**`. */
  function RenderWithBold(text: string): (r: seq<Run>)
    ensures text == "" ==> r == [Plain("")]
    ensures text != "" ==> r == Map(Fragments(text, 0, 0), ToRun)
    ensures |r| % 2 == 1
    ensures forall i :: 0 <= i < |r| && i % 2 == 1 ==>
              r[i].Bold? && OneLine(r[i].text) && !Includes(r[i].text, "**")
  {
    if text == "" then [Plain(text)]
    else
      var pieces := Fragments(text, 0, 0);
      FragmentsShape(text, 0, 0);
      var r := Map(pieces, ToRun);
      forall i | 0 <= i < |r| && i % 2 == 1
        ensures r[i].Bold? && OneLine(r[i].text) && !Includes(r[i].text, "**")
      {
        SpanInner(pieces[i]);
      }
      r
  }

  /** The runs give back the text they were parsed from when no unmatched piece is exactly
      `**` or `***` (the only pieces whose bold rendering loses characters). */
  lemma RenderWithBoldSource(text: string)
    requires forall i :: 0 <= i < |Fragments(text, 0, 0)| ==>
               Fragments(text, 0, 0)[i] != "**" && Fragments(text, 0, 0)[i] != "***"
    ensures Concat(Map(RenderWithBold(text), Source)) == text
  {
    if text == "" {
      assert Map(RenderWithBold(text), Source) == [""];
    } else {
      var pieces := Fragments(text, 0, 0);
      FragmentsShape(text, 0, 0);
      SourceOfRuns(pieces);
      assert text[0..] == text;
    }
  }

  /** Every piece other than `**` and `***` is written back as it was read. */
  lemma SourceOfRuns(pieces: seq<string>)
    requires forall i :: 0 <= i < |pieces| ==> pieces[i] != "**" && pieces[i] != "***"
    ensures Map(Map(pieces, ToRun), Source) == pieces
  {
    var runs := Map(pieces, ToRun);
    forall i | 0 <= i < |pieces| ensures Source(runs[i]) == pieces[i] {
      var f := pieces[i];
      if StartsWith(f, "**") && EndsWith(f, "**") {
        assert |f| >= 4;
        assert f == "**" + f[2..|f| - 2] + "**";
      }
    }
  }

  // ---------------------------------------------------------------------------------------
  // Block pass: content.replace(/\r\n/g, '\n').split(/\n{2,}/), then trim and classify

  function NotCR(c: char): bool { c != '\r' }

  /** `s.replace(/\r\n/g, '\n')`: every carriage return that stands right before a line feed
      is deleted, scanning left to right. */
  function NormalizeNewlines(s: string): string
  {
    if |s| < 2 then s
    else if s[0] == '\r' && s[1] == '\n' then "\n" + NormalizeNewlines(s[2..])
    else [s[0]] + NormalizeNewlines(s[1..])
  }

  predicate HasCRLF(s: string) {
    exists i :: 0 <= i < |s| - 1 && s[i] == '\r' && s[i + 1] == '\n'
  }

  /** Normalisation never lengthens the text, only removes carriage returns (the text without
      them is the same), and leaves a text without `\r\n` as it is. */
  lemma {:induction false} NormalizeNewlinesKeeps(s: string)
    ensures |NormalizeNewlines(s)| <= |s|
    ensures Filter(NormalizeNewlines(s), NotCR) == Filter(s, NotCR)
    ensures !HasCRLF(s) ==> NormalizeNewlines(s) == s
    decreases |s|
  {
    if |s| >= 2 {
      if s[0] == '\r' && s[1] == '\n' {
        var rest := NormalizeNewlines(s[2..]);
        NormalizeNewlinesKeeps(s[2..]);
        NormalizeCRLF(s);
        assert s[1..][1..] == s[2..];
        assert ("\n" + rest)[1..] == rest;
        FilterLength(s, NotCR);
        FilterLength(s[1..], NotCR);
        FilterLength("\n" + rest, NotCR);
      } else {
        var rest := NormalizeNewlines(s[1..]);
        NormalizeNewlinesKeeps(s[1..]);
        NormalizeOther(s);
        assert ([s[0]] + rest)[1..] == rest;
        FilterLength(s, NotCR);
        FilterLength([s[0]] + rest, NotCR);
        CRLFInTail(s);
      }
    }
  }

  lemma CRLFInTail(s: string)
    requires |s| >= 1
    ensures HasCRLF(s[1..]) ==> HasCRLF(s)
  {
    if HasCRLF(s[1..]) {
      var i :| 0 <= i < |s[1..]| - 1 && s[1..][i] == '\r' && s[1..][i + 1] == '\n';
      assert s[i + 1] == '\r' && s[i + 2] == '\n';
    }
  }

  lemma NormalizeCRLF(s: string)
    requires |s| >= 2 && s[0] == '\r' && s[1] == '\n'
    ensures NormalizeNewlines(s) == "\n" + NormalizeNewlines(s[2..])
  {
  }

  lemma NormalizeOther(s: string)
    requires |s| >= 2 && !(s[0] == '\r' && s[1] == '\n')
    ensures NormalizeNewlines(s) == [s[0]] + NormalizeNewlines(s[1..])
  {
  }

  /** Normalisation works piecewise when the second part does not start with a line feed, so
      no `\r\n` straddles the seam. */
  lemma {:induction false} NormalizeAppend(a: string, t: string)
    requires t == [] || t[0] != '\n'
    ensures NormalizeNewlines(a + t) == NormalizeNewlines(a) + NormalizeNewlines(t)
    decreases |a|
  {
    if a == [] {
      assert a + t == t;
    } else if |a| == 1 {
      NormalizeAppendOne(a, t);
    } else if a[0] == '\r' && a[1] == '\n' {
      NormalizeAppend(a[2..], t);
      NormalizeAppendCRLF(a, t);
    } else {
      NormalizeAppend(a[1..], t);
      NormalizeAppendOther(a, t);
    }
  }

  lemma NormalizeAppendOne(a: string, t: string)
    requires |a| == 1 && (t == [] || t[0] != '\n')
    ensures NormalizeNewlines(a + t) == NormalizeNewlines(a) + NormalizeNewlines(t)
  {
    if t != [] {
      NormalizeOther(a + t);
      assert (a + t)[1..] == t;
    } else {
      assert a + t == a;
    }
  }

  lemma NormalizeAppendCRLF(a: string, t: string)
    requires |a| >= 2 && a[0] == '\r' && a[1] == '\n'
    requires NormalizeNewlines(a[2..] + t) == NormalizeNewlines(a[2..]) + NormalizeNewlines(t)
    ensures NormalizeNewlines(a + t) == NormalizeNewlines(a) + NormalizeNewlines(t)
  {
    AppendTails(a, t);
    NormalizeCRLF(a);
    NormalizeCRLF(a + t);
    JoinAfter("\n", NormalizeNewlines(a), NormalizeNewlines(a[2..]), NormalizeNewlines(t),
      NormalizeNewlines(a[2..] + t), NormalizeNewlines(a + t));
  }

  lemma NormalizeAppendOther(a: string, t: string)
    requires |a| >= 2 && !(a[0] == '\r' && a[1] == '\n')
    requires NormalizeNewlines(a[1..] + t) == NormalizeNewlines(a[1..]) + NormalizeNewlines(t)
    ensures NormalizeNewlines(a + t) == NormalizeNewlines(a) + NormalizeNewlines(t)
  {
    AppendTails(a, t);
    NormalizeOther(a);
    NormalizeOther(a + t);
    JoinAfter([a[0]], NormalizeNewlines(a), NormalizeNewlines(a[1..]), NormalizeNewlines(t),
      NormalizeNewlines(a[1..] + t), NormalizeNewlines(a + t));
  }

  // The identities below are lemmas rather than inline asserts to keep each proof's
  // solver context small.

  lemma AppendTails(a: string, t: string)
    requires |a| >= 2
    ensures |a + t| >= 2 && (a + t)[0] == a[0] && (a + t)[1] == a[1]
    ensures (a + t)[1..] == a[1..] + t && (a + t)[2..] == a[2..] + t
  {
  }

  /** The step shared by both cases, over plain values: a prefix `h` put before the rest of
      `a` and before the rest of `a + t`. */
  lemma JoinAfter(h: string, na: string, nx: string, nt: string, nxt: string, nu: string)
    requires na == h + nx && nu == h + nxt && nxt == nx + nt
    ensures nu == na + nt
  {
  }

  /** Every `\r\n` becomes a single line feed, wherever it stands. */
  lemma CarriageReturnLineFeed(a: string, b: string)
    ensures NormalizeNewlines(a + "\r\n" + b) == NormalizeNewlines(a) + "\n" + NormalizeNewlines(b)
  {
    var t := "\r\n" + b;
    CRLFPieces(a, b, t);
    NormalizeAppend(a, t);
    NormalizeCRLF(t);
    Reassociate(NormalizeNewlines(a), "\n", NormalizeNewlines(b));
  }

  // Lemmas rather than inline asserts, to keep the solver context of the proof above small.

  lemma CRLFPieces(a: string, b: string, t: string)
    requires t == "\r\n" + b
    ensures a + "\r\n" + b == a + t && t[2..] == b && |t| >= 2 && t[0] == '\r' && t[1] == '\n'
  {
  }

  lemma Reassociate(x: string, y: string, z: string)
    ensures x + (y + z) == x + y + z
  {
  }

  /** Text without carriage returns is left as it is. */
  lemma NormalizeWithoutCR(s: string)
    requires '\r' !in s
    ensures NormalizeNewlines(s) == s
  {
    NormalizeNewlinesKeeps(s);
    assert forall i :: 0 <= i < |s| - 1 ==> s[i] != '\r';
  }

  /** The length of the run of line feeds that starts at `i`. */
  function NewlineRun(s: string, i: nat): (n: nat)
    requires i <= |s|
    ensures i + n <= |s|
    ensures forall j :: i <= j < i + n ==> s[j] == '\n'
    ensures i + n < |s| ==> s[i + n] != '\n'
    decreases |s| - i
  {
    if i < |s| && s[i] == '\n' then 1 + NewlineRun(s, i + 1) else 0
  }

  /** Two line feeds in a row at `q`: where a match of `\n{2,}` begins. */
  predicate BreakAt(s: string, q: int) {
    0 <= q && q + 1 < |s| && s[q] == '\n' && s[q + 1] == '\n'
  }

  predicate NoBreak(c: string) {
    forall j :: 0 <= j < |c| ==> !BreakAt(c, j)
  }

  lemma NoBreakWithoutNewline(c: string)
    requires '\n' !in c
    ensures NoBreak(c)
  {
    assert forall j :: 0 <= j < |c| ==> c[j] != '\n';
  }

  /** A stretch of `s` in which no break starts holds no two line feeds in a row. */
  lemma NoBreakSlice(s: string, p: nat, q: nat)
    requires p <= q <= |s|
    requires forall j :: p <= j < q ==> !BreakAt(s, j)
    ensures NoBreak(s[p..q])
  {
    forall j | 0 <= j < q - p ensures !BreakAt(s[p..q], j) {
      if j + 1 < q - p {
        assert !BreakAt(s, p + j);
        assert s[p..q][j] == s[p + j] && s[p..q][j + 1] == s[p + j + 1];
      }
    }
  }

  /** No chunk holds two line feeds in a row, no chunk after the first begins with a line
      feed, none before the last ends with one, and none strictly between them is empty. */
  predicate SeparatedChunks(r: seq<string>) {
    && (forall i :: 0 <= i < |r| ==> NoBreak(r[i]))
    && (forall i :: 0 < i < |r| ==> r[i] == [] || r[i][0] != '\n')
    && (forall i :: 0 <= i < |r| - 1 ==> r[i] == [] || r[i][|r[i]| - 1] != '\n')
    && (forall i :: 0 < i < |r| - 1 ==> r[i] != [])
  }

  /** The first chunk is the text from `p` up to the first break, or to the end when it is
      the only chunk. */
  predicate FirstChunk(s: string, p: nat, r: seq<string>) {
    && |r| >= 1 && p + |r[0]| <= |s| && r[0] == s[p..p + |r[0]|]
    && (|r| > 1 ==> BreakAt(s, p + |r[0]|))
  }

  /** The chunks of `s.split(/\n{2,}/)`, scanning as ECMAScript's split does: `p` is where the
      current chunk began and `q` the next position at which a break is tried. */
  function Chunks(s: string, p: nat, q: nat): (r: seq<string>)
    requires p <= q <= |s|
    requires forall j :: p <= j < q ==> !BreakAt(s, j)
    ensures |r| >= 1
    decreases |s| - q
  {
    if q == |s| then
      [s[p..]]
    else if BreakAt(s, q) then
      var e := q + NewlineRun(s, q);
      [s[p..q]] + Chunks(s, e, e)
    else
      Chunks(s, p, q + 1)
  }

  /** Each match is a maximal run of two or more line feeds, so no chunk holds two line feeds
      in a row, no chunk after the first begins with a line feed, none before the last
      ends with one, and two matches never touch, so no chunk between them is empty; the
      first chunk is the text from `p` on, up to the first break. */
  lemma {:induction false} ChunksSeparated(s: string, p: nat, q: nat)
    requires p <= q <= |s|
    requires forall j :: p <= j < q ==> !BreakAt(s, j)
    ensures var r := Chunks(s, p, q); FirstChunk(s, p, r) && SeparatedChunks(r)
    decreases |s| - q, 1
  {
    if q == |s| {
      ScanAtEnd(s, p);
      LastChunkSeparated(s, p);
      SeparatedLast(Chunks(s, p, q), s, p);
    } else if BreakAt(s, q) {
      ChunksSeparatedAtBreak(s, p, q);
    } else {
      ChunksSeparated(s, p, q + 1);
      ScanPastNonBreak(s, p, q);
    }
  }

  lemma {:induction false} ChunksSeparatedAtBreak(s: string, p: nat, q: nat)
    requires p <= q < |s| && BreakAt(s, q)
    requires forall j :: p <= j < q ==> !BreakAt(s, j)
    ensures var r := Chunks(s, p, q); FirstChunk(s, p, r) && SeparatedChunks(r)
    decreases |s| - q, 0
  {
    var e := q + NewlineRun(s, q);
    ChunksSeparated(s, e, e);
    ChunkAtBreak(s, p, q);
    ChunksStep(s, p, q, Chunks(s, e, e));
    SeparatedCons(Chunks(s, p, q), s, p, q, Chunks(s, e, e));
  }

  lemma SeparatedLast(r: seq<string>, s: string, p: nat)
    requires p <= |s| && r == [s[p..]] && SeparatedChunks([s[p..]])
    ensures FirstChunk(s, p, r) && SeparatedChunks(r)
  {
  }

  lemma SeparatedCons(r: seq<string>, s: string, p: nat, q: nat, rest: seq<string>)
    requires p <= q <= |s| && BreakAt(s, q) && r == [s[p..q]] + rest
    requires SeparatedChunks([s[p..q]] + rest)
    ensures FirstChunk(s, p, r) && SeparatedChunks(r)
  {
  }

  lemma LastChunkSeparated(s: string, p: nat)
    requires p <= |s|
    requires forall j :: p <= j < |s| ==> !BreakAt(s, j)
    ensures SeparatedChunks([s[p..]])
  {
    NoBreakSlice(s, p, |s|);
    assert s[p..|s|] == s[p..];
  }

  lemma ChunksStep(s: string, p: nat, q: nat, rest: seq<string>)
    requires p <= q < |s| && BreakAt(s, q)
    requires forall j :: p <= j < q ==> !BreakAt(s, j)
    requires FirstChunk(s, q + NewlineRun(s, q), rest)
    requires SeparatedChunks(rest)
    ensures SeparatedChunks([s[p..q]] + rest)
  {
    var e := q + NewlineRun(s, q);
    NoBreakSlice(s, p, q);
    assert q > p ==> s[q - 1] != '\n' by {
      if q > p { assert !BreakAt(s, q - 1); }
    }
    assert rest[0] == [] || rest[0][0] == s[e];
    assert |rest| > 1 ==> rest[0] != [];
    SeparatedPrepend(s[p..q], rest);
  }

  /** A chunk may be put in front of separated chunks when the seam between them is clean. */
  lemma SeparatedPrepend(c: string, rest: seq<string>)
    requires NoBreak(c) && (c == [] || c[|c| - 1] != '\n')
    requires |rest| >= 1 && SeparatedChunks(rest)
    requires rest[0] == [] || rest[0][0] != '\n'
    requires |rest| > 1 ==> rest[0] != []
    ensures SeparatedChunks([c] + rest)
  {
    var r := [c] + rest;
    assert forall i :: 0 < i < |r| ==> r[i] == rest[i - 1];
  }

  /** `s.split(/\n{2,}/)` */
  function SplitBlocks(s: string): (r: seq<string>)
    ensures |r| >= 1
    ensures SeparatedChunks(r)
  {
    ChunksSeparated(s, 0, 0);
    Chunks(s, 0, 0)
  }

  /** The lengths of the line-feed runs that `Chunks` drops between its chunks. */
  ghost function Breaks(s: string, p: nat, q: nat): (ns: seq<nat>)
    requires p <= q <= |s|
    requires forall j :: p <= j < q ==> !BreakAt(s, j)
    decreases |s| - q
  {
    if q == |s| then []
    else if BreakAt(s, q) then
      var e := q + NewlineRun(s, q);
      [NewlineRun(s, q)] + Breaks(s, e, e)
    else Breaks(s, p, q + 1)
  }

  function Newlines(n: nat): (r: string)
    ensures |r| == n && forall i :: 0 <= i < n ==> r[i] == '\n'
  {
    seq(n, _ => '\n')
  }

  /** Puts chunks back together with the given runs of line feeds between them. */
  function Weave(chunks: seq<string>, gaps: seq<nat>): string
    requires |chunks| == |gaps| + 1
  {
    if |gaps| == 0 then chunks[0]
    else chunks[0] + Newlines(gaps[0]) + Weave(chunks[1..], gaps[1..])
  }

  lemma WeaveCons(c: string, n: nat, cs: seq<string>, gs: seq<nat>)
    requires |cs| == |gs| + 1
    ensures Weave([c] + cs, [n] + gs) == c + Newlines(n) + Weave(cs, gs)
  {
    assert ([c] + cs)[1..] == cs && ([n] + gs)[1..] == gs;
  }

  /** Each run of line feeds the scan drops is at least two long. */
  lemma {:induction false} BreaksAtLeastTwo(s: string, p: nat, q: nat)
    requires p <= q <= |s|
    requires forall j :: p <= j < q ==> !BreakAt(s, j)
    ensures forall i :: 0 <= i < |Breaks(s, p, q)| ==> Breaks(s, p, q)[i] >= 2
    decreases |s| - q
  {
    if q == |s| {
      ScanAtEnd(s, p);
    } else if BreakAt(s, q) {
      var e := q + NewlineRun(s, q);
      BreaksAtLeastTwo(s, e, e);
      BreaksAtBreak(s, p, q);
      RunAtBreak(s, q);
      GapsPrepend(NewlineRun(s, q), Breaks(s, e, e), Breaks(s, p, q));
    } else {
      BreaksAtLeastTwo(s, p, q + 1);
      ScanPastNonBreak(s, p, q);
    }
  }

  lemma RunAtBreak(s: string, q: nat)
    requires q < |s| && BreakAt(s, q)
    ensures NewlineRun(s, q) >= 2
  {
    assert NewlineRun(s, q + 1) >= 1;
  }

  lemma GapsPrepend(n: nat, gs: seq<nat>, ns: seq<nat>)
    requires ns == [n] + gs && n >= 2
    requires forall i :: 0 <= i < |gs| ==> gs[i] >= 2
    ensures forall i :: 0 <= i < |ns| ==> ns[i] >= 2
  {
    forall i | 0 <= i < |ns| ensures ns[i] >= 2 {
      if i > 0 { assert ns[i] == gs[i - 1]; }
    }
  }

  /** Splitting into blocks loses only the separating runs of line feeds: putting them back
      between the chunks gives the text again. */
  lemma {:induction false} ChunksWeave(s: string, p: nat, q: nat)
    requires p <= q <= |s|
    requires forall j :: p <= j < q ==> !BreakAt(s, j)
    ensures |Chunks(s, p, q)| == |Breaks(s, p, q)| + 1
    ensures Weave(Chunks(s, p, q), Breaks(s, p, q)) == s[p..]
    decreases |s| - q, 1
  {
    if q == |s| {
      ScanAtEnd(s, p);
      WovenLast(Chunks(s, p, q), Breaks(s, p, q), s[p..]);
    } else if BreakAt(s, q) {
      ChunksWeaveAtBreak(s, p, q);
    } else {
      ChunksWeave(s, p, q + 1);
      ScanPastNonBreak(s, p, q);
    }
  }

  lemma {:induction false} ChunksWeaveAtBreak(s: string, p: nat, q: nat)
    requires p <= q < |s| && BreakAt(s, q)
    requires forall j :: p <= j < q ==> !BreakAt(s, j)
    ensures |Chunks(s, p, q)| == |Breaks(s, p, q)| + 1
    ensures Weave(Chunks(s, p, q), Breaks(s, p, q)) == s[p..]
    decreases |s| - q, 0
  {
    var e := q + NewlineRun(s, q);
    ChunksWeave(s, e, e);
    var rest, gs := Chunks(s, e, e), Breaks(s, e, e);
    ChunkAtBreak(s, p, q);
    BreaksAtBreak(s, p, q);
    WeaveBreak(s, p, q, rest, gs);
    WovenPrefix(Chunks(s, p, q), Breaks(s, p, q), s[p..q], NewlineRun(s, q), rest, gs, s[p..]);
  }

  lemma ScanAtEnd(s: string, p: nat)
    requires p <= |s|
    requires forall j :: p <= j < |s| ==> !BreakAt(s, j)
    ensures Chunks(s, p, |s|) == [s[p..]] && Breaks(s, p, |s|) == []
  {
  }

  lemma ScanPastNonBreak(s: string, p: nat, q: nat)
    requires p <= q < |s| && !BreakAt(s, q)
    requires forall j :: p <= j < q ==> !BreakAt(s, j)
    ensures Chunks(s, p, q) == Chunks(s, p, q + 1) && Breaks(s, p, q) == Breaks(s, p, q + 1)
  {
  }

  lemma BreaksAtBreak(s: string, p: nat, q: nat)
    requires p <= q < |s| && BreakAt(s, q)
    requires forall j :: p <= j < q ==> !BreakAt(s, j)
    ensures Breaks(s, p, q) == [NewlineRun(s, q)] + Breaks(s, q + NewlineRun(s, q), q + NewlineRun(s, q))
  {
  }

  lemma WovenLast(cs: seq<string>, ns: seq<nat>, t: string)
    requires cs == [t] && ns == []
    ensures |cs| == |ns| + 1 && Weave(cs, ns) == t
  {
  }

  lemma WovenPrefix(cs: seq<string>, ns: seq<nat>, c: string, n: nat, rest: seq<string>,
                    gs: seq<nat>, t: string)
    requires cs == [c] + rest && ns == [n] + gs && |rest| == |gs| + 1
    requires Weave([c] + rest, [n] + gs) == t
    ensures |cs| == |ns| + 1 && Weave(cs, ns) == t
  {
  }

  /** A chunk, the run of line feeds after it and the woven rest make up the text. */
  lemma WeaveBreak(s: string, p: nat, q: nat, cs: seq<string>, gs: seq<nat>)
    requires p <= q < |s| && BreakAt(s, q)
    requires |cs| == |gs| + 1
    requires Weave(cs, gs) == s[q + NewlineRun(s, q)..]
    ensures Weave([s[p..q]] + cs, [NewlineRun(s, q)] + gs) == s[p..]
  {
    var e := q + NewlineRun(s, q);
    RunIsNewlines(s, q);
    SliceThree(s, p, q, e);
    WeaveCons(s[p..q], NewlineRun(s, q), cs, gs);
  }

  lemma RunIsNewlines(s: string, q: nat)
    requires q <= |s|
    ensures s[q..q + NewlineRun(s, q)] == Newlines(NewlineRun(s, q))
  {
  }

  // A lemma rather than an inline assert, to keep the solver context of `WeaveBreak` small.
  lemma SliceThree(s: string, p: nat, q: nat, e: nat)
    requires p <= q <= e <= |s|
    ensures s[p..] == s[p..q] + s[q..e] + s[e..]
  {
  }

  lemma SplitBlocksWeave(s: string)
    ensures |SplitBlocks(s)| == |Breaks(s, 0, 0)| + 1
    ensures forall i :: 0 <= i < |Breaks(s, 0, 0)| ==> Breaks(s, 0, 0)[i] >= 2
    ensures Weave(SplitBlocks(s), Breaks(s, 0, 0)) == s
  {
    ChunksWeave(s, 0, 0);
    BreaksAtLeastTwo(s, 0, 0);
  }

  // ---------------------------------------------------------------------------------------
  // Classification of one trimmed chunk

  /** Starts and ends with a triple-backtick fence. */
  predicate IsFence(t: string) {
    StartsWith(t, "```") && EndsWith(t, "```")
  }

  /** `trimmedBlock.slice(3, -3)`: empty when the two fences overlap. */
  function Unfence(t: string): (r: string)
    ensures |t| >= 6 ==> t == t[..3] + r + t[|t| - 3..]
    ensures |t| < 6 ==> r == ""
  {
    if |t| >= 6 then t[3..|t| - 3] else ""
  }

  predicate IsLowerAscii(c: char) { 'a' <= c <= 'z' }

  /** The number of lowercase ASCII letters at the start of `s`. */
  function LowerRun(s: string): (n: nat)
    ensures n <= |s|
    ensures forall i :: 0 <= i < n ==> IsLowerAscii(s[i])
    ensures n < |s| ==> !IsLowerAscii(s[n])
  {
    if s != [] && IsLowerAscii(s[0]) then 1 + LowerRun(s[1..]) else 0
  }

  /** `.replace(/^[a-z]+\n/, '')`: drops a leading language-tag line. */
  function DropTag(s: string): (r: string)
    ensures |r| <= |s| && r == s[|s| - |r|..]
    ensures |r| < |s| <==> 1 <= LowerRun(s) < |s| && s[LowerRun(s)] == '\n'
    ensures |r| < |s| ==> |r| == |s| - LowerRun(s) - 1
  {
    var n := LowerRun(s);
    if 1 <= n < |s| && s[n] == '\n' then s[n + 1..] else s
  }

  /** The literal payload of a code block: fences cut off, then an optional tag line, then
      surrounding whitespace. */
  function CodePayload(t: string): string
  {
    Trim(DropTag(Unfence(t)))
  }

  /** A chunk between fences is a code block whatever else it looks like; its payload is
      empty when the fences overlap, and never starts or ends with whitespace. */
  lemma CodeBlock(t: string)
    requires IsFence(t)
    ensures Classify(t) == Some(Code(CodePayload(t)))
    ensures |t| < 6 ==> CodePayload(t) == ""
    ensures var c := CodePayload(t); c == "" || (!IsSpace(c[0]) && !IsSpace(c[|c| - 1]))
  {
    CodeBlockClassified(t);
    CodePayloadEnds(t);
  }

  lemma CodeBlockClassified(t: string)
    requires IsFence(t)
    ensures Classify(t) == Some(Code(CodePayload(t)))
  {
  }

  lemma CodePayloadEnds(t: string)
    ensures |t| < 6 ==> CodePayload(t) == ""
    ensures var c := CodePayload(t); c == "" || (!IsSpace(c[0]) && !IsSpace(c[|c| - 1]))
  {
    var d := DropTag(Unfence(t));
    assert |t| < 6 ==> d == "";
    assert AllSpace("");
  }

  /** `line.replace(/^>\s?/, '')`: one leading `>` and at most one whitespace character after it. */
  function StripQuote(line: string): (r: string)
    ensures |r| <= |line| && r == line[|line| - |r|..]
    ensures (line == [] || line[0] != '>') ==> r == line
    ensures line != [] && line[0] == '>' && |line| > 1 && IsSpace(line[1]) ==> r == line[2..]
    ensures line != [] && line[0] == '>' && (|line| == 1 || !IsSpace(line[1])) ==> r == line[1..]
  {
    if line != [] && line[0] == '>' then
      if |line| > 1 && IsSpace(line[1]) then line[2..] else line[1..]
    else line
  }

  /** The text of a blockquote: each line stripped of its marker, joined again. */
  function QuoteText(t: string): string
  {
    Join(Map(Split(t, '\n'), StripQuote), '\n')
  }

  /** The blockquote keeps its lines: the quote text has exactly as many lines as the chunk,
      and line `i` of it is line `i` of the chunk stripped of its marker. */
  lemma QuoteLines(t: string)
    ensures Split(QuoteText(t), '\n') == Map(Split(t, '\n'), StripQuote)
  {
    var lines := Map(Split(t, '\n'), StripQuote);
    forall i | 0 <= i < |lines| ensures '\n' !in lines[i] {
      var l := Split(t, '\n')[i];
      assert lines[i] == l[|l| - |lines[i]|..];
    }
    SplitJoin(lines, '\n');
  }

  predicate IsDigit(c: char) { '0' <= c <= '9' }

  /** The number of ASCII digits (`\d`) at the start of `s`. */
  function DigitRun(s: string): (n: nat)
    ensures n <= |s|
    ensures forall i :: 0 <= i < n ==> IsDigit(s[i])
    ensures n < |s| ==> !IsDigit(s[n])
  {
    if s != [] && IsDigit(s[0]) then 1 + DigitRun(s[1..]) else 0
  }

  /** `/^\d+\.\s/.test(s)` */
  predicate HasNumberMarker(s: string) {
    var d := DigitRun(s);
    1 <= d && d + 1 < |s| && s[d] == '.' && IsSpace(s[d + 1])
  }

  /** `item.replace(/^\d+\.\s/, '')` */
  function OrderedItem(line: string): (r: string)
    ensures HasNumberMarker(line) ==> r == line[DigitRun(line) + 2..]
    ensures !HasNumberMarker(line) ==> r == line
  {
    if HasNumberMarker(line) then line[DigitRun(line) + 2..] else line
  }

  /** `item.substring(2)`: the first two characters are dropped, marker or not. */
  function BulletItem(line: string): (r: string)
    ensures |line| >= 2 ==> r == line[2..]
    ensures |line| < 2 ==> r == ""
  {
    if |line| >= 2 then line[2..] else ""
  }

  function NotBlank(line: string): bool { !IsBlank(line) }

  /** `trimmedBlock.split('\n').filter(item => item.trim().length > 0)` */
  function ItemLines(t: string): (r: seq<string>)
    ensures |r| <= |Split(t, '\n')|
    ensures forall l :: l in r <==> l in Split(t, '\n') && !IsBlank(l)
  {
    Filter(Split(t, '\n'), NotBlank)
  }

  function OrderedRuns(line: string): seq<Run> { RenderWithBold(OrderedItem(line)) }

  function BulletRuns(line: string): seq<Run> { RenderWithBold(BulletItem(line)) }

  /** The block a trimmed chunk renders as: the first test that succeeds decides, in the order
      fence, `"> "`, `"## "`, `"### "`, `^\d+\.\s`, `"* "` or `"- "`, then any other non-empty
      text as a paragraph; an empty chunk renders as nothing. */
  function Classify(t: string): Option<Block>
  {
    if IsFence(t) then Some(Code(CodePayload(t)))
    else if StartsWith(t, "> ") then Some(Quote(RenderWithBold(QuoteText(t))))
    else if StartsWith(t, "## ") then Some(H2(RenderWithBold(t[3..])))
    else if StartsWith(t, "### ") then Some(H3(RenderWithBold(t[4..])))
    else if HasNumberMarker(t) then Some(OList(Map(ItemLines(t), OrderedRuns)))
    else if StartsWith(t, "* ") || StartsWith(t, "- ") then Some(UList(Map(ItemLines(t), BulletRuns)))
    else if |t| > 0 then Some(Para(RenderWithBold(t)))
    else None
  }

  /** Each kind of block is chosen exactly when its own test passes and every earlier test
      fails; an empty chunk gives no block. */
  lemma ClassifyPrecedence(t: string)
    ensures Classify(t).None? <==> t == ""
    ensures Classify(t).Some? && Classify(t).value.Code? <==> IsFence(t)
    ensures Classify(t).Some? && Classify(t).value.Quote? <==> !IsFence(t) && StartsWith(t, "> ")
    ensures Classify(t).Some? && Classify(t).value.H2? <==>
      (!IsFence(t) && !StartsWith(t, "> ") && StartsWith(t, "## "))
    ensures Classify(t).Some? && Classify(t).value.H3? <==>
      (!IsFence(t) && !StartsWith(t, "> ") && !StartsWith(t, "## ") && StartsWith(t, "### "))
    ensures Classify(t).Some? && Classify(t).value.OList? <==>
      (!IsFence(t) && !StartsWith(t, "> ") && !StartsWith(t, "## ") && !StartsWith(t, "### ")
       && HasNumberMarker(t))
    ensures Classify(t).Some? && Classify(t).value.UList? <==>
      (!IsFence(t) && !StartsWith(t, "> ") && !StartsWith(t, "## ") && !StartsWith(t, "### ")
       && !HasNumberMarker(t) && (StartsWith(t, "* ") || StartsWith(t, "- ")))
    ensures Classify(t).Some? && Classify(t).value.Para? <==>
      (!IsFence(t) && !StartsWith(t, "> ") && !StartsWith(t, "## ") && !StartsWith(t, "### ")
       && !HasNumberMarker(t) && !StartsWith(t, "* ") && !StartsWith(t, "- ") && t != "")
  {
    assert t == "" ==> !IsFence(t) && !StartsWith(t, "> ") && !HasNumberMarker(t);
  }

  /** The block of one chunk, if it is not blank after trimming. */
  function ChunkBlock(c: string): seq<Block>
  {
    match Classify(Trim(c))
    case Some(b) => [b]
    case None => []
  }

  /** A chunk gives one block, or none exactly when it is blank. */
  lemma ChunkBlockCount(c: string)
    ensures |ChunkBlock(c)| == if IsBlank(c) then 0 else 1
  {
    ClassifyEmpty(Trim(c));
  }

  lemma ClassifyEmpty(t: string)
    ensures Classify(t).None? <==> t == ""
  {
    if t == "" {
      assert !IsFence(t) && !StartsWith(t, "> ") && !StartsWith(t, "## ");
      assert !StartsWith(t, "### ") && !HasNumberMarker(t);
      assert !StartsWith(t, "* ") && !StartsWith(t, "- ");
    }
  }

  /** The blocks of the chunks, in order; a chunk that is blank after trimming gives none. */
  function RenderChunks(chunks: seq<string>): (r: seq<Block>)
    ensures |r| <= |chunks|
  {
    if chunks == [] then []
    else
      ChunkBlockCount(chunks[0]);
      ChunkBlock(chunks[0]) + RenderChunks(chunks[1..])
  }

  /** `MarkdownRenderer({content})`: nothing for empty content, otherwise the blocks of the
      normalised, split text. */
  function Render(content: string): (r: seq<Block>)
    ensures content == "" ==> r == []
  {
    if content == "" then [] else RenderChunks(SplitBlocks(NormalizeNewlines(content)))
  }

  /** Rendering keeps source order: the blocks of two stretches of chunks are the blocks of
      the first followed by those of the second. */
  lemma {:induction false} RenderChunksAppend(a: seq<string>, b: seq<string>)
    ensures RenderChunks(a + b) == RenderChunks(a) + RenderChunks(b)
  {
    if a == [] {
      assert a + b == b;
    } else {
      assert (a + b)[0] == a[0] && (a + b)[1..] == a[1..] + b;
      RenderChunksAppend(a[1..], b);
    }
  }

  /** Exactly one block per chunk that is not blank. */
  lemma {:induction false} RenderChunksCount(chunks: seq<string>)
    ensures |RenderChunks(chunks)| == |Filter(chunks, NotBlank)|
  {
    if chunks != [] {
      RenderChunksCount(chunks[1..]);
      ChunkBlockCount(chunks[0]);
      FilterLength(chunks, NotBlank);
    }
  }

  /** A heading marked `### ` is never taken for a level-2 heading. */
  lemma ThirdLevelHeading(t: string)
    requires StartsWith(t, "### ")
    ensures Classify(t).Some? && Classify(t).value.H3?
  {
    assert t[0] == "### "[0] && t[2] == "### "[2];
    assert !IsFence(t) by { assert t[..3] != "```"; }
    assert !StartsWith(t, "> ") by { assert t[..2] != "> "; }
    assert !StartsWith(t, "## ") by { assert t[..3] != "## "; }
  }

  /** An ordered list has one item per non-blank line of its chunk, in order, each stripped of
      its own number marker if it has one. */
  lemma OrderedListItems(t: string)
    requires Classify(t).Some? && Classify(t).value.OList?
    ensures var items := Classify(t).value.items;
            |items| == |ItemLines(t)|
            && forall i :: 0 <= i < |items| ==> items[i] == RenderWithBold(OrderedItem(ItemLines(t)[i]))
  {
    ClassifyPrecedence(t);
    assert Classify(t) == Some(OList(Map(ItemLines(t), OrderedRuns)));
  }

  /** A bullet list has one item per non-blank line of its chunk, in order, each losing its
      first two characters. */
  lemma BulletListItems(t: string)
    requires Classify(t).Some? && Classify(t).value.UList?
    ensures var items := Classify(t).value.items;
            |items| == |ItemLines(t)|
            && forall i :: 0 <= i < |items| ==> items[i] == RenderWithBold(BulletItem(ItemLines(t)[i]))
  {
    ClassifyPrecedence(t);
    assert Classify(t) == Some(UList(Map(ItemLines(t), BulletRuns)));
  }

  // ---------------------------------------------------------------------------------------
  // Converse properties: what the split gives for text of a known shape

  /** Where no `**` occurs the scan never matches and the whole rest is one piece. */
  lemma {:induction false} FragmentsWithoutStars(s: string, p: nat, q: nat)
    requires p <= q <= |s|
    requires forall j :: p <= j < q ==> SpanAt(s, j).None?
    requires forall j :: q <= j < |s| ==> !StarsAt(s, j)
    ensures Fragments(s, p, q) == [s[p..]]
    decreases |s| - q
  {
    if q < |s| {
      FragmentsWithoutStars(s, p, q + 1);
    }
  }

  /** Text without an asterisk renders as one plain run holding all of it. */
  lemma PlainText(text: string)
    requires '*' !in text
    ensures RenderWithBold(text) == [Plain(text)]
  {
    if text != "" {
      FragmentsWithoutStars(text, 0, 0);
      assert text[0..] == text;
      assert text[0] != '*';
    }
  }

  /** Positions without a break do not end the current chunk. */
  lemma {:induction false} ChunksSkip(s: string, p: nat, q: nat, k: nat)
    requires p <= q <= k <= |s|
    requires forall j :: p <= j < k ==> !BreakAt(s, j)
    ensures Chunks(s, p, q) == Chunks(s, p, k)
    decreases k - q
  {
    if q < k {
      ChunksSkip(s, p, q + 1, k);
    }
  }

  lemma {:induction false} NewlineRunOf(s: string, i: nat, n: nat)
    requires i + n <= |s|
    requires forall j :: i <= j < i + n ==> s[j] == '\n'
    requires i + n == |s| || s[i + n] != '\n'
    ensures NewlineRun(s, i) == n
    decreases n
  {
    if n > 0 {
      NewlineRunOf(s, i + 1, n - 1);
    }
  }

  /** Inside a part of a string the breaks are those of the part. */
  lemma NoBreakWithin(s: string, lo: nat, hi: nat)
    requires lo <= hi <= |s|
    requires NoBreak(s[lo..hi])
    requires lo == hi || hi == |s| || s[hi - 1] != '\n'
    ensures forall j :: lo <= j < hi ==> !BreakAt(s, j)
  {
    forall j | lo <= j < hi ensures !BreakAt(s, j) {
      if j + 1 < hi {
        assert s[j] == s[lo..hi][j - lo] && s[j + 1] == s[lo..hi][j + 1 - lo];
        assert !BreakAt(s[lo..hi], j - lo);
      }
    }
  }

  /** Two stretches without blank lines, joined by a run of two or more line feeds, split
      back into exactly those two chunks. */
  lemma SplitTwoBlocks(a: string, n: nat, b: string)
    requires n >= 2 && NoBreak(a) && NoBreak(b)
    requires a == [] || a[|a| - 1] != '\n'
    requires b == [] || b[0] != '\n'
    ensures SplitBlocks(a + Newlines(n) + b) == [a, b]
  {
    var s := a + Newlines(n) + b;
    var e := |a| + n;
    assert s[0..|a|] == a && s[..|a|] == a && s[e..|s|] == b && s[e..] == b;
    NoBreakWithin(s, 0, |a|);
    NoBreakWithin(s, e, |s|);
    assert BreakAt(s, |a|);
    NewlineRunOf(s, |a|, n);
    SplitAtOneBreak(s, |a|, e);
  }

  lemma SplitAtOneBreak(s: string, k: nat, e: nat)
    requires k < e <= |s|
    requires forall j :: 0 <= j < k ==> !BreakAt(s, j)
    requires BreakAt(s, k) && NewlineRun(s, k) == e - k
    requires forall j :: e <= j < |s| ==> !BreakAt(s, j)
    ensures SplitBlocks(s) == [s[..k], s[e..]]
  {
    ChunksSkip(s, 0, 0, k);
    ChunkAtBreak(s, 0, k);
    LastChunk(s, e);
    calc {
      SplitBlocks(s);
      Chunks(s, 0, k);
      [s[0..k]] + Chunks(s, e, e);
      [s[0..k]] + [s[e..]];
      { assert s[0..k] == s[..k]; }
      [s[..k], s[e..]];
    }
  }

  lemma ChunkAtBreak(s: string, p: nat, q: nat)
    requires p <= q < |s| && BreakAt(s, q)
    requires forall j :: p <= j < q ==> !BreakAt(s, j)
    ensures Chunks(s, p, q) == [s[p..q]] + Chunks(s, q + NewlineRun(s, q), q + NewlineRun(s, q))
  {
  }

  lemma LastChunk(s: string, e: nat)
    requires e <= |s|
    requires forall j :: e <= j < |s| ==> !BreakAt(s, j)
    ensures Chunks(s, e, e) == [s[e..]]
  {
    ChunksSkip(s, e, e, |s|);
  }

  /** A stretch without blank lines is a single chunk. */
  lemma SplitOneBlock(s: string)
    requires NoBreak(s)
    ensures SplitBlocks(s) == [s]
  {
    ChunksSkip(s, 0, 0, |s|);
  }
}
