/** Worked inputs for the renderer: each lemma pins the output of `RenderWithBold` or `Render`
    on one concrete text, including the places where the component's regular expressions give
    more than a reader of the markup would expect. */
module MarkdownExamples {
  import opened Util
  import opened Strings
  import opened Markdown

  /** The scan after the closing `**` of `"**a** b"` finds no further span. */
  lemma BoldExampleTail()
    ensures Fragments("**a** b", 5, 5) == [" b"]
  {
    var s := "**a** b";
    assert SpanAt(s, 5).None? && SpanAt(s, 6).None?;
  }

  /** The span at position 0 is split off with the empty text before it. */
  lemma BoldExampleHead()
    ensures Fragments("**a** b", 0, 0) == ["", "**a**"] + Fragments("**a** b", 5, 5)
  {
    var s := "**a** b";
    assert CloseFrom(s, 2) == Some(3);
    assert SpanAt(s, 0) == Some(5);
    assert s[0..0] == "" && s[0..5] == "**a**";
  }

  lemma BoldExampleRuns(f: seq<string>)
    requires f == ["", "**a**", " b"]
    ensures Map(f, ToRun) == [Plain(""), Bold("a"), Plain(" b")]
  {
    assert ToRun("") == Plain("");
    assert ToRun("**a**") == Bold("a");
    assert ToRun(" b") == Plain(" b");
  }

  /** A line that opens with bold text renders as an empty plain run, the bold run and the
      rest: `split` with a capture group yields the empty text before the first match. */
  lemma BoldExample()
    ensures RenderWithBold("**a** b") == [Plain(""), Bold("a"), Plain(" b")]
  {
    BoldExampleTail();
    BoldExampleHead();
    BoldExampleRuns(Fragments("**a** b", 0, 0));
  }

  /** `.*?` does not cross a line feed, so no span is split off; the whole text still starts
      and ends with `**` and is rendered bold, line feed and all. */
  lemma BoldAcrossNewline()
    ensures RenderWithBold("**a\nb**") == [Bold("a\nb")]
  {
    BoldAcrossNewlinePieces();
    var s := "**a\nb**";
    assert ToRun(s) == Bold("a\nb") by { assert s[2..|s| - 2] == "a\nb"; }
  }

  lemma BoldAcrossNewlinePieces()
    ensures Fragments("**a\nb**", 0, 0) == ["**a\nb**"]
  {
    var s := "**a\nb**";
    assert CloseFrom(s, 2).None?;
    assert forall q :: 0 <= q < |s| ==> SpanAt(s, q).None?;
  }

  /** A lone carriage return survives the line-ending normalisation, and `.` does not match it
      either: the span cannot start at the first `**`, and the next `**` opens the span. */
  lemma CarriageReturnInSpanHead()
    ensures Fragments("**a\r** b**", 0, 0) == ["**a\r", "** b**"] + Fragments("**a\r** b**", 10, 10)
  {
    var s := "**a\r** b**";
    assert CloseFrom(s, 2).None?;
    assert SpanAt(s, 0).None? && SpanAt(s, 1).None? && SpanAt(s, 2).None? && SpanAt(s, 3).None?;
    assert CloseFrom(s, 6) == Some(8);
    assert SpanAt(s, 4) == Some(10);
    assert s[0..4] == "**a\r" && s[4..10] == "** b**";
  }

  lemma CarriageReturnInSpanTail()
    ensures Fragments("**a\r** b**", 10, 10) == [""]
  {
    var s := "**a\r** b**";
    assert |s| == 10 && s[10..] == "";
  }

  lemma CarriageReturnInSpanRuns(f: seq<string>)
    requires f == ["**a\r", "** b**", ""]
    ensures Map(f, ToRun) == [Plain("**a\r"), Bold(" b"), Plain("")]
  {
    assert ToRun("**a\r") == Plain("**a\r") by { assert !EndsWith("**a\r", "**"); }
    assert ToRun("** b**") == Bold(" b");
    assert ToRun("") == Plain("");
  }

  lemma CarriageReturnInSpan()
    ensures RenderWithBold("**a\r** b**") == [Plain("**a\r"), Bold(" b"), Plain("")]
  {
    CarriageReturnInSpanHead();
    CarriageReturnInSpanTail();
    CarriageReturnInSpanRuns(Fragments("**a\r** b**", 0, 0));
  }

  /** Two single-line chunks separated by a blank line (or more) render as the blocks of each. */
  lemma TwoChunks(a: string, n: nat, b: string)
    requires n >= 2
    requires '\r' !in a && '\n' !in a && '\r' !in b && '\n' !in b
    ensures SplitBlocks(NormalizeNewlines(a + Newlines(n) + b)) == [a, b]
  {
    var s := a + Newlines(n) + b;
    assert '\r' !in s by {
      assert forall i :: 0 <= i < |s| ==> s[i] != '\r' by {
        forall i | 0 <= i < |s| ensures s[i] != '\r' {
          if i < |a| { assert s[i] == a[i]; }
          else if i < |a| + n { assert s[i] == Newlines(n)[i - |a|]; }
          else { assert s[i] == b[i - |a| - n]; }
        }
      }
    }
    NormalizeWithoutCR(s);
    NoBreakWithoutNewline(a);
    NoBreakWithoutNewline(b);
    assert a == [] || a[|a| - 1] in a;
    assert b == [] || b[0] in b;
    SplitTwoBlocks(a, n, b);
  }

  /** `"## " + title` renders as a second-level heading with the title as its only run. */
  lemma HeadingChunk(title: string)
    requires title != [] && !IsSpace(title[|title| - 1]) && '*' !in title
    ensures Classify(Trim("## " + title)) == Some(H2([Plain(title)]))
  {
    var a := "## " + title;
    assert a[0] == '#' && a[|a| - 1] == title[|title| - 1];
    TrimKeeps(a);
    FirstCharDiffers(a, "```");
    FirstCharDiffers(a, "> ");
    assert a[..3] == "## ";
    assert a[3..] == title;
    PlainText(title);
  }

  /** Text that starts with a letter and holds no marker renders as a paragraph of one run. */
  lemma ParagraphChunk(text: string)
    requires text != [] && ('A' <= text[0] <= 'Z' || 'a' <= text[0] <= 'z')
    requires !IsSpace(text[|text| - 1]) && '*' !in text
    ensures Classify(Trim(text)) == Some(Para([Plain(text)]))
  {
    TrimKeeps(text);
    FirstCharDiffers(text, "```");
    FirstCharDiffers(text, "> ");
    FirstCharDiffers(text, "## ");
    FirstCharDiffers(text, "### ");
    FirstCharDiffers(text, "* ");
    FirstCharDiffers(text, "- ");
    assert DigitRun(text) == 0;
    PlainText(text);
  }

  lemma SingleChunk(c: string, block: Block)
    requires Classify(Trim(c)) == Some(block)
    ensures RenderChunks([c]) == [block]
  {
    assert [c][1..] == [];
  }

  lemma RenderPair(s: string, a: string, b: string)
    requires s != "" && SplitBlocks(NormalizeNewlines(s)) == [a, b]
    ensures Render(s) == RenderChunks([a]) + RenderChunks([b])
  {
    RenderChunksAppend([a], [b]);
    assert [a] + [b] == [a, b];
  }

  /** A heading, a blank line and a paragraph: the document renders as exactly those two
      blocks, in that order. */
  lemma HeadingAndParagraph(title: string, body: string)
    requires title != [] && !IsSpace(title[|title| - 1]) && '*' !in title
    requires '\r' !in title && '\n' !in title
    requires body != [] && ('A' <= body[0] <= 'Z' || 'a' <= body[0] <= 'z')
    requires !IsSpace(body[|body| - 1]) && '*' !in body
    requires '\r' !in body && '\n' !in body
    ensures Render("## " + title + "\n\n" + body) == [H2([Plain(title)]), Para([Plain(body)])]
  {
    var a := "## " + title;
    assert '\r' !in a && '\n' !in a;
    assert Newlines(2) == "\n\n";
    var s := a + Newlines(2) + body;
    assert "## " + title + "\n\n" + body == s;
    TwoChunks(a, 2, body);
    HeadingChunk(title);
    ParagraphChunk(body);
    SingleChunk(a, H2([Plain(title)]));
    SingleChunk(body, Para([Plain(body)]));
    assert s != "";
    RenderPair(s, a, body);
  }
}
