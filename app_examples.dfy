/** Worked inputs for `generateSummary`. */
module AppExamples {
  import opened Util
  import opened Strings
  import opened App

  /** In `"## Summary\n" + body + "\n##" + rest` the heading is found at the very start. */
  lemma HeadingAtStart(text: string, body: string, rest: string)
    requires text == SummaryHeading + "\n" + body + "\n##" + rest
    ensures IndexOf(text, SummaryHeading, 0) == Some(0)
  {
    assert text[0..|SummaryHeading|] == SummaryHeading;
  }

  /** ... and the first `##` after it is the one following the body's line. */
  lemma NextHeadingAfterBody(text: string, body: string, rest: string)
    requires text == SummaryHeading + "\n" + body + "\n##" + rest
    requires '#' !in body
    ensures IndexOf(text, "##", |SummaryHeading|) == Some(|SummaryHeading| + 2 + |body|)
  {
    var e := |SummaryHeading| + 1 + |body|;
    assert text[e + 1] == '#' && text[e + 2] == '#';
    assert OccursAt(text, "##", e + 1) by {
      assert text[e + 1..e + 3] == "##";
    }
    forall j | |SummaryHeading| <= j < e + 1 ensures !OccursAt(text, "##", j) {
      if j == |SummaryHeading| || j == e {
        assert text[j] == '\n';
      } else {
        assert text[j] == body[j - |SummaryHeading| - 1];
      }
      assert text[j..j + 2][0] == text[j];
    }
    IndexOfFirst(text, "##", |SummaryHeading|, e + 1);
  }

  /** A short summary section ending at the next heading is the summary, as it is: for
      `"## Summary\nHello world\n## Next"` the summary is `"Hello world"`. */
  lemma SummaryOfShortSection(body: string, rest: string)
    requires body != [] && !IsSpace(body[0]) && !IsSpace(body[|body| - 1])
    requires '#' !in body && |body| <= MaxSummary
    ensures GenerateSummary(SummaryHeading + "\n" + body + "\n##" + rest) == body
  {
    var text := SummaryHeading + "\n" + body + "\n##" + rest;
    HeadingAtStart(text, body, rest);
    NextHeadingAfterBody(text, body, rest);
    var a, b := |SummaryHeading|, |SummaryHeading| + 2 + |body|;
    assert text[a..b] == ['\n'] + body + ['\n'];
    TrimSurrounded('\n', body, '\n');
    assert SummaryCapture(text) == Some(body);
  }
}
