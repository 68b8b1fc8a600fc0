# EduFrame core, modelled in Dafny

EduFrame is a single-page study aid. The user types a topic and the page sends it to a
language model. The page then shows the answer, which is written in a small subset of
markdown, and keeps a searchable history of past answers in the browser's local storage.
This project models the parts of the page that carry logic and proves properties of them:

- **The markdown-subset renderer** (`markdown.dfy`, module `Markdown`).
  - `Render` turns the answer text into a sequence of blocks: code, quote, level-2 and
    level-3 heading, ordered list, bullet list, paragraph.
  - `RenderWithBold` turns the text of one block into plain and bold runs.
  - Both follow the component's own regular expressions, with ECMAScript's matching
    rules. Line endings are normalised first (`\r\n` becomes `\n`). The text is then
    split on maximal runs of two or more line feeds, as ECMAScript's `split` does. Each
    chunk is trimmed with JavaScript's whitespace set and classified by the first prefix
    test that succeeds. Inline text is split on a lazy `**…**` span, and the separators
    are kept. The span's `.` matches no line terminator: not a line feed, a carriage
    return, U+2028 or U+2029.
- **The summary heuristic** `generateSummary` (`app.dfy`, module `App`). It uses the
  trimmed text between the leftmost `## Summary` and the next `##`. When there is no such
  text, it uses the first 150 characters followed by `...`.
- **The page component's state** (`App.AppState`).
  - Its fields are the topic, the response, the loading flag, the error message, the
    history, the panel's visibility, the active record and `stored`. The field `stored` is
    the decoded content of the `eduframe-history` storage slot.
  - Its methods are the handlers `handleAnalyze`, `handleSelectHistory`,
    `handleDeleteHistory` and `handleClearHistory`, plus `updateHistory` and the panel
    toggles.
  - Every method that changes the history leaves `stored == Some(history)`.
- **The history panel's logic** (`history_panel.dfy`, module `HistoryPanel`):
  - the search filter: a blank term leaves the history as it is; otherwise records are
    kept when their lowercased topic contains the lowercased term, in order;
  - the choice between the empty-history message, the no-results message and the list;
  - the enable condition of the Clear History button.

`util.dfy` holds `Option`, `filter`, `map` and concatenation. `strings.dfy` holds the
JavaScript string built-ins the code uses: `trim`, `split`, `join`, `includes`,
`substring` and `toLowerCase`. It also holds `IndexOf`, a leftmost-occurrence search.
The code calls no `indexOf`; the model uses this search to state where the regular
expression of `generateSummary` (`App.tsx:10`) finds its literal parts. `types.dfy` holds the history record. Its declaration,
`types.ts`, is not part of this model; the record's fields are the ones `App.tsx` builds
and `HistoryPanel.tsx` reads. `markdown_examples.dfy` and `app_examples.dfy` pin the
behaviour on inputs of a known shape.

The model follows what the code does, in these places in particular:

- The summary fallback appends `...` even to a text shorter than 150 characters
  (`App.tsx:15`). It is also used when a `## Summary` heading has no later `##`. The
  regular expression needs that closing `##`; the end of the text does not count.
- A line that opens with bold text renders with an empty plain run first:
  `"**a** b"` gives `[Plain(""), Bold("a"), Plain(" b")]` (`MarkdownExamples.BoldExample`).
- A fragment that the lazy span did not match still becomes bold when it starts and ends
  with `**`. So `"**a\nb**"` is one bold run holding a line feed
  (`MarkdownExamples.BoldAcrossNewline`). The "no line terminator in bold" property therefore
  holds for the spans the split delimits, which are the odd-numbered runs.
- A carriage return that is not followed by a line feed survives normalisation, and `.`
  does not match it. So `"**a\r** b**"` gives the pieces `"**a\r"`, `"** b**"` and `""`,
  and renders as `[Plain("**a\r"), Bold(" b"), Plain("")]`
  (`MarkdownExamples.CarriageReturnInSpan`).
- Bullet items lose their first two characters, whether or not those are a marker. The
  payload of a code block is trimmed.
- A line holding only spaces does not separate blocks.

## Model

| member | source | states |
|---|---|---|
| Util.Filter | components/HistoryPanel.tsx:42-44 | the result is no longer than the input, and a value is in it exactly when it is in the input and kept |
| Util.FilterCount | App.tsx:91 | a kept value occurs in the result as often as in the input; a dropped value does not occur |
| Util.FilterConcat | components/HistoryPanel.tsx:42-44 | filtering preserves order: the filter of a concatenation is the concatenation of the filters |
| Util.FilterKeepsAll | App.tsx:91 | when every element is kept, the result is the input itself |
| Util.Map | components/MarkdownRenderer.tsx:40 | `map` keeps the length, and element i of the result is f applied to element i |
| Strings.IsSpace | components/MarkdownRenderer.tsx:24 | the whitespace set of `trim` and of `\s` (also used at components/MarkdownRenderer.tsx:40 and :58 and App.tsx:10): tab, line tabulation, form feed, space, no-break space, the byte order mark, each space separator, and the four line terminators; see Strings.Trim and Strings.TrimDropsSpace |
| Strings.Trim | components/MarkdownRenderer.tsx:24 | `trim` returns the slice left after the leading whitespace; only whitespace is cut off either side; the result is empty exactly for all-whitespace input; otherwise it starts and ends with a non-space |
| Strings.TrimKeeps | components/MarkdownRenderer.tsx:24 | a text with no whitespace at either end is its own trim |
| Strings.TrimIdempotent | App.tsx:12 | trimming an already trimmed text changes nothing, as `summaryMatch[1].trim()` does to a capture the two `\s*` have already trimmed |
| Strings.TrimDropsSpace | components/MarkdownRenderer.tsx:24 | a leading whitespace character is removed by `trim` |
| Strings.TrimSurrounded | App.tsx:12 | one whitespace character on each side of a text that has no whitespace at its ends is removed, leaving the text |
| Strings.FirstCharDiffers | components/MarkdownRenderer.tsx:37 | a text whose first character differs from the prefix's does not pass `startsWith` |
| Strings.Take | App.tsx:15 | `substring(0, n)` has length min(n, length) and is a prefix of the text |
| Strings.Split | components/MarkdownRenderer.tsx:39 | `split('\n')` gives at least one piece, no piece holds the separator, and joining the pieces with it gives back the text |
| Strings.SplitJoin | components/MarkdownRenderer.tsx:38-41 | splitting a join of separator-free pieces gives back the pieces, so `join` and `split` are inverses |
| Strings.IndexOf | App.tsx:10 | the leftmost-occurrence search with which the model states the regular expression's match: it finds an occurrence at or after `from` with none before it, or reports that there is none |
| Strings.IndexOfFirst | App.tsx:10 | an occurrence with no earlier one from `from` on is the position the search returns |
| Strings.Includes | components/HistoryPanel.tsx:43 | `includes` holds exactly when the pattern occurs at some position |
| Strings.TrimmedSliceExcludes | App.tsx:10-12 | the trimmed text of a stretch in which a pattern never starts does not contain the pattern |
| Strings.IsBlank | components/HistoryPanel.tsx:39 | `!s.trim()`: the text trims to the empty string, that is, it is empty or whitespace only (see Strings.Trim, whose ensures give `Trim(s) == []` exactly for all-whitespace text) |
| Strings.StartsWith | components/MarkdownRenderer.tsx:27 | `startsWith(prefix)`: the prefix is no longer than the text and equals its first characters; see Strings.FirstCharDiffers and Markdown.ClassifyPrecedence |
| Strings.EndsWith | components/MarkdownRenderer.tsx:27 | `endsWith(suffix)`: the suffix is no longer than the text and equals its last characters; see Markdown.CodeBlock and Markdown.SpanInner |
| Strings.Join | components/MarkdownRenderer.tsx:41 | `join(sep)`: the pieces with one separator between each pair; see Strings.SplitJoin and Strings.Split, which make it the inverse of `split` |
| Strings.Lower | components/HistoryPanel.tsx:43 | lowercasing keeps the length and maps each character by ASCII lowercasing |
| Markdown.IsLineTerminator | components/MarkdownRenderer.tsx:6 | the characters `.` does not match: line feed, carriage return, U+2028 and U+2029; see Markdown.CloseFrom, Markdown.SpanInner and MarkdownExamples.CarriageReturnInSpan |
| Markdown.CloseFrom | components/MarkdownRenderer.tsx:6 | the lazy `.*?` ends at the first `**` that follows with no line terminator (line feed, carriage return, U+2028, U+2029) before it; when it fails, every later `**` has a line terminator before it |
| Markdown.SpanAt | components/MarkdownRenderer.tsx:6 | a span found at q is `**`, text with no line terminator and no `**`, then `**`; none is found exactly when q does not open `**` or no closing `**` follows before a line terminator |
| Markdown.Fragments | components/MarkdownRenderer.tsx:6 | the split has an odd number of pieces |
| Markdown.FragmentsShape | components/MarkdownRenderer.tsx:6 | the pieces concatenate to the text; the odd-numbered ones are delimited spans and no span starts in the others; each span is the leftmost one that starts where the previous span ended, and the text before it is the even piece |
| Markdown.LeftmostIsFragments | components/MarkdownRenderer.tsx:6 | any sequence of pieces that cuts the text at leftmost spans is the one the split's scan produces |
| Markdown.LeftmostSplitUnique | components/MarkdownRenderer.tsx:6 | at most one sequence of pieces cuts the text at leftmost spans, so the pieces are determined by the text |
| Markdown.Unwrap | components/MarkdownRenderer.tsx:9 | `slice(2, -2)`: a piece of four or more characters is its first two characters, the result and its last two; a shorter piece gives the empty text |
| Markdown.ToRun | components/MarkdownRenderer.tsx:8-11 | a piece that starts and ends with `**` becomes bold without them, any other stays plain; see Markdown.SpanInner and Markdown.RenderWithBold |
| Markdown.SpanInner | components/MarkdownRenderer.tsx:8-9 | a delimited span becomes `Bold` of its text without the two `**`, which holds no line terminator and no `**` |
| Markdown.RenderWithBold | components/MarkdownRenderer.tsx:4-12 | empty text gives one empty plain run; any other text gives one run per piece of the split, bold without the `**` when the piece starts and ends with `**` and plain otherwise; the number of runs is odd; every odd-numbered run is bold, with no line terminator and no `**` |
| Markdown.RenderWithBoldSource | components/MarkdownRenderer.tsx:6-11 | writing each bold run back with its `**` gives back the text, unless a fragment is just `**` or `***` |
| Markdown.FragmentsWithoutStars | components/MarkdownRenderer.tsx:6 | where no `**` occurs, the rest of the text is one fragment |
| Markdown.PlainText | components/MarkdownRenderer.tsx:4-12 | a text with no asterisk renders as one plain run holding all of it |
| Markdown.NormalizeNewlines | components/MarkdownRenderer.tsx:19 | `replace(/\r\n/g, '\n')`, scanning left to right; see Markdown.NormalizeNewlinesKeeps, Markdown.NormalizeAppend and Markdown.CarriageReturnLineFeed |
| Markdown.NormalizeNewlinesKeeps | components/MarkdownRenderer.tsx:19 | replacing `\r\n` never lengthens the text and only removes carriage returns: the text without them is unchanged; a text with no `\r\n` is returned as it is |
| Markdown.NormalizeAppend | components/MarkdownRenderer.tsx:19 | the replacement works piece by piece when the second piece does not start with a line feed |
| Markdown.CarriageReturnLineFeed | components/MarkdownRenderer.tsx:19 | every `\r\n`, wherever it stands, becomes one line feed, and the text on either side is normalised on its own |
| Markdown.NormalizeWithoutCR | components/MarkdownRenderer.tsx:19 | a text without carriage returns is not changed by normalisation |
| Markdown.NewlineRun | components/MarkdownRenderer.tsx:19 | the counted run of line feeds is maximal |
| Markdown.Chunks | components/MarkdownRenderer.tsx:19 | the `split(/\n{2,}/)` scan gives at least one chunk; see Markdown.ChunksSeparated, Markdown.ChunksWeave and Markdown.BreaksAtLeastTwo |
| Markdown.ChunksSeparated | components/MarkdownRenderer.tsx:19 | the `split(/\n{2,}/)` scan's first chunk is a slice of the text, followed by a break when more chunks follow; no chunk holds two line feeds in a row; no chunk after the first starts with a line feed; no chunk before the last ends with one; no chunk strictly between the first and the last is empty |
| Markdown.SplitBlocks | components/MarkdownRenderer.tsx:19 | the whole text splits into at least one chunk, and the chunks have the separation properties above |
| Markdown.ChunksWeave | components/MarkdownRenderer.tsx:19 | the scan drops one run of line feeds between each pair of adjacent chunks, and putting those runs back between the chunks gives the scanned text |
| Markdown.BreaksAtLeastTwo | components/MarkdownRenderer.tsx:19 | every run the scan drops holds at least two line feeds |
| Markdown.SplitBlocksWeave | components/MarkdownRenderer.tsx:19 | putting the chunks back together with the dropped runs gives back the text, so the split keeps source order and loses only the separators |
| Markdown.NoBreakWithoutNewline | components/MarkdownRenderer.tsx:19 | a text without line feeds holds no block separator |
| Markdown.SplitTwoBlocks | components/MarkdownRenderer.tsx:19 | two separator-free texts joined by n ≥ 2 line feeds split into exactly those two chunks |
| Markdown.SplitOneBlock | components/MarkdownRenderer.tsx:19 | a text with no two line feeds in a row is one chunk |
| Markdown.LowerRun | components/MarkdownRenderer.tsx:28 | counts the maximal leading run of `[a-z]` |
| Markdown.DropTag | components/MarkdownRenderer.tsx:28 | `replace(/^[a-z]+\n/, '')` returns a suffix of the text; it is shorter exactly when the text starts with one or more lowercase letters and then a line feed; what it drops is the whole tag line |
| Markdown.Unfence | components/MarkdownRenderer.tsx:28 | `slice(3, -3)`: a chunk of six or more characters is its first three characters, the result and its last three; a shorter chunk gives the empty text |
| Markdown.IsFence | components/MarkdownRenderer.tsx:27 | `startsWith('```') && endsWith('```')`; see Markdown.ClassifyPrecedence and Markdown.CodeBlock |
| Markdown.CodePayload | components/MarkdownRenderer.tsx:28 | the fences cut off, a tag line dropped, then trimmed; see Markdown.Unfence, Markdown.DropTag, Strings.Trim and Markdown.CodeBlock |
| Markdown.CodeBlock | components/MarkdownRenderer.tsx:27-33 | a fenced chunk is a code block of its payload whatever else it holds; the payload is empty when the chunk is shorter than six characters, and otherwise empty or without whitespace at either end |
| Markdown.StripQuote | components/MarkdownRenderer.tsx:40 | `replace(/^>\s?/, '')` removes a prefix of the line: nothing from a line not starting with `>`; otherwise the `>`, and a second character only if it is whitespace |
| Markdown.QuoteText | components/MarkdownRenderer.tsx:38-41 | the chunk split into lines, each stripped of its marker, joined with line feeds; see Markdown.QuoteLines |
| Markdown.QuoteLines | components/MarkdownRenderer.tsx:37-41 | the quote text has exactly the lines of the chunk, each stripped, so the line count is kept |
| Markdown.DigitRun | components/MarkdownRenderer.tsx:58 | counts the maximal leading run of `\d` |
| Markdown.HasNumberMarker | components/MarkdownRenderer.tsx:58 | `/^\d+\.\s/.test`: one or more leading digits, a dot, then a whitespace character; see Markdown.OrderedItem and Markdown.ClassifyPrecedence |
| Markdown.OrderedItem | components/MarkdownRenderer.tsx:63 | a line starting with `digits . whitespace` loses exactly that marker; any other line is unchanged |
| Markdown.BulletItem | components/MarkdownRenderer.tsx:75 | `substring(2)`: the line without its first two characters, marker or not |
| Markdown.NotBlank | components/MarkdownRenderer.tsx:59 | `item.trim().length > 0`, the filter of both lists (also at line 71); see Markdown.ItemLines |
| Markdown.ItemLines | components/MarkdownRenderer.tsx:59 | the items are the lines of the chunk that are not blank, in order |
| Markdown.OrderedRuns | components/MarkdownRenderer.tsx:63 | an ordered item renders the line without its number marker; see Markdown.OrderedListItems |
| Markdown.BulletRuns | components/MarkdownRenderer.tsx:75 | a bullet item renders the line without its first two characters; see Markdown.BulletListItems |
| Markdown.Classify | components/MarkdownRenderer.tsx:27-87 | the chain of block tests on a trimmed chunk; see Markdown.ClassifyPrecedence, Markdown.CodeBlock, Markdown.ThirdLevelHeading, Markdown.OrderedListItems, Markdown.BulletListItems and Markdown.ClassifyEmpty |
| Markdown.ClassifyPrecedence | components/MarkdownRenderer.tsx:24-85 | for each kind of block, the chunk becomes that kind exactly when its test passes and every earlier test fails, in the order fence, `> `, `## `, `### `, number marker, `* `/`- `, paragraph; an empty chunk gives nothing |
| Markdown.ThirdLevelHeading | components/MarkdownRenderer.tsx:50-55 | a chunk starting with `### ` is a level-3 heading, never taken for a level-2 one |
| Markdown.OrderedListItems | components/MarkdownRenderer.tsx:58-67 | an ordered list has one item per non-blank line, in order, each rendered after losing its own number marker |
| Markdown.BulletListItems | components/MarkdownRenderer.tsx:70-79 | a bullet list has one item per non-blank line, in order, each rendered after losing its first two characters |
| Markdown.ClassifyEmpty | components/MarkdownRenderer.tsx:82-85 | a trimmed chunk gives no block exactly when it is empty |
| Markdown.ChunkBlock | components/MarkdownRenderer.tsx:23-87 | a chunk is trimmed, then classified; see Markdown.ChunkBlockCount |
| Markdown.ChunkBlockCount | components/MarkdownRenderer.tsx:24-85 | a chunk gives one block, or none exactly when it is blank after trimming |
| Markdown.RenderChunks | components/MarkdownRenderer.tsx:23-86 | at most one block per chunk |
| Markdown.RenderChunksAppend | components/MarkdownRenderer.tsx:23 | rendering keeps source order: the blocks of two stretches of chunks are the blocks of the first followed by those of the second |
| Markdown.RenderChunksCount | components/MarkdownRenderer.tsx:23-85 | exactly one block per chunk that is not blank after trimming |
| Markdown.Render | components/MarkdownRenderer.tsx:15-19 | empty content renders as no blocks at all |
| MarkdownExamples.BoldExample | components/MarkdownRenderer.tsx:6-11 | `"**a** b"` renders as an empty plain run, bold `a`, and plain `" b"` |
| MarkdownExamples.BoldAcrossNewline | components/MarkdownRenderer.tsx:6-9 | `"**a\nb**"` is one bold run containing the line feed |
| MarkdownExamples.CarriageReturnInSpan | components/MarkdownRenderer.tsx:6-11 | `"**a\r** b**"` renders as plain `"**a\r"`, bold `" b"` and an empty plain run: the span cannot cross the carriage return |
| MarkdownExamples.TwoChunks | components/MarkdownRenderer.tsx:19 | two single-line texts with a blank line between them give exactly those two chunks |
| MarkdownExamples.HeadingChunk | components/MarkdownRenderer.tsx:50-51 | `## ` and a title without asterisks render as a level-2 heading with the title as its only plain run |
| MarkdownExamples.ParagraphChunk | components/MarkdownRenderer.tsx:82-83 | a line starting with a letter and without asterisks renders as a paragraph of one plain run |
| MarkdownExamples.HeadingAndParagraph | components/MarkdownRenderer.tsx:15-85 | `"## " + title + "\n\n" + body` renders as exactly a heading with the title and a paragraph with the body, in that order |
| HistoryPanel.Matches | components/HistoryPanel.tsx:43 | the lowercased topic includes the lowercased term; see HistoryPanel.FilterHistory |
| HistoryPanel.MatchesTerm | components/HistoryPanel.tsx:42-44 | the callback given to `filter`, the match test for one fixed term; see HistoryPanel.FilterHistory |
| HistoryPanel.FilterHistory | components/HistoryPanel.tsx:38-45 | a blank term returns the history itself; a non-blank term keeps exactly the records whose lowercased topic contains the lowercased, untrimmed term; the result is never longer and holds only history records |
| HistoryPanel.FilterHistoryCount | components/HistoryPanel.tsx:42-44 | a matching record stays as often as it occurs; the others are dropped |
| HistoryPanel.FilterHistoryOrder | components/HistoryPanel.tsx:42-44 | the search keeps history order |
| HistoryPanel.Body | components/HistoryPanel.tsx:88-95 | the empty-history message shows exactly when there is no history; no-results shows exactly when there is history but nothing matches (the term is then not blank); otherwise the filtered records are listed |
| HistoryPanel.ClearEnabled | components/HistoryPanel.tsx:132 | the Clear History button is enabled exactly when the history is not empty |
| App.SummaryCapture | App.tsx:10-11 | a capture is the trimmed text between the leftmost `## Summary` and the first `##` after it; there is none when either is missing |
| App.GenerateSummary | App.tsx:9-16 | a summary is at most 153 characters |
| App.SummaryFromSection | App.tsx:11-13 | a non-empty capture of at most 150 characters is the summary; a longer one becomes its first 147 characters and `...`, exactly 150 |
| App.SummaryFallback | App.tsx:15 | without a non-empty capture, the summary is the first min(150, length) characters followed by `...` |
| App.SectionShape | App.tsx:10-12 | a capture contains no `##` and does not start or end with whitespace |
| AppExamples.HeadingAtStart | App.tsx:10 | a text that opens with `## Summary` has its heading at position 0 |
| AppExamples.NextHeadingAfterBody | App.tsx:10 | the lazy capture stops at the `##` following a body without `#` |
| AppExamples.SummaryOfShortSection | App.tsx:10-13 | `"## Summary\n" + body + "\n##…"` has `body` as its summary, for a trimmed body without `#` of at most 150 characters |
| App.FindById | App.tsx:80 | `find` reports no record exactly when the identifier is absent; otherwise it returns the first record carrying it |
| App.FindUnique | App.tsx:80 | with unique identifiers, `find` returns the one record carrying the identifier |
| App.Keeps | App.tsx:91 | `item => item.id !== id`: a record is kept exactly when it carries another identifier; see App.RemoveId |
| App.RemoveId | App.tsx:91 | the remaining records are exactly those with another identifier; none carries the identifier; an absent identifier leaves the history equal |
| App.RemoveIdOrder | App.tsx:91 | removal keeps history order |
| App.RemoveIdUnique | App.tsx:91 | with unique identifiers, removal keeps them unique and removes exactly one record when the identifier is present, none otherwise |
| App.AppState.constructor | App.tsx:19-38 | the initial state with an empty form and no panel, no error, no active record; the history is the stored list, or empty when the slot holds nothing usable |
| App.AppState.UpdateHistory | App.tsx:40-43 | the history is set and the stored copy equals it |
| App.PrependUnique | App.tsx:67 | putting a record with a new identifier in front keeps the identifiers unique |
| App.AppState.Record | App.tsx:57-69 | the success path puts the record in front of the history, stores it, shows its response, marks it active and clears the error; nothing else changes; unique identifiers stay unique when the record's is new |
| App.AppState.Analyze | App.tsx:45-77 | a blank topic only sets the validation message; a success puts the new record, with its summary, in front of the history, stores it, shows the response and marks the record active; a failure leaves the history, clears the response and the active record and shows the generic message; `isLoading` ends false; the topic and the panel are untouched; unique identifiers stay unique when the new one is fresh |
| App.AppState.Select | App.tsx:79-88 | a known identifier shows that record's topic and response, marks it active, clears the error and closes the panel; an unknown one changes nothing; the history never changes |
| App.AppState.Delete | App.tsx:90-98 | the history loses the records with the identifier and is stored; the display is cleared only when that record was active; unique identifiers stay unique |
| App.AppState.Clear | App.tsx:100-105 | the history and its stored copy are empty, and the active record, response and topic are cleared |
| App.AppState.SetTopic | App.tsx:115 | the form sets the topic |
| App.AppState.ToggleHistory | App.tsx:110 | the header button flips the panel's visibility |
| App.AppState.CloseHistory | App.tsx:133 | the panel's close action hides it |
| App.Reload | App.tsx:28-43 | after any update, a fresh page load restores the same history in the same order |
| App.AnalyzeThenSelect | App.tsx:45-88 | selecting the record an analysis has just added shows that analysis's topic and response again |
| App.AnalyzeThenDelete | App.tsx:45-98 | deleting the record an analysis has just added restores the previous history and its stored copy |

## Left out

- JSON parsing and serialisation of the storage slot (`App.tsx:28-43`) are not modelled. The constructor takes the decoded snapshot as an `Option`: `None` stands for an empty slot, a missing slot or a parse failure. A slot holding valid JSON that is not a list of records is not modelled.
- The storage write (`localStorage.setItem`) is taken to succeed. A quota or privacy exception is not modelled.
- The remote model call (`services/geminiService.ts`) is not part of this model. `Analyze` receives its outcome (`Success(text)` or `Failure`) as a parameter.
- `crypto.randomUUID()` and `Date.now()` become the `newId` and `now` parameters of `Analyze`.
- App.AppState.Analyze: it does not require the new identifier to be fresh, because the code never checks it. Uniqueness of identifiers is promised only when the identifier is fresh.
- React's scheduling is not modelled: batched `setState`, the asynchronous `await` and a stale `history` captured by `useCallback`. Each handler is one sequential step over the state.
- Strings.Lower: `toLowerCase` is modelled for ASCII letters only. Other characters are left as they are, whereas JavaScript applies full Unicode case mapping.
- Strings and lengths are sequences of Unicode characters. JavaScript counts UTF-16 code units, so `substring(0, 150)` and the 147/150 limits of `generateSummary` differ for text outside the Basic Multilingual Plane.
- Markdown.RenderWithBoldSource: it requires that no fragment is exactly `**` or `***`. Those fragments render as an empty bold run, and the text cannot be recovered from it.
- The JSX output (element types, CSS classes, keys), `components/Header.tsx`, `components/TopicForm.tsx`, `components/ResponseDisplay.tsx` (clipboard and timer), the date formatting in `components/HistoryPanel.tsx:109` and `constants.ts` (a prompt string) are presentation only, with no logic to model.
- The highlight of the active record in the panel (`components/HistoryPanel.tsx:103`) is a styling choice. It is not modelled.
