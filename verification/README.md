# Summarizer content pipeline, modelled in Dafny

The summarizer web app fetches a page and extracts its main text. It splits the text into
sentence-aligned chunks, sends the first chunk to a summarization service, and stores the summary
it gets back. This project models the text-processing core of that pipeline and proves properties
about it:

- `extractContent` in `src/app/api/summarize/route.ts`. It picks the text of the first content
  selector that selects any element, falls back to the body text, then collapses white space and
  trims (modules `ContentSelection`, `Whitespace`, `Strings`).
- `chunkText` in the same file. It splits the text into sentences with the regular expression
  `[^.!?]+[.!?]+` (module `Sentences`). It then packs whole sentences greedily into trimmed chunks
  of at most `maxLength` characters, 4000 by default (module `Chunker`). `Chunker.ChunkText` is the
  loop itself. It is proved equal to a functional packing, and that packing is proved to be the
  only packing that meets a reference definition of greedy packing.
- Reading `summary_text` out of the service's answer, which is either an object or an array
  (module `SummaryResponse`).
- `extractMainContent` in `src/utils/content-extractor.ts` (modules `HtmlPatterns`,
  `MainContent`). It returns the captured group of the first of three content patterns that
  captures something. Otherwise it cuts the header, footer, nav, script, style and aside blocks out
  of the page. The regular expressions are matched by hand:
  - the `i` flag folds ASCII case;
  - a lazy `[\s\S]*?` stops at the first closing tag, so a capture never contains that closing tag;
    a nested `<div>` therefore truncates a div capture;
  - `[^>]*>` ends at the first `>`;
  - `match` takes the leftmost match.

The selector loop at route.ts lines 29-36 stops at the first selector that selects any element at
all. If that element's text is empty, the body text is used and the later selectors are never
tried.

The HTML parser is not modelled. A page is represented by what each selector selects after the
unwanted elements are removed (`ContentSelection.Page`).

Lengths are counted in characters. Integers are unbounded, and no length in this code can overflow.

## Model

| member | source | states |
|---|---|---|
| Sentences.SentenceAt | src/app/api/summarize/route.ts:53 | one match of `[^.!?]+[.!?]+` anchored at the start: a run of non-terminators followed by its whole run of terminators; no match exactly when the text is empty, starts with a terminator or holds no terminator |
| Sentences.Split | src/app/api/summarize/route.ts:53 | every piece the global sentence match returns is a sentence: a run of non-terminators followed by its whole run of `.`, `!`, `?` |
| Sentences.SplitCharacterized | src/app/api/summarize/route.ts:53 | the match result is the one and only sequence of sentences that concatenates to the input's sentence text, so it is independent of how it is computed |
| Sentences.SplitCoversText | src/app/api/summarize/route.ts:53 | the matched sentences, joined, are exactly the input after its leading terminators, up to a tail that holds no terminator: only that tail is dropped |
| Sentences.SplitEmptyIff | src/app/api/summarize/route.ts:53 | the `\|\| []` case: no sentences exactly when no non-terminator is followed later by a terminator |
| Sentences.SplitUnique | src/app/api/summarize/route.ts:53 | splitting the concatenation of sentences gives those sentences back (round trip) |
| Chunker.PackGroupsIsGreedy | src/app/api/summarize/route.ts:57-65 | the sentence groups of the loop cover the sentences in order, none is empty, only a single sentence can exceed the limit, and a group is closed only when the next sentence would not fit |
| Chunker.GreedyPackingUnique | src/app/api/summarize/route.ts:57-65 | at most one packing meets the greedy definition |
| Chunker.GreedyPackingCharacterized | src/app/api/summarize/route.ts:57-65 | a packing meets the greedy definition exactly when it is the loop's packing |
| Chunker.BuffersPreserveSentences | src/app/api/summarize/route.ts:57-65 | the buffers before trimming, joined, are the joined sentences: no sentence is lost, duplicated or split across chunks |
| Chunker.ChunksNonEmptyTrimmed | src/app/api/summarize/route.ts:61-65 | every chunk pushed is non-empty and already trimmed |
| Chunker.ChunkLengthBound | src/app/api/summarize/route.ts:58-62 | a chunk is at most `maxLength` long, unless it is a single sentence longer than that, trimmed |
| Chunker.NoChunkIffNoSentence | src/app/api/summarize/route.ts:53-65 | no chunk at all exactly when the text has no terminated sentence |
| Chunker.ChunkText | src/app/api/summarize/route.ts:51-68 | the loop with its string buffer computes the greedy chunks; it returns none exactly when there is no sentence; its chunks are non-empty, trimmed and within the limit unless one oversized sentence |
| Chunker.ChunkTextDefault | src/app/api/summarize/route.ts:92 | called with the default limit, every chunk holds at most 4000 characters unless it is one sentence longer than that |
| Whitespace.ReplaceRuns | src/app/api/summarize/route.ts:45-46 | after the pass no class character other than a space remains, no two class characters are adjacent, the result is empty exactly when the input is, and its first character is a space when the input starts with a class character and is the input's first character otherwise |
| Whitespace.ReplaceRunsIsCollapse | src/app/api/summarize/route.ts:45-46 | the pass equals the character-by-character collapse: each maximal run of the class becomes one space and every other character is kept, in order |
| Whitespace.WordsOfReplaceRuns | src/app/api/summarize/route.ts:45 | the `\s` pass keeps the words of the text unchanged |
| Whitespace.NormalizeContent | src/app/api/summarize/route.ts:44-47 | the cleaned text is trimmed, has no line feed, every white-space character left is a single space between two non-space characters, and it is no longer than its input |
| Whitespace.NormalizeIsJoinOfWords | src/app/api/summarize/route.ts:44-47 | the cleaned text is the input's words joined by single spaces (an independent definition) |
| Whitespace.NormalizeIdempotent | src/app/api/summarize/route.ts:44-47 | cleaning cleaned text changes nothing |
| Whitespace.NormalizeEmpty | src/app/api/summarize/route.ts:44-47 | the cleaned text is empty exactly when the input is all white space |
| Strings.Trim | src/app/api/summarize/route.ts:47 | the result is trimmed, is the input with only white space removed at both ends, and is empty exactly when the input is all white space |
| ContentSelection.FirstSelected | src/app/api/summarize/route.ts:29-36 | the loop returns the text of the earliest selector that selects an element, and nothing when none does |
| ContentSelection.SelectContent | src/app/api/summarize/route.ts:27-41 | content is the earliest selection's text, or the body text when that text is empty or nothing was selected |
| ContentSelection.ExtractContent | src/app/api/summarize/route.ts:13-47 | the extracted content is always in cleaned form |
| ContentSelection.EarliestSelectorWins | src/app/api/summarize/route.ts:14-41 | the earliest selector in the fixed order that selects anything decides the content |
| ContentSelection.LaterSelectorsIgnored | src/app/api/summarize/route.ts:29-36 | what later selectors select never changes the content |
| ContentSelection.BodyFallback | src/app/api/summarize/route.ts:38-41 | with no selection, or an empty first selection, the content is the cleaned body text |
| ContentSelection.ExtractContentEmpty | src/app/api/summarize/route.ts:38-47 | the content is empty exactly when the chosen text is all white space |
| ContentSelection.BlankSelectionHidesBody | src/app/api/summarize/route.ts:30-47 | as written, a selection holding only white space yields empty content although the body has text |
| ContentSelection.ExtractContentWithFallback | src/app/api/summarize/route.ts:38-47 | the corrected extraction, with the body used whenever the selected text cleans to nothing, is always in cleaned form |
| ContentSelection.FallbackContentEmpty | src/app/api/summarize/route.ts:38-47 | with the intended fallback the content is empty only when the body has no text either, and a selection with text is used as before |
| SummaryResponse.ResolveSummary | src/app/api/summarize/route.ts:118-128 | an accepted summary is non-empty and is the `summary_text` of the object answer or of the array's first element; a null answer ends in "Failed to generate summary"; any other rejection is "No summary generated" with status 500 |
| SummaryResponse.ArrayShapeTolerated | src/app/api/summarize/route.ts:119-121 | an array whose first element is an object is read exactly as that object would be |
| SummaryResponse.ObjectAccepted | src/app/api/summarize/route.ts:121-128 | an object answer is accepted exactly when its `summary_text` is present and non-empty |
| SummaryResponse.ArrayWithoutFirstSummary | src/app/api/summarize/route.ts:119-128 | an empty array, or one whose first element has no summary, is rejected whatever the later elements hold |
| HtmlPatterns.ElementAt | src/utils/content-extractor.ts:4 | a match at a position opens with `<tag`, its group starts after the first `>` and ends at the first closing tag after it |
| HtmlPatterns.ElementAtComplete | src/utils/content-extractor.ts:4 | the element pattern matches at a position exactly when `<tag` opens there and some later `>` is followed by the closing tag |
| HtmlPatterns.ClassValueEnd | src/utils/content-extractor.ts:5-6 | the class value ends at the first `"` after `class="`, and there is none when no `"` follows |
| HtmlPatterns.ClassAttributeAt | src/utils/content-extractor.ts:5-6 | a class match needs `class="` and a keyword that ends before the value's closing quote; the tag then ends at the first `>` after that quote, and the group ends at the first `</div>` after it |
| HtmlPatterns.ClassAttributeAtComplete | src/utils/content-extractor.ts:5-6 | the class part matches exactly when `class="` is there, a keyword lies before the closing quote, and some `>` after the quote is followed by `</div>`; otherwise there is no match |
| HtmlPatterns.LazyScan | src/utils/content-extractor.ts:5-6 | the lazy `[^>]*?` tries the attribute at every position up to the first `>`, and it returns the first that succeeds or fails only when all fail |
| HtmlPatterns.DivWithClassAt | src/utils/content-extractor.ts:5-6 | a div pattern match opens with `<div`; its group is the one of the class part at the first position the lazy scan reaches where `class="` holds a keyword, so it runs from the tag's `>` to the first `</div>`; there is no match exactly when no such class part lies before the first `>` |
| HtmlPatterns.Leftmost | src/utils/content-extractor.ts:11 | the search returns the leftmost position where the pattern matches, and nothing only when it matches nowhere |
| HtmlPatterns.FirstMatch | src/utils/content-extractor.ts:11 | `match` returns the match at the leftmost matching position |
| HtmlPatterns.Capture | src/utils/content-extractor.ts:11-12 | `match[1]` is the group of the leftmost match; it is absent exactly when the pattern matches nowhere |
| HtmlPatterns.ElementAtEarlier | src/utils/content-extractor.ts:4 | an element that matches at a later `<tag` would also match at an earlier one |
| HtmlPatterns.ElementCaptureAtFirstOpening | src/utils/content-extractor.ts:4 | the first `<tag` of the page decides: if it is complete, the capture is that element's text; if not, there is no capture at all |
| HtmlPatterns.ElementCaptureHasNoClosingTag | src/utils/content-extractor.ts:4 | a captured group never contains its closing tag |
| MainContent.FirstCapture | src/utils/content-extractor.ts:10-15 | the loop returns the capture of the first pattern whose group is non-empty; an empty group falls through to the next pattern |
| MainContent.RemoveMatchesFrom | src/utils/content-extractor.ts:19-24 | a global replace by the empty string keeps a subsequence of the text; it leaves the text unchanged exactly when nothing matches |
| MainContent.MatchStarts | src/utils/content-extractor.ts:19-24 | the matches a global replace meets form a left-to-right scan: each starts at or after the end of the one before, and no match starts in a gap between them or after the last |
| MainContent.ScanUnique | src/utils/content-extractor.ts:19-24 | there is only one such scan of a text |
| MainContent.RemoveMatchesKeepsGaps | src/utils/content-extractor.ts:19-24 | a global replace by the empty string cuts out exactly the matches of the scan and keeps every other character, in order |
| MainContent.RemoveBlocks | src/utils/content-extractor.ts:19-24 | removing one kind of tag block keeps a subsequence; the text is unchanged exactly when no such block occurs |
| MainContent.RemoveBlocksCutsScannedBlocks | src/utils/content-extractor.ts:19-24 | removing the blocks of one tag cuts out exactly the blocks the scan meets, each from `<tag` to the first closing tag after its `>`; no block starts in the text that is kept |
| MainContent.StripTags | src/utils/content-extractor.ts:18-24 | the chain of removals keeps a subsequence; the text is unchanged exactly when it holds no block of any of the tags |
| MainContent.StripTagsStageByStage | src/utils/content-extractor.ts:18-24 | the chain ends in its last stage, and each stage is the previous one with exactly the scanned blocks of its tag cut out |
| MainContent.StripNonContent | src/utils/content-extractor.ts:18-26 | the fallback removes only characters, and only when one of the six kinds of blocks occurs |
| MainContent.ExtractMainContent | src/utils/content-extractor.ts:3-26 | the earliest pattern with a non-empty capture gives the result; with none, the result is the page with the six block kinds removed; the result is always a subsequence of the page |
| MainContent.FallbackUnchangedIff | src/utils/content-extractor.ts:17-26 | without content wrappers the page comes back unchanged exactly when it has none of the six block kinds, and strictly shorter otherwise |

## Left out

- The rest of the `POST` handler (route.ts lines 70-116 and 130-169): authentication, request parsing, fetching the page, the call to the summarization service and its generation parameters, storing the summary and the first 1000 characters of the content, and the axios error responses. These are network and database I/O. Reading an answer of `null` is kept in `SummaryResponse.ResolveSummary`, as the catch-all rejection.
- Using `chunks[0]` (line 95) when there are no chunks. The service is then called with an undefined input, and what it answers is outside this code.
- The HTML parser: loading the page, the removal of unwanted elements (line 11) and `.text()` are abstracted into `ContentSelection.Page`. The model does not say which elements a CSS selector selects.
- ContentSelection.ExtractContentWithFallback: its own contract states only the cleaned form; when it is empty and when it agrees with `ExtractContent` is stated by `FallbackContentEmpty`.
- ContentSelection.ExtractContent: its own contract states only the cleaned form; the selection order is stated by `EarliestSelectorWins`, `LaterSelectorsIgnored` and `BodyFallback`.
- JavaScript's `\s` and `trim` also treat Unicode spaces (no-break space, line separators and others) as white space. The model uses the six ASCII white-space characters.
- JavaScript lengths count UTF-16 code units. The model counts characters, so a chunk holding characters outside the Basic Multilingual Plane is measured differently.
- The `i` flag without `u` also folds some non-ASCII letters. The model folds ASCII letters only.
- SummaryResponse.ResolveSummary: a `summary_text` that is not a string is treated as absent. The code would accept a truthy non-string value and store it.
- The components, pages and server actions of the app (UI, login, registration, sign-out) do not process text.

## Findings

| source | as written | input that shows it | evidently intended | confidence | as-written member | corrected member |
|---|---|---|---|---|---|---|
| src/app/api/summarize/route.ts:38-41 | the body fallback fires only when the selected text is the empty string, so white-space-only text is kept and then cleaned to "" | a page whose only `article` element holds just a line break and spaces, with body text "Hello world." | fall back to the body whenever the selected region has no text, so the content is empty only for a page with no text | not executed | ContentSelection.BlankSelectionHidesBody | ContentSelection.FallbackContentEmpty |
