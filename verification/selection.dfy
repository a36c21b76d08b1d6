/** The selector strategy of `extractContent` (route.ts lines 13-47): the text of the first content
    selector that selects anything, the body text when that text is empty, then white-space clean-up.
    The HTML parser is not modelled: a page is what it answers to the selectors. */
module ContentSelection {
  import opened Wrappers
  import opened Strings
  import opened Whitespace

  /** `possibleContentSelectors`, in priority order. */
  const ContentSelectors: seq<string> := [
    "article", ".post-content", ".entry-content", ".article-content", ".blog-post",
    ".main-content", "main", "#main", ".content", "[role=\"main\"]"
  ]

  /** A parsed page after the unwanted elements were removed: `select(sel)` is `None` when `sel`
      selects no element and otherwise the text of its selection; `bodyText` is the text of `body`. */
  datatype Page = Page(select: string -> Option<string>, bodyText: string)

  /** The answers of the page to the content selectors, in priority order. */
  function Answers(page: Page): (found: seq<Option<string>>)
    ensures |found| == |ContentSelectors|
    ensures forall i :: 0 <= i < |ContentSelectors| ==> found[i] == page.select(ContentSelectors[i])
  {
    seq(|ContentSelectors|, i requires 0 <= i < |ContentSelectors| => page.select(ContentSelectors[i]))
  }

  /** No selector before position `i` selected anything. */
  predicate NoneBefore(found: seq<Option<string>>, i: nat)
  {
    forall j :: 0 <= j < i && j < |found| ==> found[j].None?
  }

  /** The loop over the selectors, which stops at the first one that selects an element. */
  function FirstSelected(found: seq<Option<string>>): (r: Option<string>)
    ensures r.None? <==> NoneBefore(found, |found|)
    ensures forall i :: 0 <= i < |found| && found[i].Some? && NoneBefore(found, i) ==> r == found[i]
  {
    if |found| == 0 then None
    else if found[0].Some? then found[0]
    else FirstSelected(found[1..])
  }

  /** The content before clean-up: the text of the earliest selector that selected anything, or the
      body text when that text is empty or no selector selected anything. */
  function SelectContent(found: seq<Option<string>>, body: string): (content: string)
    ensures forall i :: 0 <= i < |found| && found[i].Some? && NoneBefore(found, i) ==>
      content == (if found[i].value == "" then body else found[i].value)
    ensures NoneBefore(found, |found|) ==> content == body
  {
    match FirstSelected(found)
    case Some(text) => if text == "" then body else text
    case None => body
  }

  /** `extractContent`, from the parsed page on. */
  function ExtractContent(page: Page): (r: string)
    ensures IsNormalized(r)
  {
    NormalizeContent(SelectContent(Answers(page), page.bodyText))
  }

  /** The earliest selector that selects anything decides, whatever later selectors select. */
  lemma EarliestSelectorWins(page: Page, i: nat)
    requires i < |ContentSelectors|
    requires page.select(ContentSelectors[i]).Some?
    requires forall j :: 0 <= j < i ==> page.select(ContentSelectors[j]).None?
    ensures var text := page.select(ContentSelectors[i]).value;
      ExtractContent(page) == NormalizeContent(if text == "" then page.bodyText else text)
  {
    var found := Answers(page);
    assert NoneBefore(found, i);
  }

  /** Two pages that agree on the body and on the selectors up to the first one that selects
      anything give the same content. */
  lemma LaterSelectorsIgnored(page: Page, other: Page, i: nat)
    requires i < |ContentSelectors| && page.bodyText == other.bodyText
    requires page.select(ContentSelectors[i]).Some?
    requires forall j :: 0 <= j <= i ==> page.select(ContentSelectors[j]) == other.select(ContentSelectors[j])
    requires forall j :: 0 <= j < i ==> page.select(ContentSelectors[j]).None?
    ensures ExtractContent(page) == ExtractContent(other)
  {
    EarliestSelectorWins(page, i);
    EarliestSelectorWins(other, i);
  }

  /** The body text is used exactly when no selector selects anything or the first selection's
      text is empty; the content is then the cleaned body text. */
  lemma BodyFallback(page: Page)
    requires NoneBefore(Answers(page), |ContentSelectors|) || FirstSelected(Answers(page)) == Some("")
    ensures ExtractContent(page) == NormalizeContent(page.bodyText)
  {
  }

  /** The content is empty exactly when the text chosen (selection or body) is all white space. */
  lemma ExtractContentEmpty(page: Page)
    ensures ExtractContent(page) == "" <==> AllSpace(SelectContent(Answers(page), page.bodyText))
  {
    NormalizeEmpty(SelectContent(Answers(page), page.bodyText));
  }

  /** As written, a selection whose text is only white space is taken (it is not the empty string),
      so the body is never consulted and the content comes out empty even when the body has text. */
  lemma BlankSelectionHidesBody(page: Page, i: nat)
    requires i < |ContentSelectors|
    requires page.select(ContentSelectors[i]).Some?
    requires forall j :: 0 <= j < i ==> page.select(ContentSelectors[j]).None?
    requires page.select(ContentSelectors[i]).value != "" && AllSpace(page.select(ContentSelectors[i]).value)
    requires !AllSpace(page.bodyText)
    ensures ExtractContent(page) == "" && NormalizeContent(page.bodyText) != ""
  {
    EarliestSelectorWins(page, i);
    NormalizeEmpty(page.select(ContentSelectors[i]).value);
    NormalizeEmpty(page.bodyText);
  }

  /** The evidently intended selection: fall back to the body whenever the selected text has nothing
      but white space in it. */
  function ExtractContentWithFallback(page: Page): (r: string)
    ensures IsNormalized(r)
  {
    var selected := NormalizeContent(SelectContent(Answers(page), page.bodyText));
    if selected == "" then NormalizeContent(page.bodyText) else selected
  }

  /** With the intended fallback the content is empty only when the body has no text either, and
      a selection with text is still used as before. */
  lemma FallbackContentEmpty(page: Page)
    ensures ExtractContentWithFallback(page) == "" <==>
      AllSpace(SelectContent(Answers(page), page.bodyText)) && AllSpace(page.bodyText)
    ensures !AllSpace(SelectContent(Answers(page), page.bodyText)) ==>
      ExtractContentWithFallback(page) == ExtractContent(page)
  {
    NormalizeEmpty(SelectContent(Answers(page), page.bodyText));
    NormalizeEmpty(page.bodyText);
  }
}
