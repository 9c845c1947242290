/// The document text that `check_syllabus` builds from the PDF pages: every
/// page in order, its own text when it has any, a numbered placeholder
/// otherwise. Page extraction itself is outside the model: a page is given as
/// the string `extract_text()` returned, or None.
module PageText {
  import opened Text

  /** Python's `if text:` on the extracted page text. */
  predicate HasText(page: Option<string>) {
    page.Some? && page.value != ""
  }

  /** What the page with 1-based number `number` adds to the document. */
  function PageChunk(page: Option<string>, number: nat): string {
    if HasText(page) then page.value + "\n"
    else "\n--- Page " + NatToString(number) + " ---\n[No Text Found]\n"
  }

  /** The chunks of all pages, in page order, numbered from 1. */
  function PageChunks(pages: seq<Option<string>>): (chunks: seq<string>)
    ensures |chunks| == |pages|
  {
    seq(|pages|, i requires 0 <= i < |pages| => PageChunk(pages[i], i + 1))
  }

  lemma PageChunksPrefix(pages: seq<Option<string>>, i: nat)
    requires i < |pages|
    ensures PageChunks(pages[..i + 1]) == PageChunks(pages[..i]) + [PageChunk(pages[i], i + 1)]
  {
  }

  /** The `all_text` loop: the document text is the concatenation of one
      chunk per page, in page order; an empty page i contributes the
      placeholder that names i. */
  method AssemblePages(pages: seq<Option<string>>) returns (allText: string)
    ensures allText == Concat(PageChunks(pages))
  {
    allText := "";
    var i := 0;
    while i < |pages|
      invariant 0 <= i <= |pages|
      invariant allText == Concat(PageChunks(pages[..i]))
    {
      var text := pages[i];
      if HasText(text) {
        allText := allText + text.value + "\n";
      } else {
        allText := allText + "\n--- Page " + NatToString(i + 1) + " ---\n[No Text Found]\n";
      }
      PageChunksPrefix(pages, i);
      i := i + 1;
    }
    assert pages[..i] == pages;
  }

  /** Appending a page appends its chunk: earlier pages are never rewritten. */
  lemma {:induction false} AssembleAppendPage(pages: seq<Option<string>>, page: Option<string>)
    ensures Concat(PageChunks(pages + [page]))
            == Concat(PageChunks(pages)) + PageChunk(page, |pages| + 1)
  {
    var all := pages + [page];
    assert all[..|pages|] == pages;
    assert all[..|pages| + 1] == all;
    PageChunksPrefix(all, |pages|);
  }

  /** The placeholder names its page: the digits after "--- Page " read back
      as the page's 1-based number. */
  lemma PlaceholderNamesPage(number: nat)
    ensures var chunk := PageChunk(None, number);
            var digits := NatToString(number);
            chunk == "\n--- Page " + digits + " ---\n[No Text Found]\n"
            && ParseDecimal(digits) == number
  {
    ParseNatToString(number);
  }
}
