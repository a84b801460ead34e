/**
 * `extrair_texto_pdf` of lib/extrator.py: the text of the first three pages of
 * a PDF, concatenated and stripped. The PDF reader is outside the model: a
 * document is the sequence of what text extraction yields for each page, with
 * `None` for a page that yields no text.
 */
module PdfText {
  import opened Wrappers
  import opened Text

  /** Only pages with index below this limit are read. */
  const PageLimit: nat := 3

  /** A page's contribution: its text, or the empty string when extraction yields none. */
  function PageText(page: Option<string>): (text: string)
    ensures page.None? ==> text == ""
    ensures page.Some? ==> text == page.value
  {
    match page
    case Some(t) => t
    case None => ""
  }

  /** The page texts concatenated in page order. */
  function ConcatPages(pages: seq<Option<string>>): (text: string)
    ensures pages != [] ==> PageText(pages[0]) <= text
  {
    if pages == [] then "" else PageText(pages[0]) + ConcatPages(pages[1..])
  }

  /** The pages that are read: the first `PageLimit`, or all of a shorter document. */
  function ReadPages(pages: seq<Option<string>>): (read: seq<Option<string>>)
    ensures |read| == if |pages| < PageLimit then |pages| else PageLimit
    ensures read == pages[..|read|]
  {
    if |pages| < PageLimit then pages else pages[..PageLimit]
  }

  /** The text `extrair_texto_pdf` returns: stripped, and no longer than the read pages' text. */
  function FirstPagesText(pages: seq<Option<string>>): (text: string)
    ensures IsStripped(text)
    ensures |text| <= |ConcatPages(ReadPages(pages))|
  {
    var raw := ConcatPages(ReadPages(pages));
    Strip(raw)
  }

  /** `extrair_texto_pdf`: the loop over the pages that stops at index `PageLimit`. */
  method ExtractPdfText(pages: seq<Option<string>>) returns (text: string)
    ensures text == FirstPagesText(pages)
  {
    var acc := "";
    var i := 0;
    while i < |pages|
      invariant 0 <= i <= |pages| && i <= PageLimit
      invariant acc == ConcatPages(pages[..i])
    {
      if i >= PageLimit {
        break;
      }
      assert pages[..i + 1] == pages[..i] + [pages[i]];
      ConcatPagesSnoc(pages[..i], pages[i]);
      acc := acc + PageText(pages[i]);
      i := i + 1;
    }
    assert pages[..i] == ReadPages(pages);
    text := Strip(acc);
  }

  /** Appending a page appends its text: pages are concatenated in page order. */
  lemma {:induction false} ConcatPagesSnoc(pages: seq<Option<string>>, page: Option<string>)
    ensures ConcatPages(pages + [page]) == ConcatPages(pages) + PageText(page)
  {
    if pages == [] {
      assert [] + [page] == [page];
    } else {
      assert (pages + [page])[1..] == pages[1..] + [page];
      ConcatPagesSnoc(pages[1..], page);
    }
  }

  /** Pages after the third never change the result. */
  lemma LaterPagesIgnored(pages: seq<Option<string>>, more: seq<Option<string>>)
    requires |pages| >= PageLimit
    ensures FirstPagesText(pages + more) == FirstPagesText(pages)
  {
    assert (pages + more)[..PageLimit] == pages[..PageLimit];
  }

  /** With three or more pages, the result is the stripped text of pages 1, 2 and 3 in that order. */
  lemma ThreePagesInOrder(p1: Option<string>, p2: Option<string>, p3: Option<string>, rest: seq<Option<string>>)
    ensures FirstPagesText([p1, p2, p3] + rest) == Strip(PageText(p1) + PageText(p2) + PageText(p3))
  {
    var pages := [p1, p2, p3] + rest;
    assert ReadPages(pages) == [p1, p2, p3];
    ConcatThree(p1, p2, p3);
  }

  /** Three pages concatenate to their texts in order. */
  lemma ConcatThree(p1: Option<string>, p2: Option<string>, p3: Option<string>)
    ensures ConcatPages([p1, p2, p3]) == PageText(p1) + PageText(p2) + PageText(p3)
  {
    ConcatPagesCons(p3, []);
    ConcatPagesCons(p2, [p3]);
    ConcatPagesCons(p1, [p2, p3]);
    assert [p3] + [] == [p3] && [p2] + [p3] == [p2, p3] && [p1] + [p2, p3] == [p1, p2, p3];
    var t1, t2, t3 := PageText(p1), PageText(p2), PageText(p3);
    assert t1 + (t2 + (t3 + "")) == t1 + t2 + t3;
  }

  /** Prepending a page prepends its text. */
  lemma ConcatPagesCons(page: Option<string>, pages: seq<Option<string>>)
    ensures ConcatPages([page] + pages) == PageText(page) + ConcatPages(pages)
  {
    assert ([page] + pages)[1..] == pages;
  }

  /** A document shorter than the limit is read whole. */
  lemma ShortDocumentReadWhole(pages: seq<Option<string>>)
    requires |pages| <= PageLimit
    ensures FirstPagesText(pages) == Strip(ConcatPages(pages))
  {
    if |pages| == PageLimit {
      assert pages[..PageLimit] == pages;
    }
  }

  lemma {:induction false} ConcatBlank(pages: seq<Option<string>>)
    requires forall k :: 0 <= k < |pages| ==> AllSpace(PageText(pages[k]))
    ensures AllSpace(ConcatPages(pages))
  {
    if pages != [] {
      ConcatBlank(pages[1..]);
      var head, tail := PageText(pages[0]), ConcatPages(pages[1..]);
      assert forall k :: 0 <= k < |head| ==> (head + tail)[k] == head[k];
      assert forall k :: |head| <= k < |head + tail| ==> (head + tail)[k] == tail[k - |head|];
    }
  }

  /**
   * A document without a text layer (every read page missing or blank) yields
   * the empty string; this is not an error for the extractor.
   */
  lemma BlankPagesGiveEmptyText(pages: seq<Option<string>>)
    requires forall k :: 0 <= k < |pages| && k < PageLimit ==> AllSpace(PageText(pages[k]))
    ensures FirstPagesText(pages) == ""
  {
    var read := ReadPages(pages);
    ConcatBlank(read);
    var raw := ConcatPages(read);
    assert raw + [] + [] == raw;
    StripPadded(raw, [], []);
  }
}
