/** `text_extract` (app.py:27-38): the text of an uploaded CV. For a PDF the text of every
    page is followed by a newline; any other upload is decoded as UTF-8. Page-text
    extraction and byte decoding belong to libraries outside this model, so their results
    arrive as inputs. */
module Extractor {
  import opened Wrappers
  import opened Strings

  /** The media type that selects the PDF branch. */
  const PdfMediaType: string := "application/pdf"

  /** An uploaded file as the extractor sees it: its declared media type, what the PDF
      reader returns for each page (`None` where `extract_text()` gives `None`), and the
      lossy UTF-8 decoding of its bytes. */
  datatype UploadedFile = UploadedFile(
    mediaType: string,
    pageTexts: seq<Option<string>>,
    decoded: string)

  /** `page.extract_text() or ""`: a page without text contributes the empty string. */
  function PageText(page: Option<string>): (t: string)
    ensures t == [] <==> page.None? || page.value == []
    ensures page.Some? ==> t == page.value
  {
    page.GetOr([])
  }

  /** Sum of the lengths of the pages' texts. */
  function PagesLength(pages: seq<Option<string>>): nat {
    if pages == [] then 0 else PagesLength(pages[..|pages| - 1]) + |PageText(pages[|pages| - 1])|
  }

  /** The PDF branch of `text_extract`: start from `""` and, page after page, append the
      page's text and a newline. */
  function PdfText(pages: seq<Option<string>>): (r: string)
    ensures |r| == PagesLength(pages) + |pages|
    ensures pages != [] ==> r[|r| - 1] == '\n'
  {
    if pages == [] then []
    else PdfText(pages[..|pages| - 1]) + PageText(pages[|pages| - 1]) + "\n"
  }

  /** The loop of the PDF branch, accumulating into `text`. */
  method ExtractPdf(pages: seq<Option<string>>) returns (text: string)
    ensures text == PdfText(pages)
  {
    text := "";
    var i := 0;
    while i < |pages|
      invariant 0 <= i <= |pages|
      invariant text == PdfText(pages[..i])
    {
      var pageText := PageText(pages[i]);
      assert pages[..i + 1][..i] == pages[..i];
      text := text + pageText + "\n";
      i := i + 1;
    }
    assert pages[..|pages|] == pages;
  }

  /** `text_extract`: the PDF branch for the PDF media type, the decoded bytes otherwise. */
  function TextExtract(file: UploadedFile): (r: string)
    ensures file.mediaType == PdfMediaType ==>
      (AllSpace(r) <==>
         forall k :: 0 <= k < |file.pageTexts| ==> AllSpace(PageText(file.pageTexts[k])))
    ensures file.mediaType != PdfMediaType ==> r == file.decoded
  {
    if file.mediaType == PdfMediaType then
      PdfBlank(file.pageTexts);
      PdfText(file.pageTexts)
    else file.decoded
  }

  /** Extracting two runs of pages is extracting each and concatenating. */
  lemma {:induction false} PdfTextAppend(a: seq<Option<string>>, b: seq<Option<string>>)
    ensures PdfText(a + b) == PdfText(a) + PdfText(b)
    decreases |b|
  {
    if b != [] {
      var b' := b[..|b| - 1];
      assert (a + b)[..|a + b| - 1] == a + b';
      assert (a + b)[|a + b| - 1] == b[|b| - 1];
      PdfTextAppend(a, b');
    } else {
      assert a + b == a;
    }
  }

  /** The extracted text is blank exactly when every page's text is blank. */
  lemma {:induction false} PdfBlank(pages: seq<Option<string>>)
    ensures AllSpace(PdfText(pages)) <==>
      forall k :: 0 <= k < |pages| ==> AllSpace(PageText(pages[k]))
    decreases |pages|
  {
    if pages != [] {
      var init := pages[..|pages| - 1];
      var last := PageText(pages[|pages| - 1]);
      PdfBlank(init);
      AllSpaceConcat(PdfText(init), last);
      AllSpaceConcat(PdfText(init) + last, "\n");
      assert (forall k :: 0 <= k < |pages| ==> AllSpace(PageText(pages[k])))
        <==> (forall k :: 0 <= k < |init| ==> AllSpace(PageText(init[k]))) && AllSpace(last) by {
        if (forall k :: 0 <= k < |init| ==> AllSpace(PageText(init[k]))) && AllSpace(last) {
          forall k | 0 <= k < |pages| ensures AllSpace(PageText(pages[k])) {
            if k < |init| { assert pages[k] == init[k]; }
          }
        }
      }
    }
  }

  /** A PDF none of whose pages has text extracts to one newline per page. */
  lemma {:induction false} PdfTextless(pages: seq<Option<string>>)
    requires forall k :: 0 <= k < |pages| ==> PageText(pages[k]) == []
    ensures PdfText(pages) == seq(|pages|, _ => '\n')
    decreases |pages|
  {
    if pages != [] {
      var init := pages[..|pages| - 1];
      assert forall k :: 0 <= k < |init| ==> init[k] == pages[k];
      PdfTextless(init);
      assert PageText(pages[|pages| - 1]) == [];
    }
  }

  /** A page without text, wherever it is, contributes exactly one newline. */
  lemma TextlessPage(before: seq<Option<string>>, page: Option<string>, after: seq<Option<string>>)
    requires PageText(page) == []
    ensures PdfText(before + [page] + after) == PdfText(before) + "\n" + PdfText(after)
  {
    PdfTextAppend(before + [page], after);
    PdfTextAppend(before, [page]);
    assert [page][..0] == [];
  }
}
