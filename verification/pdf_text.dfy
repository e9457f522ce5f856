/** Choosing the PDF text that the DOI pattern is run on. The PDF reader and
    the OCR engine are outside the model: page documents and OCR page texts
    are inputs. */
module PdfText {
  import opened Wrappers
  import opened Text
  import opened DoiPattern

  /** A page document of the PDF reader: its text, and the `file_path` and
      `page_label` metadata the OCR fill reads (the label already converted
      with `int`). */
  datatype Doc = Doc(text: string, filePath: string, pageLabel: int)

  /** `text.strip() == ""`. */
  predicate IsBlank(s: string) {
    forall k :: 0 <= k < |s| ==> IsSpace(s[k])
  }

  /** Python's `xs[k]`, including negative indices counted from the end;
      `None` is an IndexError. */
  function PyIndex<T>(xs: seq<T>, k: int): (r: Option<T>)
    ensures 0 <= k < |xs| ==> r == Some(xs[k])
    ensures -|xs| <= k < 0 ==> r == Some(xs[|xs| + k])
    ensures r.None? <==> k >= |xs| || k < -|xs|
  {
    if 0 <= k < |xs| then Some(xs[k])
    else if -|xs| <= k < 0 then Some(xs[|xs| + k])
    else None
  }

  /** What the OCR fill of `extract_text_from_pdf` does to one document,
      given the OCR page texts of its file; `None` when the page index raises. */
  function FillDoc(d: Doc, pages: seq<string>): (r: Option<Doc>)
    ensures !IsBlank(d.text) ==> r == Some(d)
    ensures r.Some? ==> r.value.filePath == d.filePath && r.value.pageLabel == d.pageLabel
    ensures IsBlank(d.text) && 1 <= d.pageLabel <= |pages| ==> r == Some(d.(text := pages[d.pageLabel - 1]))
    ensures IsBlank(d.text) && -|pages| < d.pageLabel <= 0 ==> r == Some(d.(text := pages[|pages| + d.pageLabel - 1]))
    ensures d.pageLabel > |pages| ==> r == Some(d)
    ensures r.None? <==> IsBlank(d.text) && d.pageLabel - 1 < -|pages|
  {
    if !IsBlank(d.text) then Some(d)
    else
      var k := d.pageLabel - 1;
      if k < |pages| then
        match PyIndex(pages, k)
        case Some(p) => Some(d.(text := p))
        case None => None
      else Some(d)
  }

  /** The OCR fill loop of `extract_text_from_pdf`, with its per-file cache.
      `ocr` stands for `pdf_to_text_with_ocr_per_page_multi_lang`; `ocrRuns`
      lists the files it was run on, in order. The result is `None` when a
      page index raises. */
  method ExtractTextFromPdf(docs: seq<Doc>, ocr: string -> seq<string>)
    returns (r: Option<seq<Doc>>, ocrRuns: seq<string>)
    ensures r.Some? <==> forall i :: 0 <= i < |docs| ==> FillDoc(docs[i], ocr(docs[i].filePath)).Some?
    ensures r.Some? ==> |r.value| == |docs|
    ensures r.Some? ==> forall i :: 0 <= i < |docs| ==> FillDoc(docs[i], ocr(docs[i].filePath)) == Some(r.value[i])
    ensures forall i, j :: 0 <= i < j < |ocrRuns| ==> ocrRuns[i] != ocrRuns[j]
    ensures forall p :: p in ocrRuns ==> exists i :: 0 <= i < |docs| && IsBlank(docs[i].text) && docs[i].filePath == p
    ensures r.Some? ==> forall i :: 0 <= i < |docs| && IsBlank(docs[i].text) ==> docs[i].filePath in ocrRuns
  {
    var cache: map<string, seq<string>> := map[];
    var out: seq<Doc> := [];
    ocrRuns := [];
    var i := 0;
    while i < |docs|
      invariant 0 <= i <= |docs|
      invariant |out| == i
      invariant forall j :: 0 <= j < i ==> FillDoc(docs[j], ocr(docs[j].filePath)) == Some(out[j])
      invariant forall p :: p in cache ==> cache[p] == ocr(p)
      invariant forall p :: p in cache <==> p in ocrRuns
      invariant forall p :: p in ocrRuns ==> exists j :: 0 <= j < i && IsBlank(docs[j].text) && docs[j].filePath == p
      invariant forall j :: 0 <= j < i && IsBlank(docs[j].text) ==> docs[j].filePath in ocrRuns
      invariant forall a, b :: 0 <= a < b < |ocrRuns| ==> ocrRuns[a] != ocrRuns[b]
    {
      var d := docs[i];
      if IsBlank(d.text) {
        if d.filePath !in cache {
          cache := cache[d.filePath := ocr(d.filePath)];
          ocrRuns := ocrRuns + [d.filePath];
        }
        var pages := cache[d.filePath];
        var k := d.pageLabel - 1;
        if k < |pages| {
          var page := PyIndex(pages, k);
          if page.None? {
            assert FillDoc(docs[i], ocr(docs[i].filePath)).None?;
            return None, ocrRuns;
          }
          out := out + [d.(text := page.value)];
        } else {
          out := out + [d];
        }
      } else {
        out := out + [d];
      }
      i := i + 1;
    }
    r := Some(out);
  }

  /** `text.replace('\n', ' ')`. */
  function ReplaceNewlines(s: string): (r: string)
    ensures |r| == |s|
    ensures forall i :: 0 <= i < |s| ==> r[i] == (if s[i] == '\n' then ' ' else s[i])
  {
    if |s| == 0 then "" else [if s[0] == '\n' then ' ' else s[0]] + ReplaceNewlines(s[1..])
  }

  function Texts(docs: seq<Doc>): (r: seq<string>)
    ensures |r| == |docs| && forall i :: 0 <= i < |docs| ==> r[i] == docs[i].text
  {
    if |docs| == 0 then [] else [docs[0].text] + Texts(docs[1..])
  }

  function FirstTwo<T>(xs: seq<T>): (r: seq<T>)
    ensures |r| <= 2 && |r| <= |xs| && r == xs[..|r|]
    ensures |xs| >= 2 ==> |r| == 2
    ensures |xs| < 2 ==> r == xs
  {
    if |xs| <= 2 then xs else xs[..2]
  }

  /** The text `process_pdf` scans: the first two documents joined with a
      space, line breaks turned into spaces. */
  function CombinedText(docs: seq<Doc>): (t: string)
    ensures '\n' !in t
    ensures |docs| >= 2 ==> t == ReplaceNewlines(docs[0].text + " " + docs[1].text)
    ensures |docs| == 1 ==> t == ReplaceNewlines(docs[0].text)
    ensures |docs| == 0 ==> t == ""
  {
    var texts := Texts(FirstTwo(docs));
    assert |docs| >= 2 ==> Join(texts, " ") == docs[0].text + " " + docs[1].text by {
      if |docs| >= 2 {
        assert texts[1..] == [docs[1].text];
        assert Join(texts[1..], " ") == docs[1].text;
      }
    }
    ReplaceNewlines(Join(texts, " "))
  }

  /** `process_pdf` of `function.py`, on the documents after the OCR fill:
      the DOI of the combined text and the first two documents. */
  function ProcessPdf(docs: seq<Doc>): (r: (Option<string>, seq<Doc>))
    ensures r.1 == FirstTwo(docs)
    ensures r.0.Some? ==> IsDoi(r.0.value) && Contains(CombinedText(docs), r.0.value)
    ensures r.0.None? <==> forall p :: 0 <= p <= |CombinedText(docs)| ==> MatchAt(CombinedText(docs), p).None?
  {
    (ExtractDoi(CombinedText(docs)), FirstTwo(docs))
  }

  /** Documents after the second never influence `process_pdf`. */
  lemma ProcessPdfReadsFirstTwo(a: seq<Doc>, b: seq<Doc>)
    requires FirstTwo(a) == FirstTwo(b)
    ensures ProcessPdf(a) == ProcessPdf(b)
  {
  }

  /** `extract_text_from_pdf_pages(pdf_path, pages)` of `backup_app.py`: each
      requested page that exists, in the requested order, followed by a line
      break. `pageTexts[i]` is the text of page `i`. */
  function PagesText(pageTexts: seq<string>, pages: seq<nat>): string
    decreases |pages|
  {
    if |pages| == 0 then ""
    else
      var p := Last(pages);
      PagesText(pageTexts, pages[..|pages| - 1]) + (if p < |pageTexts| then pageTexts[p] + "\n" else "")
  }

  /** The text is empty exactly when no requested page exists, and
      otherwise ends with a line break. */
  lemma {:induction false} PagesTextEmpty(pageTexts: seq<string>, pages: seq<nat>)
    ensures PagesText(pageTexts, pages) == "" <==> forall k :: 0 <= k < |pages| ==> pages[k] >= |pageTexts|
    ensures var r := PagesText(pageTexts, pages); r != "" ==> r[|r| - 1] == '\n'
    decreases |pages|
  {
    if |pages| > 0 {
      var init := pages[..|pages| - 1];
      PagesTextEmpty(pageTexts, init);
      assert forall k :: 0 <= k < |init| ==> init[k] == pages[k];
    }
  }

  /** One requested page contributes its text and a line break when it
      exists, and nothing otherwise. */
  lemma PagesTextSingle(pageTexts: seq<string>, p: nat)
    ensures PagesText(pageTexts, [p]) == if p < |pageTexts| then pageTexts[p] + "\n" else ""
  {
  }

  /** Requests concatenate: the text for `a + b` is the text for `a` followed
      by the text for `b`. With `PagesTextSingle` this fixes the result for
      every request list. */
  lemma {:induction false} PagesTextAppend(pageTexts: seq<string>, a: seq<nat>, b: seq<nat>)
    ensures PagesText(pageTexts, a + b) == PagesText(pageTexts, a) + PagesText(pageTexts, b)
    decreases |b|
  {
    if |b| == 0 {
      assert a + b == a;
    } else {
      var b' := b[..|b| - 1];
      PagesTextAppend(pageTexts, a, b');
      assert (a + b)[..|a + b| - 1] == a + b';
      assert Last(a + b) == Last(b);
    }
  }

  /** `process_pdf` of `backup_app.py`: the DOI of pages 0 and 1. */
  function ProcessPdfPages(pageTexts: seq<string>): (r: Option<string>)
    ensures r.Some? ==> IsDoi(r.value) && Contains(PagesText(pageTexts, [0, 1]), r.value)
  {
    ExtractDoi(PagesText(pageTexts, [0, 1]))
  }

  /** Pages after the second never influence `process_pdf` of `backup_app.py`. */
  lemma ProcessPdfPagesReadsFirstTwo(a: seq<string>, b: seq<string>)
    requires |a| >= 2 && |b| >= 2 && a[..2] == b[..2]
    ensures ProcessPdfPages(a) == ProcessPdfPages(b)
  {
    PagesTextFirstTwo(a);
    PagesTextFirstTwo(b);
    assert a[0] == b[0] && a[1] == b[1];
  }

  lemma PagesTextFirstTwo(pageTexts: seq<string>)
    requires |pageTexts| >= 2
    ensures PagesText(pageTexts, [0, 1]) == pageTexts[0] + "\n" + pageTexts[1] + "\n"
  {
    assert [0, 1] == [0] + [1];
    PagesTextAppend(pageTexts, [0], [1]);
    PagesTextSingle(pageTexts, 0);
    PagesTextSingle(pageTexts, 1);
    ConcatRegroup(pageTexts[0] + "\n", pageTexts[1], "\n");
  }

  lemma ConcatRegroup(a: string, b: string, c: string)
    ensures a + (b + c) == a + b + c
  {
  }
}
