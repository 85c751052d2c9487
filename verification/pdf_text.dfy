/**
 * The accumulation loop of `extract_text_from_pdf`. The PDF reader is not
 * modelled: a document is the list of what `page.extract_text()` gave for
 * each page, `None` where it gave nothing.
 */
module PdfText {

  datatype Option<T> = None | Some(value: T)

  /** `page.extract_text() or ""` */
  function PageText(page: Option<string>): string {
    match page
    case Some(t) => t
    case None => ""
  }

  /** The page texts joined in page order; defined on the prefix, as the loop builds it. */
  function Concat(pages: seq<Option<string>>): string {
    if pages == [] then ""
    else Concat(pages[..|pages| - 1]) + PageText(pages[|pages| - 1])
  }

  /** `extract_text_from_pdf(file)`, given the per-page extraction results. */
  method ExtractText(pages: seq<Option<string>>) returns (text: string)
    ensures text == Concat(pages)
  {
    text := "";
    for i := 0 to |pages|
      invariant text == Concat(pages[..i])
    {
      assert pages[..i + 1][..i] == pages[..i];
      text := text + PageText(pages[i]);
    }
    assert pages[..|pages|] == pages;
  }

  /** Joining two runs of pages joins their texts. */
  lemma {:induction false} ConcatAppend(a: seq<Option<string>>, b: seq<Option<string>>)
    ensures Concat(a + b) == Concat(a) + Concat(b)
    decreases |b|
  {
    if b == [] {
      assert a + b == a;
    } else {
      var init := b[..|b| - 1];
      assert (a + b)[..|a + b| - 1] == a + init;
      ConcatAppend(a, init);
    }
  }

  /** The text of page `k` stands in the result right after the text of the pages before it. */
  lemma PageTextAtOffset(pages: seq<Option<string>>, k: nat)
    requires k < |pages|
    ensures var start := |Concat(pages[..k])|;
            start + |PageText(pages[k])| <= |Concat(pages)|
            && Concat(pages)[start..start + |PageText(pages[k])|] == PageText(pages[k])
  {
    assert pages == pages[..k] + [pages[k]] + pages[k + 1..];
    ConcatAppend(pages[..k] + [pages[k]], pages[k + 1..]);
    ConcatAppend(pages[..k], [pages[k]]);
    assert Concat([pages[k]]) == PageText(pages[k]) by {
      assert [pages[k]][..0] == [];
    }
  }

  /** A page that yields nothing contributes nothing; it does not end the document. */
  lemma NoneContributesNothing(before: seq<Option<string>>, after: seq<Option<string>>)
    ensures Concat(before + [None] + after) == Concat(before + after)
  {
    var withNone := before + [None];
    assert withNone[..|withNone| - 1] == before;
    assert Concat(withNone) == Concat(before);
    ConcatAppend(withNone, after);
    ConcatAppend(before, after);
  }
}
