/**
 * The text the page assembles from a PDF: for every page, in order, a
 * `--- Sayfa N ---` marker, the page's text items joined with spaces, and a
 * blank line. The PDF library is not modelled: a document is given as the
 * item strings of each of its pages.
 */
module PdfText {
  import opened JsStrings

  /** The marker that opens page `n`: `--- Sayfa ${n} ---` and a newline. */
  function PageHeader(n: nat): string {
    "--- Sayfa " + NatToDecimal(n) + " ---\n"
  }

  /** Page `n`'s contribution: its marker, `items.join(" ")` and a blank line. */
  function PageBlock(n: nat, items: seq<string>): string {
    PageHeader(n) + Join(items, " ") + "\n\n"
  }

  /** Text made of one block per element, element `i` numbered `i + 1`, accumulated left to right. */
  function Numbered<T>(block: (nat, T) -> string, xs: seq<T>): string
    decreases |xs|
  {
    if xs == [] then ""
    else Numbered(block, xs[..|xs| - 1]) + block(|xs|, xs[|xs| - 1])
  }

  /** The blocks of `xs`, the first one numbered `first`, read front to back. */
  function BlocksFrom<T>(block: (nat, T) -> string, first: nat, xs: seq<T>): string
    decreases |xs|
  {
    if xs == [] then ""
    else block(first, xs[0]) + BlocksFrom(block, first + 1, xs[1..])
  }

  /** The text after the page loop has handled every page of `pages`, page `i` numbered `i + 1`. */
  function PagesText(pages: seq<seq<string>>): string {
    Numbered(PageBlock, pages)
  }

  /**
   * The loop at app/page.tsx (`text += ...` once per page), written with a
   * `for` loop over the pages.
   */
  method ExtractText(pages: seq<seq<string>>) returns (text: string)
    ensures text == PagesText(pages)
  {
    text := "";
    for i := 0 to |pages|
      invariant text == PagesText(pages[..i])
    {
      assert pages[..i + 1][..i] == pages[..i] && pages[..i + 1][i] == pages[i];
      var pageText := Join(pages[i], " ");
      var block := "--- Sayfa " + NatToDecimal(i + 1) + " ---\n" + pageText + "\n\n";
      assert block == PageBlock(i + 1, pages[i]);
      text := text + block;
    }
    assert pages[..|pages|] == pages;
  }

  /** Adding one element at the end appends its block, numbered after the others. */
  lemma {:induction false} BlocksFromSnoc<T>(block: (nat, T) -> string, first: nat, xs: seq<T>, last: T)
    ensures BlocksFrom(block, first, xs + [last]) == BlocksFrom(block, first, xs) + block(first + |xs|, last)
    decreases |xs|
  {
    if xs == [] {
      assert [] + [last] == [last];
      assert [last][1..] == [];
    } else {
      assert (xs + [last])[1..] == xs[1..] + [last];
      BlocksFromSnoc(block, first + 1, xs[1..], last);
    }
  }

  /** The accumulated text is the blocks from 1 to n, front to back. */
  lemma {:induction false} NumberedIsBlocks<T>(block: (nat, T) -> string, xs: seq<T>)
    ensures Numbered(block, xs) == BlocksFrom(block, 1, xs)
    decreases |xs|
  {
    if xs != [] {
      var n := |xs| - 1;
      NumberedIsBlocks(block, xs[..n]);
      BlocksFromSnoc(block, 1, xs[..n], xs[n]);
      assert xs[..n] + [xs[n]] == xs;
    }
  }

  /** The text of the first `k` elements is a prefix; the later elements' blocks follow it in order. */
  lemma {:induction false} NumberedSplits<T>(block: (nat, T) -> string, xs: seq<T>, k: nat)
    requires k <= |xs|
    ensures Numbered(block, xs) == Numbered(block, xs[..k]) + BlocksFrom(block, k + 1, xs[k..])
    decreases |xs| - k
  {
    if k < |xs| {
      NumberedSplits(block, xs, k + 1);
      var head := xs[..k + 1];
      var tail := xs[k..];
      assert head[..k] == xs[..k] && head[k] == xs[k];
      assert tail[0] == xs[k] && tail[1..] == xs[k + 1..];
      var pre := Numbered(block, xs[..k]);
      var b := block(k + 1, xs[k]);
      var later := BlocksFrom(block, k + 2, xs[k + 1..]);
      assert Numbered(block, head) == pre + b;
      assert BlocksFrom(block, k + 1, tail) == b + later;
      assert (pre + b) + later == pre + (b + later);
    } else {
      assert xs[..k] == xs;
    }
  }

  /** The page text is the page blocks from 1 to n, front to back. */
  lemma PagesTextIsBlocks(pages: seq<seq<string>>)
    ensures PagesText(pages) == BlocksFrom(PageBlock, 1, pages)
  {
    NumberedIsBlocks(PageBlock, pages);
  }

  /** Page `k + 1`'s marker and text come right after the first `k` pages' text and before the later pages. */
  lemma PageBlockInPlace(pages: seq<seq<string>>, k: nat)
    requires k < |pages|
    ensures PagesText(pages) ==
              PagesText(pages[..k]) + PageBlock(k + 1, pages[k]) + BlocksFrom(PageBlock, k + 2, pages[k + 1..])
  {
    NumberedSplits(PageBlock, pages, k);
    var tail := pages[k..];
    assert tail[0] == pages[k] && tail[1..] == pages[k + 1..];
  }

  /** The text is empty exactly when the document has no pages. */
  lemma PagesTextEmptyIff(pages: seq<seq<string>>)
    ensures PagesText(pages) == "" <==> pages == []
  {
    if pages != [] {
      var n := |pages| - 1;
      assert |PageBlock(|pages|, pages[n])| > 0;
    }
  }

  /** What `testUploadPost` shows when the text is empty. */
  const NoTextMessage: string := "PDF dosyasından metin " + "çıkarılamadı veya dosya boş."

  /**
   * `testUploadPost` after the document has loaded: the extracted text, and
   * the response shown, which falls back to a fixed message for an empty text.
   */
  method TestUploadPost(pages: seq<seq<string>>) returns (response: string, extracted: string)
    ensures extracted == PagesText(pages)
    ensures response == NoTextMessage <==> pages == []
    ensures pages != [] ==> response == extracted
  {
    extracted := ExtractText(pages);
    response := if extracted != "" then extracted else NoTextMessage;
    PagesTextEmptyIff(pages);
    if pages != [] {
      PageBlockInPlace(pages, 0);
      assert pages[..0] == [];
      assert extracted[0] == '-';
      assert NoTextMessage[0] == 'P';
      assert extracted != NoTextMessage;
    }
  }
}
