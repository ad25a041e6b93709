/**
 * The page-side `create-pdf` handler: it checks that `window.jspdf.jsPDF` is
 * a constructor, cuts the text at 2700 code units, wraps it into lines with
 * the library, lays the lines out over at most four A4 pages with a `k/k`
 * footer on the last one, and reports the document as a data URI together
 * with its size in kilobytes.
 *
 * The jsPDF document is a class whose pages record the `doc.text` calls made
 * on them; line wrapping and serialisation are functions the library supplies.
 */
module JsPdfCreator {
  import opened Wrappers
  import opened JsStrings
  import opened Messages
  import opened PageGlobals

  /** The ceiling of the text handed to jsPDF, in code units. */
  const MAX_LENGTH: nat := 2700
  /** The most pages a document gets; later lines are dropped. */
  const MAX_PAGES: nat := 4

  const MARGIN: int := 20
  const FONT_SIZE: nat := 9
  const FOOTER_FONT_SIZE: nat := 7
  const LINE_HEIGHT: int := 5
  /** The distance of the footer's baseline from the bottom edge. */
  const FOOTER_OFFSET: int := 10
  /** jsPDF's font size before `setFontSize` is called. */
  const INITIAL_FONT_SIZE: nat := 16

  /** An A4 portrait page in millimetres. */
  const A4: Geometry := Geometry(210, 297)

  const NOT_AVAILABLE: JsString := Js("jsPDF not available")
  const SLASH: JsString := Js("/")

  // ---------------------------------------------------------------------------
  // The document
  // ---------------------------------------------------------------------------

  /** The page size `doc.internal.pageSize` reports, in whole millimetres. */
  datatype Geometry = Geometry(width: int, height: int)

  datatype Align = Left | Center

  /** One `doc.text(...)` call: its lines, where they start, the font size in force and the alignment. */
  datatype TextRun = TextRun(lines: seq<JsString>, x: real, y: real, fontSize: nat, align: Align)

  datatype Page = Page(runs: seq<TextRun>)

  /** A jsPDF document: its pages, the last of which is the current one, and the current font size. */
  class PdfDocument {
    var pages: seq<Page>
    var fontSize: nat

    ghost predicate Valid()
      reads this
    {
      pages != []
    }

    /** `new jsPDF({...})`: one blank page. */
    constructor ()
      ensures Valid() && pages == [Page([])] && fontSize == INITIAL_FONT_SIZE
    {
      pages := [Page([])];
      fontSize := INITIAL_FONT_SIZE;
    }

    /** `doc.setFontSize(size)`. */
    method SetFontSize(size: nat)
      modifies this
      ensures pages == old(pages) && fontSize == size
    {
      fontSize := size;
    }

    /** `doc.addPage()`: a blank page becomes the current one. */
    method AddPage()
      requires Valid()
      modifies this
      ensures Valid() && pages == old(pages) + [Page([])] && fontSize == old(fontSize)
    {
      pages := pages + [Page([])];
    }

    /** `doc.text(lines, x, y, {align})`: draws on the current page in the current font size. */
    method Text(lines: seq<JsString>, x: real, y: real, align: Align)
      requires Valid()
      modifies this
      ensures Valid() && fontSize == old(fontSize)
      ensures |pages| == |old(pages)| && pages[..|pages| - 1] == old(pages)[..|pages| - 1]
      ensures pages[|pages| - 1] == Page(old(pages)[|pages| - 1].runs + [TextRun(lines, x, y, fontSize, align)])
    {
      var last := |pages| - 1;
      pages := pages[..last] + [Page(pages[last].runs + [TextRun(lines, x, y, fontSize, align)])];
    }
  }

  // ---------------------------------------------------------------------------
  // The page plan
  // ---------------------------------------------------------------------------

  /** `Math.floor((pageHeight - 2 * margin) / lineHeight)`. */
  function LinesPerPage(g: Geometry): int {
    (g.height - 2 * MARGIN) / LINE_HEIGHT
  }

  lemma A4LinesPerPage()
    ensures LinesPerPage(A4) == 51
  {
  }

  /** `pageWidth - 2 * margin`, the width lines are wrapped to. */
  function MaxWidth(g: Geometry): int {
    g.width - 2 * MARGIN
  }

  /** `Math.ceil(n / d)`. */
  function CeilDiv(n: nat, d: nat): nat
    requires d > 0
  {
    (n + d - 1) / d
  }

  /** `CeilDiv` is the least number of blocks of `d` that hold `n`. */
  lemma CeilDivBounds(n: nat, d: nat)
    requires d > 0
    ensures n == 0 <==> CeilDiv(n, d) == 0
    ensures CeilDiv(n, d) * d >= n
    ensures n > 0 ==> (CeilDiv(n, d) - 1) * d < n
  {
    var q := CeilDiv(n, d);
    var r := (n + d - 1) % d;
    assert n + d - 1 == q * d + r && 0 <= r < d;
    assert q * d >= n;
    assert (q - 1) * d == q * d - d;
  }

  /** `actualPages = Math.min(Math.ceil(n / linesPerPage), 4)`. */
  function PageCount(n: nat, lpp: nat): nat
    requires lpp > 0
  {
    Min(CeilDiv(n, lpp), MAX_PAGES)
  }

  /** The page count is at most four, zero exactly without lines, and just enough pages when they suffice. */
  lemma PageCountBounds(n: nat, lpp: nat)
    requires lpp > 0
    ensures PageCount(n, lpp) <= MAX_PAGES
    ensures PageCount(n, lpp) == 0 <==> n == 0
    ensures n <= MAX_PAGES * lpp ==> (PageCount(n, lpp) - 1) * lpp < n <= PageCount(n, lpp) * lpp
    ensures n > MAX_PAGES * lpp ==> PageCount(n, lpp) == MAX_PAGES
  {
    var q := CeilDiv(n, lpp);
    CeilDivBounds(n, lpp);
    if q > MAX_PAGES {
      assert MAX_PAGES * lpp <= (q - 1) * lpp by {
        assert MAX_PAGES <= q - 1;
        MulMonotone(MAX_PAGES, q - 1, lpp);
      }
    } else {
      MulMonotone(q, MAX_PAGES, lpp);
    }
  }

  lemma MulMonotone(a: int, b: int, c: nat)
    requires a <= b
    ensures a * c <= b * c
  {
  }

  /** Every emitted page starts inside the line list. */
  lemma PageStartInRange(n: nat, lpp: nat, i: nat)
    requires lpp > 0 && i < PageCount(n, lpp)
    ensures i * lpp < n
  {
    CeilDivBounds(n, lpp);
    MulMonotone(i, CeilDiv(n, lpp) - 1, lpp);
  }

  /** `textLines.slice(i * linesPerPage, Math.min((i + 1) * linesPerPage, textLines.length))`. */
  function PageLines(lines: seq<JsString>, lpp: nat, i: nat): (r: seq<JsString>)
    requires lpp > 0 && i < PageCount(|lines|, lpp)
    ensures 0 < |r| <= lpp
  {
    PageStartInRange(|lines|, lpp, i);
    lines[i * lpp..Min((i + 1) * lpp, |lines|)]
  }

  function BodyX(): real { MARGIN as real }
  function BodyY(): real { (MARGIN + FONT_SIZE) as real }
  function FooterX(g: Geometry): real { g.width as real / 2.0 }
  function FooterY(g: Geometry): real { (g.height - FOOTER_OFFSET) as real }

  /** The footer `${i + 1}/${actualPages}` as it reads on the last page. */
  function PageLabel(k: nat): JsString {
    Decimal(k) + SLASH + Decimal(k)
  }

  /** The text of a page, at the top margin in the body font. */
  function BodyRun(lines: seq<JsString>): TextRun {
    TextRun(lines, BodyX(), BodyY(), FONT_SIZE, Left)
  }

  /** The footer of the last of `k` pages, centred near the bottom edge in the small font. */
  function FooterRun(g: Geometry, k: nat): TextRun {
    TextRun([PageLabel(k)], FooterX(g), FooterY(g), FOOTER_FONT_SIZE, Center)
  }

  /** Page `i` of `k`: its slice of lines, and on the last page the footer. */
  function PageAt(lines: seq<JsString>, g: Geometry, i: nat, k: nat): Page
    requires LinesPerPage(g) > 0 && k == PageCount(|lines|, LinesPerPage(g)) && i < k
  {
    var body := BodyRun(PageLines(lines, LinesPerPage(g), i));
    if i == k - 1 then Page([body, FooterRun(g, k)]) else Page([body])
  }

  /** The pages the loop leaves in a fresh document. */
  function Layout(lines: seq<JsString>, g: Geometry): seq<Page>
    requires LinesPerPage(g) > 0
  {
    var k := PageCount(|lines|, LinesPerPage(g));
    if k == 0 then [Page([])]
    else seq(k, i requires 0 <= i < k => PageAt(lines, g, i, k))
  }

  /** The lines of the runs drawn at `(x, y)`, page by page. */
  function PrintedAt(pages: seq<Page>, x: real, y: real): seq<JsString> {
    if pages == [] then []
    else PrintedAt(pages[..|pages| - 1], x, y) + RunsAt(pages[|pages| - 1].runs, x, y)
  }

  function RunsAt(runs: seq<TextRun>, x: real, y: real): seq<JsString> {
    if runs == [] then []
    else (if runs[0].x == x && runs[0].y == y then runs[0].lines else []) + RunsAt(runs[1..], x, y)
  }

  // ---------------------------------------------------------------------------
  // What the layout promises
  // ---------------------------------------------------------------------------

  /** The document has between one and four pages, one more than the `addPage` calls: `actualPages - 1` of them when there is text. */
  lemma LayoutPageCount(lines: seq<JsString>, g: Geometry)
    requires LinesPerPage(g) > 0
    ensures 1 <= |Layout(lines, g)| <= MAX_PAGES
    ensures |lines| > 0 ==> |Layout(lines, g)| == PageCount(|lines|, LinesPerPage(g))
    ensures |lines| == 0 ==> Layout(lines, g) == [Page([])]
  {
    PageCountBounds(|lines|, LinesPerPage(g));
  }

  /** Page `i` starts inside the lines and spans `lpp` lines; every page before the last ends inside them too. */
  lemma PageSpan(n: nat, lpp: nat, i: nat)
    requires lpp > 0 && i < PageCount(n, lpp)
    ensures i * lpp < n && (i + 1) * lpp == i * lpp + lpp
    ensures i < PageCount(n, lpp) - 1 ==> (i + 1) * lpp <= n
  {
    PageStartInRange(n, lpp, i);
    if i < PageCount(n, lpp) - 1 {
      PageStartInRange(n, lpp, i + 1);
    }
  }

  /** The text drawn at the top margin of page `i` is its slice of lines; the footer sits lower down. */
  lemma PageBodyRuns(lines: seq<JsString>, g: Geometry, i: nat, k: nat)
    requires LinesPerPage(g) > 0 && k == PageCount(|lines|, LinesPerPage(g)) && i < k
    ensures RunsAt(PageAt(lines, g, i, k).runs, BodyX(), BodyY()) == PageLines(lines, LinesPerPage(g), i)
  {
    var runs := PageAt(lines, g, i, k).runs;
    assert BodyY() != FooterY(g);
    assert RunsAt(runs[1..], BodyX(), BodyY()) == [] by {
      if i == k - 1 {
        assert runs[1..][1..] == [];
      } else {
        assert runs[1..] == [];
      }
    }
  }

  /** Every page but the last is full, and the last holds at least one line and at most a page's worth. */
  lemma LayoutFill(lines: seq<JsString>, g: Geometry, i: nat)
    requires LinesPerPage(g) > 0 && |lines| > 0 && i < |Layout(lines, g)|
    ensures RunsAt(Layout(lines, g)[i].runs, BodyX(), BodyY()) == PageLines(lines, LinesPerPage(g), i)
    ensures i < |Layout(lines, g)| - 1 ==> |PageLines(lines, LinesPerPage(g), i)| == LinesPerPage(g)
    ensures 0 < |PageLines(lines, LinesPerPage(g), i)| <= LinesPerPage(g)
  {
    var lpp := LinesPerPage(g);
    var k := PageCount(|lines|, lpp);
    LayoutPageCount(lines, g);
    PageSpan(|lines|, lpp, i);
    assert Layout(lines, g)[i] == PageAt(lines, g, i, k);
    PageBodyRuns(lines, g, i, k);
  }

  /** What is printed at `(x, y)` on the first `j` pages is what the first `j - 1` show, then page `j`'s runs there. */
  lemma PrintedStep(pages: seq<Page>, j: nat, x: real, y: real)
    requires 0 < j <= |pages|
    ensures PrintedAt(pages[..j], x, y) == PrintedAt(pages[..j - 1], x, y) + RunsAt(pages[j - 1].runs, x, y)
  {
    assert pages[..j][..j - 1] == pages[..j - 1];
  }

  /** Page `j - 1`'s slice continues the lines of the pages before it. */
  lemma SliceJoin(lines: seq<JsString>, lpp: nat, j: nat)
    requires lpp > 0 && 0 < j <= PageCount(|lines|, lpp)
    ensures lines[..Min(|lines|, (j - 1) * lpp)] + PageLines(lines, lpp, j - 1) == lines[..Min(|lines|, j * lpp)]
  {
    PageSpan(|lines|, lpp, j - 1);
    var start := (j - 1) * lpp;
    var end := Min(|lines|, j * lpp);
    assert lines[..start] + lines[start..end] == lines[..end];
  }

  lemma {:induction false} PrintedBodyPrefix(lines: seq<JsString>, g: Geometry, j: nat)
    requires LinesPerPage(g) > 0 && j <= PageCount(|lines|, LinesPerPage(g)) && |lines| > 0
    ensures PrintedAt(Layout(lines, g)[..j], BodyX(), BodyY()) == lines[..Min(|lines|, j * LinesPerPage(g))]
  {
    if j == 0 {
      assert Layout(lines, g)[..0] == [];
    } else {
      PrintedBodyPrefix(lines, g, j - 1);
      LayoutPageCount(lines, g);
      LayoutFill(lines, g, j - 1);
      PrintedStep(Layout(lines, g), j, BodyX(), BodyY());
      SliceJoin(lines, LinesPerPage(g), j);
    }
  }

  /**
   * The body text across the pages is exactly the first `min(n, 4 * linesPerPage)`
   * wrapped lines, in order, each once; any later line is dropped.
   */
  lemma LayoutBody(lines: seq<JsString>, g: Geometry)
    requires LinesPerPage(g) > 0
    ensures PrintedAt(Layout(lines, g), BodyX(), BodyY()) == lines[..Min(|lines|, MAX_PAGES * LinesPerPage(g))]
  {
    var lpp := LinesPerPage(g);
    var k := PageCount(|lines|, lpp);
    PageCountBounds(|lines|, lpp);
    if |lines| == 0 {
      assert PrintedAt(Layout(lines, g), BodyX(), BodyY()) == PrintedAt([], BodyX(), BodyY()) + RunsAt([], BodyX(), BodyY());
    } else {
      PrintedBodyPrefix(lines, g, k);
      assert Layout(lines, g)[..k] == Layout(lines, g);
    }
  }

  lemma {:induction false} PrintedFooterPrefix(lines: seq<JsString>, g: Geometry, j: nat)
    requires LinesPerPage(g) > 0 && |lines| > 0 && j < PageCount(|lines|, LinesPerPage(g))
    ensures PrintedAt(Layout(lines, g)[..j], FooterX(g), FooterY(g)) == []
  {
    if j > 0 {
      var layout := Layout(lines, g);
      PrintedFooterPrefix(lines, g, j - 1);
      assert layout[..j][..j - 1] == layout[..j - 1];
      assert BodyY() != FooterY(g);
      var runs := layout[j - 1].runs;
      assert RunsAt(runs[1..], FooterX(g), FooterY(g)) == [];
    }
  }

  /**
   * The footer reads `k/k` and appears once, on the last page, in the
   * smaller font; a document without lines gets neither text nor footer.
   */
  lemma LayoutFooter(lines: seq<JsString>, g: Geometry)
    requires LinesPerPage(g) > 0
    ensures |lines| == 0 ==> PrintedAt(Layout(lines, g), FooterX(g), FooterY(g)) == []
    ensures |lines| > 0 ==>
      && PrintedAt(Layout(lines, g), FooterX(g), FooterY(g)) == [PageLabel(|Layout(lines, g)|)]
      && RunsAt(Layout(lines, g)[|Layout(lines, g)| - 1].runs, FooterX(g), FooterY(g)) == [PageLabel(|Layout(lines, g)|)]
      && Layout(lines, g)[|Layout(lines, g)| - 1].runs[1].fontSize == FOOTER_FONT_SIZE
  {
    var lpp := LinesPerPage(g);
    var k := PageCount(|lines|, lpp);
    PageCountBounds(|lines|, lpp);
    var layout := Layout(lines, g);
    if |lines| == 0 {
      assert PrintedAt(layout, FooterX(g), FooterY(g)) == PrintedAt([], FooterX(g), FooterY(g)) + RunsAt([], FooterX(g), FooterY(g));
    } else {
      PrintedFooterPrefix(lines, g, k - 1);
      assert layout[..k - 1] == layout[..|layout| - 1];
      assert BodyY() != FooterY(g);
      var runs := layout[k - 1].runs;
      assert k == |layout|;
      assert RunsAt(runs[1..][1..], FooterX(g), FooterY(g)) == [];
      assert RunsAt(runs[1..], FooterX(g), FooterY(g)) == [PageLabel(k)];
      assert RunsAt(runs, FooterX(g), FooterY(g)) == [PageLabel(k)];
    }
  }

  /** Every body run is set in the body font: the footer's smaller size is set only after the last page's text. */
  lemma LayoutBodyFont(lines: seq<JsString>, g: Geometry, i: nat)
    requires LinesPerPage(g) > 0 && i < |Layout(lines, g)| && Layout(lines, g)[i].runs != []
    ensures Layout(lines, g)[i].runs[0].fontSize == FONT_SIZE
    ensures Layout(lines, g)[i].runs[0].x == BodyX() && Layout(lines, g)[i].runs[0].y == BodyY()
  {
  }

  // ---------------------------------------------------------------------------
  // The loop
  // ---------------------------------------------------------------------------

  /** A `doc.text` call changes the current page only. */
  lemma LastReplaced(before: seq<Page>, after: seq<Page>, prefix: seq<Page>, page: Page)
    requires before != [] && before[..|before| - 1] == prefix
    requires |after| == |before| && after[..|after| - 1] == before[..|before| - 1]
    requires after[|after| - 1] == page
    ensures after == prefix + [page]
  {
    assert after == after[..|after| - 1] + [after[|after| - 1]];
  }

  /** The slice the loop takes for page `i` is that page's lines, and page `i` is that slice plus, on the last page, the footer. */
  lemma PageSlice(lines: seq<JsString>, g: Geometry, i: nat, k: nat)
    requires LinesPerPage(g) > 0 && k == PageCount(|lines|, LinesPerPage(g)) && i < k
    ensures 0 <= i * LinesPerPage(g) <= Min((i + 1) * LinesPerPage(g), |lines|) <= |lines|
    ensures var pageLines := lines[i * LinesPerPage(g)..Min((i + 1) * LinesPerPage(g), |lines|)];
      PageAt(lines, g, i, k) == if i == k - 1 then Page([BodyRun(pageLines), FooterRun(g, k)]) else Page([BodyRun(pageLines)])
  {
    PageStartInRange(|lines|, LinesPerPage(g), i);
  }

  /**
   * One pass of the loop: `addPage` for every page but the first, then the
   * page's slice of lines, then on the last page the footer in the small font.
   */
  method WritePage(doc: PdfDocument, lines: seq<JsString>, g: Geometry, i: nat, k: nat)
    requires LinesPerPage(g) > 0 && k == PageCount(|lines|, LinesPerPage(g)) && i < k
    requires doc.Valid() && doc.fontSize == FONT_SIZE
    requires i == 0 ==> doc.pages == [Page([])]
    modifies doc
    ensures doc.Valid()
    ensures doc.pages == (if i == 0 then [] else old(doc.pages)) + [PageAt(lines, g, i, k)]
    ensures i < k - 1 ==> doc.fontSize == FONT_SIZE
  {
    ghost var prefix := if i == 0 then [] else doc.pages;
    ghost var page := PageAt(lines, g, i, k);
    if i > 0 {
      doc.AddPage();
    }
    ghost var blank := doc.pages;
    assert blank == prefix + [Page([])];
    var lpp := LinesPerPage(g);
    PageSlice(lines, g, i, k);
    var startLine := i * lpp;
    var endLine := Min((i + 1) * lpp, |lines|);
    var pageLines := lines[startLine..endLine];
    doc.Text(pageLines, BodyX(), BodyY(), Left);
    ghost var withBody := doc.pages;
    LastReplaced(blank, withBody, prefix, Page([BodyRun(pageLines)]));
    if i == k - 1 {
      doc.SetFontSize(FOOTER_FONT_SIZE);
      doc.Text([Decimal(i + 1) + SLASH + Decimal(k)], FooterX(g), FooterY(g), Center);
      LastReplaced(withBody, doc.pages, prefix, Page([BodyRun(pageLines), FooterRun(g, k)]));
      assert doc.pages == prefix + [page];
    } else {
      assert doc.pages == prefix + [page];
    }
  }

  /** The `for` loop over the pages leaves exactly the planned pages in the document. */
  method WritePages(doc: PdfDocument, lines: seq<JsString>, g: Geometry)
    requires LinesPerPage(g) > 0
    requires doc.pages == [Page([])] && doc.fontSize == FONT_SIZE
    modifies doc
    ensures doc.pages == Layout(lines, g)
  {
    var actualPages := PageCount(|lines|, LinesPerPage(g));
    ghost var layout := Layout(lines, g);
    for i := 0 to actualPages
      invariant i == 0 ==> doc.pages == [Page([])]
      invariant 0 < i ==> doc.pages == layout[..i]
      invariant doc.Valid()
      invariant i < actualPages ==> doc.fontSize == FONT_SIZE
    {
      WritePage(doc, lines, g, i, actualPages);
      assert layout[..i + 1] == layout[..i] + [layout[i]];
    }
    assert actualPages > 0 ==> layout[..actualPages] == layout;
  }

  // ---------------------------------------------------------------------------
  // The handler
  // ---------------------------------------------------------------------------

  /** `processedText`: the text, cut at 2700 code units with the short notice when longer. */
  function PdfText(text: JsString): (r: JsString)
    ensures |text| <= MAX_LENGTH ==> r == text
    ensures |text| > MAX_LENGTH ==> |r| == MAX_LENGTH + |SHORT_MARKER| && r[..MAX_LENGTH] == text[..MAX_LENGTH] && r[MAX_LENGTH..] == SHORT_MARKER
  {
    Truncate(text, MAX_LENGTH, SHORT_MARKER)
  }

  /** `Math.round(pdfData.length / 1024)`. */
  function PdfSize(length: nat): (kb: nat)
    ensures kb * 1024 - 512 <= length < kb * 1024 + 512
  {
    (length + 512) / 1024
  }

  /**
   * What jsPDF does for the handler, which the model does not look inside:
   * the page size of an A4 document, line wrapping, serialisation to a data
   * URI, and the message of an exception any of its calls throws.
   */
  datatype Library = Library(
    geometry: Geometry,
    splitTextToSize: (JsString, int) -> seq<JsString>,
    output: seq<Page> -> JsString,
    fault: Option<JsString>)

  /** The detail of the `pdf-created` event. */
  datatype Creation =
    | Created(pdfData: JsString, pdfSize: nat)
    | NotCreated(error: JsString)

  /** The pages the handler draws for `text`. */
  function PlannedPages(text: JsString, lib: Library): seq<Page>
    requires LinesPerPage(lib.geometry) > 0
  {
    Layout(lib.splitTextToSize(PdfText(text), MaxWidth(lib.geometry)), lib.geometry)
  }

  /**
   * The `create-pdf` listener: no constructor under `window.jspdf.jsPDF` means
   * "jsPDF not available", an exception from the library is reported with its
   * message, and otherwise the laid-out document is returned with its size.
   */
  method CreatePdf(window: Window, text: JsString, lib: Library) returns (r: Creation)
    requires LinesPerPage(lib.geometry) > 0
    ensures !HasConstructor(window.Get(JSPDF_NAMESPACE_KEY)) ==> r == NotCreated(NOT_AVAILABLE)
    ensures HasConstructor(window.Get(JSPDF_NAMESPACE_KEY)) && lib.fault.Some? ==> r == NotCreated(lib.fault.value)
    ensures HasConstructor(window.Get(JSPDF_NAMESPACE_KEY)) && lib.fault.None? ==>
      r == Created(lib.output(PlannedPages(text, lib)), PdfSize(|lib.output(PlannedPages(text, lib))|))
  {
    if !HasConstructor(window.Get(JSPDF_NAMESPACE_KEY)) {
      return NotCreated(NOT_AVAILABLE);
    }
    if lib.fault.Some? {
      return NotCreated(lib.fault.value);
    }
    var doc := new PdfDocument();
    doc.SetFontSize(FONT_SIZE);
    var processedText := PdfText(text);
    var textLines := lib.splitTextToSize(processedText, MaxWidth(lib.geometry));
    WritePages(doc, textLines, lib.geometry);
    var pdfData := lib.output(doc.pages);
    r := Created(pdfData, PdfSize(|pdfData|));
  }
}
