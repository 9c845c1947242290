/// `save_report_as_pdf`: the report is split into lines, and each line is
/// drawn 40 points from the left edge, starting 800 points up the page and
/// 14 points lower each time; when the next line would fall below 40 points
/// the page is finished and a new one begun at the top. The canvas is
/// modelled by the calls it receives.
module PdfExport {
  import opened Text

  datatype DrawOp = DrawString(x: int, y: int, line: string) | ShowPage | Save

  const LeftMargin: int := 40
  const Top: int := 800
  const LineHeight: int := 14
  const BottomMargin: int := 40
  /** How many lines one page takes, as `LinesPerPageIsFirstOverflow`
      derives from the four constants above. */
  const LinesPerPage: nat := 55

  /** The page is full after `k` lines once the next position would be
      below the bottom margin; 55 is the first such `k`. */
  lemma LinesPerPageIsFirstOverflow()
    ensures Top - LineHeight * LinesPerPage < BottomMargin
    ensures forall k: nat :: k < LinesPerPage ==> Top - LineHeight * k >= BottomMargin
  {
  }

  /** The calls for the line with index `k`: drawn at its place on its
      page, and the page finished after the last line that fits. */
  function LineOps(k: nat, line: string): seq<DrawOp> {
    [DrawString(LeftMargin, Top - LineHeight * (k % LinesPerPage), line)]
    + (if k % LinesPerPage == LinesPerPage - 1 then [ShowPage] else [])
  }

  /** The calls for all the lines, in order. */
  function Layout(lines: seq<string>): seq<DrawOp>
    decreases |lines|
  {
    if |lines| == 0 then []
    else Layout(lines[..|lines| - 1]) + LineOps(|lines| - 1, lines[|lines| - 1])
  }

  /** `save_report_as_pdf(text, filepath)`; `filepath` only names the file
      the canvas writes. */
  method SaveReportAsPdf(text: string) returns (ops: seq<DrawOp>)
    ensures ops == Layout(SplitOn(text, '\n')) + [Save]
  {
    var lines := SplitOn(text, '\n');
    ops := [];
    var y := Top;
    var i := 0;
    while i < |lines|
      invariant 0 <= i <= |lines|
      invariant y == Top - LineHeight * (i % LinesPerPage)
      invariant ops == Layout(lines[..i])
    {
      assert lines[..i + 1][..i] == lines[..i];
      ops := ops + [DrawString(LeftMargin, y, lines[i])];
      y := y - LineHeight;
      if y < BottomMargin {
        ops := ops + [ShowPage];
        y := Top;
      }
      NextPosition(i);
      i := i + 1;
    }
    assert lines[..i] == lines;
    ops := ops + [Save];
  }

  /** How the line index moves on its page. */
  lemma NextPosition(i: nat)
    ensures i % LinesPerPage == LinesPerPage - 1 ==> (i + 1) % LinesPerPage == 0
    ensures i % LinesPerPage < LinesPerPage - 1 ==> (i + 1) % LinesPerPage == i % LinesPerPage + 1
  {
  }

  // ---------------------------------------------------------------------
  // properties

  /** The lines drawn, in order. */
  function Drawn(ops: seq<DrawOp>): seq<string>
    decreases |ops|
  {
    if |ops| == 0 then []
    else (if ops[0].DrawString? then [ops[0].line] else []) + Drawn(ops[1..])
  }

  lemma {:induction false} DrawnAppend(a: seq<DrawOp>, b: seq<DrawOp>)
    ensures Drawn(a + b) == Drawn(a) + Drawn(b)
    decreases |a|
  {
    if |a| == 0 {
      assert a + b == b;
    } else {
      assert (a + b)[1..] == a[1..] + b;
      DrawnAppend(a[1..], b);
    }
  }

  /** Every line is drawn once, in order, and nothing else is drawn. */
  lemma {:induction false} DrawnLayout(lines: seq<string>)
    ensures Drawn(Layout(lines)) == lines
    decreases |lines|
  {
    if |lines| > 0 {
      var n := |lines| - 1;
      DrawnLayout(lines[..n]);
      DrawnAppend(Layout(lines[..n]), LineOps(n, lines[n]));
      var ops := LineOps(n, lines[n]);
      assert ops[1..] == [] || ops[1..] == [ShowPage];
      assert Drawn(ops[1..]) == [];
      assert lines == lines[..n] + [lines[n]];
    }
  }

  /** The drawn lines, joined again with newlines, are the report: the PDF
      holds the whole text. */
  lemma PdfHoldsReport(text: string)
    ensures Join(Drawn(Layout(SplitOn(text, '\n')) + [Save]), "\n") == text
  {
    var lines := SplitOn(text, '\n');
    DrawnAppend(Layout(lines), [Save]);
    DrawnLayout(lines);
    assert Drawn([Save]) == [];
    assert lines + [] == lines;
    JoinSplitOn(text, '\n');
  }

  /** Every line is drawn at the left margin, no higher than the top and
      no lower than 44, the row of the 55th line: the bottom margin is
      never reached by a drawn line. */
  lemma {:induction false} LayoutWithinMargins(lines: seq<string>)
    ensures forall op :: op in Layout(lines) && op.DrawString? ==>
              op.x == LeftMargin && Top - LineHeight * (LinesPerPage - 1) <= op.y <= Top
              && op.y >= BottomMargin + 4
    decreases |lines|
  {
    if |lines| > 0 {
      var n := |lines| - 1;
      LayoutWithinMargins(lines[..n]);
      assert 0 <= n % LinesPerPage < LinesPerPage;
    }
  }

  function PageBreaks(ops: seq<DrawOp>): nat
    decreases |ops|
  {
    if |ops| == 0 then 0
    else (if ops[0].ShowPage? then 1 else 0) + PageBreaks(ops[1..])
  }

  lemma {:induction false} PageBreaksAppend(a: seq<DrawOp>, b: seq<DrawOp>)
    ensures PageBreaks(a + b) == PageBreaks(a) + PageBreaks(b)
    decreases |a|
  {
    if |a| == 0 {
      assert a + b == b;
    } else {
      assert (a + b)[1..] == a[1..] + b;
      PageBreaksAppend(a[1..], b);
    }
  }

  /** A page is finished after every 55 lines, and only then. */
  lemma {:induction false} LayoutPageBreaks(lines: seq<string>)
    ensures PageBreaks(Layout(lines)) == |lines| / LinesPerPage
    decreases |lines|
  {
    if |lines| > 0 {
      var n := |lines| - 1;
      LayoutPageBreaks(lines[..n]);
      var ops := LineOps(n, lines[n]);
      PageBreaksAppend(Layout(lines[..n]), ops);
      if n % LinesPerPage == LinesPerPage - 1 {
        assert ops[1..] == [ShowPage] && [ShowPage][1..] == [];
        assert PageBreaks(ops) == 1;
      } else {
        assert ops[1..] == [];
        assert PageBreaks(ops) == 0;
      }
      NextPosition(n);
      assert n == LinesPerPage * (n / LinesPerPage) + n % LinesPerPage;
      assert n + 1 == LinesPerPage * ((n + 1) / LinesPerPage) + (n + 1) % LinesPerPage;
    }
  }

  /** One call per line and one `showPage` per full page. */
  lemma {:induction false} LayoutLength(lines: seq<string>)
    ensures |Layout(lines)| == |lines| + |lines| / LinesPerPage
    decreases |lines|
  {
    if |lines| > 0 {
      var n := |lines| - 1;
      LayoutLength(lines[..n]);
      NextPosition(n);
      assert n == LinesPerPage * (n / LinesPerPage) + n % LinesPerPage;
      assert n + 1 == LinesPerPage * ((n + 1) / LinesPerPage) + (n + 1) % LinesPerPage;
    }
  }

  /** Line `k` is the call at index `k + k / 55` (after the `k / 55`
      earlier page breaks): drawn at x = 40, on row `k % 55` of its page. */
  lemma {:induction false} LayoutPosition(lines: seq<string>, k: nat)
    requires k < |lines|
    ensures k + k / LinesPerPage < |Layout(lines)|
    ensures Layout(lines)[k + k / LinesPerPage]
            == DrawString(LeftMargin, Top - LineHeight * (k % LinesPerPage), lines[k])
    decreases |lines|
  {
    var n := |lines| - 1;
    var init := lines[..n];
    LayoutLength(lines);
    LayoutLength(init);
    assert Layout(lines) == Layout(init) + LineOps(n, lines[n]);
    if k < n {
      LayoutPosition(init, k);
      assert k / LinesPerPage <= n / LinesPerPage;
      assert init[k] == lines[k];
    }
  }
}
