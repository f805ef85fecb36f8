/** reflow's own steps: collecting the lines, counting, taking history back, laying out, committing (_lib/vt.c). */
module ReflowSteps {
  import opened Cells
  import opened Lines
  import opened Scrollback
  import opened Utf8
  import opened Vt
  import opened Reflow
  import Width

  /* ---- 1. the lines of the screen ---- */

  method AppendUnpadded(lin0: seq<Cell>, row: Row) returns (lin: seq<Cell>)
    ensures lin == lin0 + Unpadded(row)
  {
    lin := lin0;
    var c := 0;
    while c < |row|
      invariant c <= |row| && lin == lin0 + Unpadded(row[..c])
    {
      assert row[..c + 1][..c] == row[..c];
      if !row[c].pad { lin := lin + [row[c]]; }
      c := c + 1;
    }
    assert row[..c] == row;
  }

  /** The cells of the line that starts at row r, and its last row. */
  method CollectLine(cells: seq<Row>, flags: seq<bool>, r: nat, cf: nat, lin0: seq<Cell>)
    returns (lin: seq<Cell>, b: nat)
    requires r < |cells| == |flags| && r != cf
    ensures var to := if r < cf <= |cells| then cf else |cells|;
            b + 1 == LineEnd(flags, r, to) && lin == lin0 + Gather(cells[r..b + 1])
  {
    hide Gather, Unpadded;
    ghost var to := if r < cf <= |cells| then cf else |cells|;
    lin, b := lin0, r;
    assert Gather(cells[r..r]) == [] by { EmptyGather(cells[r..r]); }
    while true
      invariant r <= b < to && lin == lin0 + Gather(cells[r..b])
      invariant LineEnd(flags, b, to) == LineEnd(flags, r, to)
      decreases |cells| - b
    {
      lin := AppendUnpadded(lin, cells[b]);
      GatherAppend(cells[r..b], [cells[b]]);
      GatherOne(cells[b]);
      assert cells[r..b] + [cells[b]] == cells[r..b + 1];
      if b + 1 >= |cells| || !flags[b] || b + 1 == cf { break; }
      b := b + 1;
    }
  }

  lemma EmptyGather(rows: seq<Row>)
    requires rows == []
    ensures Gather(rows) == []
  {
  }

  method TrimmedLength(lin: seq<Cell>, start: nat) returns (n: nat)
    requires start <= |lin|
    ensures n == |Trim(lin[start..])|
  {
    ghost var g := lin[start..];
    n := |lin| - start;
    assert g[..n] == g;
    while n > 0 && LineBlank(lin[start + n - 1])
      invariant n <= |g| && Trim(g[..n]) == Trim(g)
    {
      assert g[..n][..n - 1] == g[..n - 1];
      n := n - 1;
    }
  }

  /** The lines on rows before r, but not the cursor's, are in lin and spans; `mark` of them are above it, -1 if it is
      not reached. */
  ghost predicate Collected(s: Screen, cf: nat, cl: nat, r: nat, lin: seq<Cell>, spans: seq<Span>, mark: int)
    requires s.Valid() && cf == FirstRow(s.flags, s.curRow) && cl == LastRowOf(s.flags, s.curRow)
  {
    && r <= s.rows && (if mark < 0 then r <= cf else r > cl && mark <= |spans|)
    && if mark < 0 then
         && lin == Gather(s.cells[..r])
         && spans + Spans(s.cells, s.flags, r, cf, |lin|) == Spans(s.cells, s.flags, 0, cf, 0)
       else
         && lin == Gather(s.cells[..cf]) + Gather(s.cells[cl + 1..r])
         && spans[..mark] == Spans(s.cells, s.flags, 0, cf, 0)
         && spans[mark..] + Spans(s.cells, s.flags, r, s.rows, |lin|) == SpansBelow(s)
  }

  lemma CollectedStarts(s: Screen, cf: nat, cl: nat)
    requires s.Valid() && cf == FirstRow(s.flags, s.curRow) && cl == LastRowOf(s.flags, s.curRow)
    ensures Collected(s, cf, cl, 0, [], [], -1)
  {
    EmptyGather(s.cells[..0]);
  }

  lemma CollectedPasses(s: Screen, cf: nat, cl: nat, lin: seq<Cell>, spans: seq<Span>)
    requires s.Valid() && cf == FirstRow(s.flags, s.curRow) && cl == LastRowOf(s.flags, s.curRow)
    requires Collected(s, cf, cl, cf, lin, spans, -1)
    ensures Collected(s, cf, cl, cl + 1, lin, spans, |spans|)
  {
    hide Gather, Spans, LineEnd;
    SpansEnd(s.cells, s.flags, cf, |lin|);
    EmptyGather(s.cells[cl + 1..cl + 1]);
    assert spans[|spans|..] == [];
  }

  lemma CollectedGrows(s: Screen, cf: nat, cl: nat, r: nat, lin: seq<Cell>, spans: seq<Span>, mark: int, e: nat)
    requires s.Valid() && cf == FirstRow(s.flags, s.curRow) && cl == LastRowOf(s.flags, s.curRow)
    requires Collected(s, cf, cl, r, lin, spans, mark) && r < s.rows && r != cf
    requires e == LineEnd(s.flags, r, if r < cf then cf else s.rows)
    ensures var g := Gather(s.cells[r..e]);
            Collected(s, cf, cl, e, lin + g, spans + [Span(|lin|, |Trim(g)|)], mark)
  {
    hide Gather, Spans, LineEnd, Trim;
    SpansStep(s.cells, s.flags, r, if r < cf then cf else s.rows, |lin|);
    GatherJoin(s.cells, if r < cf then 0 else cl + 1, r, e);
    if mark >= 0 {
      var x := Span(|lin|, |Trim(Gather(s.cells[r..e]))|);
      assert (spans + [x])[mark..] == spans[mark..] + [x];
    } else {
      assert s.cells[0..r] == s.cells[..r] && s.cells[0..e] == s.cells[..e];
    }
  }

  /** All lines but the cursor's; `frozen` of them are above it. */
  method CollectLines(s: Screen, cf: nat, cl: nat) returns (lin: seq<Cell>, spans: seq<Span>, frozen: nat)
    requires s.Valid() && cf == FirstRow(s.flags, s.curRow) && cl == LastRowOf(s.flags, s.curRow)
    ensures lin == Gather(s.cells[..cf]) + Gather(s.cells[cl + 1..])
    ensures frozen <= |spans| && spans[..frozen] == Spans(s.cells, s.flags, 0, cf, 0)
    ensures spans[frozen..] == SpansBelow(s)
  {
    hide Gather, Spans, LineEnd, Trim, Collected, FirstRow, LastRowOf;
    lin, spans := [], [];
    var mark, r := -1, 0;
    CollectedStarts(s, cf, cl);
    while r < s.rows
      invariant r <= s.rows && Collected(s, cf, cl, r, lin, spans, mark) && mark >= -1
    {
      CollectedMark(s, cf, cl, r, lin, spans, mark);
      if r == cf {
        CollectedPasses(s, cf, cl, lin, spans);
        mark, r := |spans|, cl + 1;
      } else {
        var start := |lin|;
        var grown, b := CollectLine(s.cells, s.flags, r, cf, lin);
        var n := TrimmedLength(grown, start);
        CollectedGrows(s, cf, cl, r, lin, spans, mark, b + 1);
        assert grown[start..] == Gather(s.cells[r..b + 1]);
        lin, spans := grown, spans + [Span(start, n)];
        CollectedMark(s, cf, cl, b + 1, lin, spans, mark);
        r := b + 1;
      }
    }
    CollectedMark(s, cf, cl, r, lin, spans, mark);
    CollectedEnds(s, cf, cl, lin, spans, mark);
    frozen := mark;
  }

  lemma CollectedMark(s: Screen, cf: nat, cl: nat, r: nat, lin: seq<Cell>, spans: seq<Span>, mark: int)
    requires s.Valid() && cf == FirstRow(s.flags, s.curRow) && cl == LastRowOf(s.flags, s.curRow)
    requires Collected(s, cf, cl, r, lin, spans, mark)
    ensures (mark < 0 <==> r <= cf) && cf <= cl < s.rows
  {
  }

  lemma CollectedEnds(s: Screen, cf: nat, cl: nat, lin: seq<Cell>, spans: seq<Span>, mark: int)
    requires s.Valid() && cf == FirstRow(s.flags, s.curRow) && cl == LastRowOf(s.flags, s.curRow)
    requires Collected(s, cf, cl, s.rows, lin, spans, mark)
    ensures 0 <= mark <= |spans| && spans[..mark] == Spans(s.cells, s.flags, 0, cf, 0) && spans[mark..] == SpansBelow(s)
    ensures lin == Gather(s.cells[..cf]) + Gather(s.cells[cl + 1..])
  {
    SpansEnd(s.cells, s.flags, s.rows, |lin|);
    assert s.cells[cl + 1..s.rows] == s.cells[cl + 1..];
  }

  lemma SpansEnd(cells: seq<Row>, flags: seq<bool>, r: nat, start: nat)
    requires r <= |cells| == |flags|
    ensures Spans(cells, flags, r, r, start) == []
  {
  }

  lemma SpansStep(cells: seq<Row>, flags: seq<bool>, r: nat, to: nat, start: nat)
    requires r < to <= |cells| == |flags|
    ensures var e := LineEnd(flags, r, to);
            var g := Gather(cells[r..e]);
            Spans(cells, flags, r, to, start) == [Span(start, |Trim(g)|)] + Spans(cells, flags, e, to, start + |g|)
  {
    hide LineEnd, Gather, Trim;
  }

  lemma GatherJoin(cells: seq<Row>, a: nat, b: nat, c: nat)
    requires a <= b <= c <= |cells|
    ensures Gather(cells[a..b]) + Gather(cells[b..c]) == Gather(cells[a..c])
  {
    GatherAppend(cells[a..b], cells[b..c]);
    assert cells[a..b] + cells[b..c] == cells[a..c];
  }

  /** Blank lines below the cursor's line are not text. */
  method DropBlank(spans0: seq<Span>, frozen: nat) returns (spans: seq<Span>)
    requires frozen <= |spans0|
    ensures frozen <= |spans| && spans[..frozen] == spans0[..frozen] && spans[frozen..] == DropEmpty(spans0[frozen..])
  {
    spans := spans0;
    while |spans| > frozen && spans[|spans| - 1].len == 0
      invariant frozen <= |spans| && spans[..frozen] == spans0[..frozen]
      invariant DropEmpty(spans[frozen..]) == DropEmpty(spans0[frozen..])
    {
      assert spans[..|spans| - 1][frozen..] == spans[frozen..][..|spans| - 1 - frozen];
      spans := spans[..|spans| - 1];
    }
  }

  /* ---- 2. the rows they take ---- */

  lemma LaidSnoc(lines: seq<seq<Cell>>, a: nat, i: nat, nc: nat)
    requires nc >= 2 && LinesOk(lines) && a <= i < |lines|
    ensures Laid(lines[a..i + 1], nc) == Laid(lines[a..i], nc).Then(LaidLine(lines[i], nc))
  {
    assert lines[a..i + 1][..i - a] == lines[a..i];
  }

  lemma {:induction false} LaidAppend(a: seq<seq<Cell>>, b: seq<seq<Cell>>, nc: nat)
    requires nc >= 2 && LinesOk(a) && LinesOk(b)
    ensures Laid(a + b, nc) == Laid(a, nc).Then(Laid(b, nc))
    decreases |b|
  {
    if |b| == 0 {
      assert a + b == a;
    } else {
      assert (a + b)[..|a + b| - 1] == a + b[..|b| - 1];
      LaidAppend(a, b[..|b| - 1], nc);
    }
  }

  lemma LaidOne(ln: seq<Cell>, nc: nat)
    requires nc >= 2 && Chunked(ln)
    ensures Laid([ln], nc) == LaidLine(ln, nc)
  {
    assert [ln][..0] == [];
  }

  method CountRows(buf: seq<Cell>, spans: seq<Span>, frozen: nat, nc: nat) returns (above: nat, below: nat)
    requires nc >= 2 && SpansFit(buf, spans) && frozen <= |spans|
    ensures above == |Laid(SpanLines(buf, spans)[..frozen], nc).rows|
            && below == |Laid(SpanLines(buf, spans)[frozen..], nc).rows|
  {
    hide Laid, Lay;
    ghost var lines := SpanLines(buf, spans);
    above, below := 0, 0;
    LaidNone(lines[0..0], nc);
    LaidNone(lines[frozen..frozen], nc);
    var i := 0;
    while i < |spans|
      invariant i <= |spans|
      invariant above == |Laid(lines[0..Min(i, frozen)], nc).rows|
      invariant below == |Laid(lines[frozen..if i < frozen then frozen else i], nc).rows|
    {
      LaidSnoc(lines, if i < frozen then 0 else frozen, i, nc);
      var rows := LayLine(buf[spans[i].start..], spans[i].len, nc, null, null, 0);
      if i < frozen { above := above + rows; } else { below := below + rows; }
      i := i + 1;
    }
    assert lines[0..frozen] == lines[..frozen] && lines[frozen..|lines|] == lines[frozen..];
  }

  lemma LaidNone(lines: seq<seq<Cell>>, nc: nat)
    requires nc >= 2 && lines == []
    ensures Laid(lines, nc) == Page([], [])
  {
  }

  /* ---- 3. lines taken back from the history ---- */

  method ReadCode(b: seq<Byte>) returns (cp: nat, len: nat)
    requires |b| > 0
    ensures cp == FirstCode(b) && len == LeadLength(b[0])
  {
    cp, len := LeadBits(b[0]), LeadLength(b[0]);
    var j := 1;
    while j < len && j < |b|
      invariant 1 <= j <= CharLength(b) && cp == AddBytes(LeadBits(b[0]), b[1..], j - 1)
    {
      cp := cp * 64 + b[j] % 64;
      j := j + 1;
    }
  }

  /** decode_text: the cells, unless there are more than `cap`. */
  method ReadText(b: seq<Byte>, cap: nat) returns (fits: bool, cells: seq<Cell>)
    ensures fits <==> |DecodeText(b)| <= cap
    ensures fits ==> cells == DecodeText(b)
  {
    hide FirstCode, CharCells, Width.CpWidth, LeadLength, LeadBits;
    cells := [];
    var i := 0;
    assert b[0..] == b;
    while i < |b|
      invariant i <= |b| && |cells| <= cap && cells + DecodeText(b[i..]) == DecodeText(b)
    {
      var cp, len := ReadCode(b[i..]);
      assert b[i..][CharLength(b[i..])..] == b[Min(i + len, |b|)..];
      var w := Width.CpWidth(cp);
      if |cells| + w > cap { return false, []; }
      cells := cells + CharCells(cp);
      i := Min(i + len, |b|);
    }
    fits := true;
  }

  ghost predicate LinesWithin(lines: seq<seq<Cell>>, cap: nat) {
    forall i :: 0 <= i < |lines| ==> |lines[i]| <= cap
  }

  lemma HistoryLinesStep(text: seq<Byte>, q: nat, p: nat, e: nat)
    requires q < p <= e <= |text| && text[p - 1] == NEWLINE && forall j :: q <= j < p - 1 ==> text[j] != NEWLINE
    ensures HistoryLines(text, q, e) == [DecodedLine(text[q..p - 1])] + HistoryLines(text, p, e)
  {
    var k := FindNewline(text[..e], q);
    assert text[..e][p - 1] == NEWLINE;
    assert k == p - 1;
  }

  /** Where the line that ends with the newline before p starts. */
  method LineBefore(text: seq<Byte>, p: nat) returns (q: nat)
    requires 0 < p <= |text|
    ensures q < p && q == Cut(text, p - 1) && LineStart(text, q) && forall j :: q <= j < p - 1 ==> text[j] != NEWLINE
  {
    q := p - 1;
    while q > 0 && text[q - 1] != NEWLINE
      invariant q < p && Cut(text, q) == Cut(text, p - 1)
      invariant forall j :: q <= j < p - 1 ==> text[j] != NEWLINE
    {
      q := q - 1;
    }
  }

  method PullLines(text: seq<Byte>, cut: nat, avail: int, nc: nat, cap: nat) returns (hrows: nat, pull: nat)
    requires LineStart(text, cut) && nc >= 2
    ensures pull == PullFrom(text, cut, avail, nc, cap) && hrows == |Laid(HistoryLines(text, pull, cut), nc).rows|
    ensures LinesWithin(HistoryLines(text, pull, cut), cap)
  {
    hide Laid, Lay, HistoryLines, Chunked, Paired, NoPads, DecodeText, Cut;
    var p: nat := cut;
    hrows, pull := 0, cut;
    assert HistoryLines(text, cut, cut) == [] by { NoHistoryLines(text, cut); }
    LaidNone(HistoryLines(text, cut, cut), nc);
    while p > 0
      invariant p <= cut && LineStart(text, p) && pull == p
      invariant PullFrom(text, p, avail - hrows, nc, cap) == PullFrom(text, cut, avail, nc, cap)
      invariant hrows == |Laid(HistoryLines(text, p, cut), nc).rows|
      invariant LinesWithin(HistoryLines(text, p, cut), cap)
    {
      var q := LineBefore(text, p);
      var fits, cells := ReadText(text[q..p - 1], cap);
      ghost var ln := DecodedLine(text[q..p - 1]);
      if !fits { break; }
      WholeLine(cells);
      var rows := LayLine(cells, |cells|, nc, null, null, 0);
      if hrows + rows > avail { break; }
      HistoryLinesStep(text, q, p, cut);
      ghost var rest := HistoryLines(text, p, cut);
      LaidAppend([ln], rest, nc);
      LaidOne(ln, nc);
      hrows := hrows + rows;
      pull, p := q, q;
    }
  }

  lemma NoHistoryLines(text: seq<Byte>, e: nat)
    requires e <= |text|
    ensures HistoryLines(text, e, e) == []
  {
  }

  /** A line decoded from text ends where its cells do. */
  lemma WholeLine(ln: seq<Cell>)
    requires Paired(ln)
    ensures Extent(ln, |ln|) == |ln| && Taken(ln, |ln|) == ln
  {
    TakenPaired(ln, []);
    assert ln + [] == ln;
  }

  /* ---- 4. laying everything out ---- */

  /** The rows of the page are in the grid, from its top, and the rows below them are as allocated. */
  ghost predicate OnGrid(g: seq<Row>, f: seq<bool>, page: Page, nc: nat) {
    && |g| == |f| && page.Valid(nc) && |page.rows| <= |g|
    && g == page.rows + seq(|g| - |page.rows|, _ => Blanks(nc))
    && f == page.flags + NoFlags(|g| - |page.rows|)
  }

  lemma OnGridFresh(g: seq<Row>, f: seq<bool>, page: Page, nc: nat)
    requires OnGrid(g, f, page, nc)
    ensures |page.rows| <= |g| == |f| && Fresh(g, f, |page.rows|, nc)
  {
  }

  lemma OnGridPut(g: seq<Row>, f: seq<bool>, page: Page, more: Page, nc: nat)
    requires OnGrid(g, f, page, nc) && more.Valid(nc) && |page.rows| + |more.rows| <= |g|
    ensures |g| == |f| && |more.rows| == |more.flags|
    ensures OnGrid(Put(g, |page.rows|, more.rows), Put(f, |page.rows|, more.flags), page.Then(more), nc)
  {
    hide Blanks;
  }

  lemma OnGridWhole(g: seq<Row>, f: seq<bool>, page: Page, nc: nat)
    requires OnGrid(g, f, page, nc) && |g| == |page.rows|
    ensures g == page.rows && f == page.flags
  {
  }

  /** One line laid out below the rows that are done. */
  method FillLine(b: seq<Cell>, n: nat, nc: nat, tg: array<Row>, tf: array<bool>, row: nat, ghost page: Page)
    returns (next: nat)
    requires nc >= 2 && n <= |b| && Extent(b, n) <= |b|
    requires OnGrid(tg[..], tf[..], page, nc) && row == |page.rows|
             && row + |LaidLine(Taken(b, n), nc).rows| <= tg.Length
    modifies tg, tf
    ensures var p := page.Then(LaidLine(Taken(b, n), nc)); OnGrid(tg[..], tf[..], p, nc) && next == |p.rows|
  {
    hide OnGrid, Fresh, Lay, Put, Extent, Taken, LineFlags;
    OnGridFresh(tg[..], tf[..], page, nc);
    OnGridPut(tg[..], tf[..], page, LaidLine(Taken(b, n), nc), nc);
    var used := LayLine(b, n, nc, tg, tf, row);
    next := row + used;
  }

  method FillHistory(text: seq<Byte>, pull: nat, cut: nat, nc: nat, cap: nat, tg: array<Row>, tf: array<bool>)
    returns (row: nat)
    requires nc >= 2 && pull <= cut && LineStart(text, cut) && LinesWithin(HistoryLines(text, pull, cut), cap)
    requires OnGrid(tg[..], tf[..], Page([], []), nc)
    requires |Laid(HistoryLines(text, pull, cut), nc).rows| <= tg.Length
    modifies tg, tf
    ensures var p := Laid(HistoryLines(text, pull, cut), nc); OnGrid(tg[..], tf[..], p, nc) && row == |p.rows|
  {
    hide OnGrid, Lay, Laid, HistoryLines, Chunked, Paired, DecodeText, Extent, Taken, NoPads;
    ghost var lines, i := HistoryLines(text, pull, cut), 0;
    var p := pull;
    row := 0;
    LaidNone(lines[0..0], nc);
    assert lines[0..] == lines;
    while p < cut
      invariant p <= cut && i <= |lines| && HistoryLines(text, p, cut) == lines[i..]
      invariant OnGrid(tg[..], tf[..], Laid(lines[0..i], nc), nc) && row == |Laid(lines[0..i], nc).rows|
    {
      var e := p;
      while e < cut && text[e] != NEWLINE
        invariant p <= e < cut && forall j :: p <= j < e ==> text[j] != NEWLINE
      {
        e := e + 1;
      }
      HistoryLinesStep(text, p, e + 1, cut);
      assert text[p..e + 1 - 1] == text[p..e];
      assert lines[i] == lines[i..][0] == DecodedLine(text[p..e]) && lines[i + 1..] == lines[i..][1..];
      var fits, cells := ReadText(text[p..e], cap);
      WholeLine(cells);
      LaidSnoc(lines, 0, i, nc);
      LaidPrefix(lines, i + 1, nc);
      row := FillLine(cells, |cells|, nc, tg, tf, row, Laid(lines[0..i], nc));
      p, i := e + 1, i + 1;
    }
    assert HistoryLines(text, cut, cut) == [] by { NoHistoryLines(text, cut); }
    assert lines[0..i] == lines;
  }

  lemma LaidPrefix(lines: seq<seq<Cell>>, i: nat, nc: nat)
    requires nc >= 2 && LinesOk(lines) && i <= |lines|
    ensures |Laid(lines[0..i], nc).rows| <= |Laid(lines, nc).rows|
  {
    hide Laid;
    LaidAppend(lines[0..i], lines[i..], nc);
    assert lines[0..i] + lines[i..] == lines;
  }

  /** A row of the cursor's line, cut or padded. */
  method CopyFit(row: Row, nc: nat, b: Cell) returns (r: Row)
    requires nc >= 1
    ensures r == FitRow(row, nc, b)
  {
    r := Blanks(nc);
    var w, c := if |row| < nc then |row| else nc, 0;
    while c < w
      invariant c <= w && |r| == nc
      invariant forall k :: 0 <= k < c ==> r[k] == FitRow(row, nc, b)[k]
      invariant forall k :: c <= k < nc ==> r[k] == BLANK
    {
      var x := row[c];
      if c == nc - 1 && x.wide { x := b; }
      r := r[c := x];
      c := c + 1;
    }
  }

  /** The cursor's rows, under the rows that are done. */
  method FillCursorRows(s: Screen, cf: nat, cl: nat, nc: nat, tg: array<Row>, tf: array<bool>, row0: nat,
                        ghost page: Page) returns (row: nat)
    requires s.Valid() && nc >= 2 && cf == FirstRow(s.flags, s.curRow) && cl == LastRowOf(s.flags, s.curRow)
    requires OnGrid(tg[..], tf[..], page, nc) && row0 == |page.rows| && row0 + (cl + 1 - cf) <= tg.Length
    modifies tg, tf
    ensures var p := page.Then(CursorPage(s, nc)); OnGrid(tg[..], tf[..], p, nc) && row == |p.rows|
  {
    hide OnGrid, FitRow, FirstRow, LastRowOf;
    var k := 0;
    row := row0;
    ghost var done := page;
    assert done == page.Then(FitPage(s, cf, cf, nc));
    while k < cl + 1 - cf
      invariant k <= cl + 1 - cf && row == row0 + k
      invariant done == page.Then(FitPage(s, cf, cf + k, nc)) && OnGrid(tg[..], tf[..], done, nc) && row == |done.rows|
    {
      ghost var one := FitPage(s, cf + k, cf + k + 1, nc);
      OnGridFresh(tg[..], tf[..], done, nc);
      OnGridPut(tg[..], tf[..], done, one, nc);
      var r := CopyFit(s.cells[cf + k], nc, BlankCell(s.pen));
      PutOne(tg[..], tf[..], row, one, nc);
      ghost var g, f := tg[..], tf[..];
      tg[row] := r;
      if s.flags[cf + k] { tf[row] := true; }
      assert tg[..] == g[row := r] && tf[..] == f[row := s.flags[cf + k]] by { FreshFlag(g, f, row, nc); }
      FitPageGrows(s, cf, cf + k, nc);
      ThenThen(page, FitPage(s, cf, cf + k, nc), one);
      done := done.Then(one);
      k, row := k + 1, row + 1;
    }
  }

  lemma FreshFlag(g: seq<Row>, f: seq<bool>, row: nat, nc: nat)
    requires Fresh(g, f, row, nc) && row < |g|
    ensures !f[row]
  {
  }

  lemma PutOne(g: seq<Row>, f: seq<bool>, row: nat, p: Page, nc: nat)
    requires |g| == |f| && row < |g| && |p.rows| == |p.flags| == 1
    ensures Put(g, row, p.rows) == g[row := p.rows[0]] && Put(f, row, p.flags) == f[row := p.flags[0]]
  {
  }

  /** Rows from..to-1 cut or padded. */
  ghost function FitPage(s: Screen, from: nat, to: nat, nc: nat): (p: Page)
    requires s.Valid() && nc >= 2 && from <= to <= s.rows
    ensures p.Valid(nc) && |p.rows| == to - from
  {
    Page(FitRows(s.cells[from..to], nc, BlankCell(s.pen)), s.flags[from..to])
  }

  lemma FitPageGrows(s: Screen, from: nat, to: nat, nc: nat)
    requires s.Valid() && nc >= 2 && from <= to < s.rows
    ensures FitPage(s, from, to + 1, nc) == FitPage(s, from, to, nc).Then(FitPage(s, to, to + 1, nc))
  {
    hide FitRow;
    var a, b := FitPage(s, from, to + 1, nc), FitPage(s, from, to, nc).Then(FitPage(s, to, to + 1, nc));
    forall i | 0 <= i < to + 1 - from ensures a.rows[i] == b.rows[i] && a.flags[i] == b.flags[i] {
      if i == to - from { assert s.cells[to..to + 1][0] == s.cells[from..to + 1][i]; }
      else { assert s.cells[from..to][i] == s.cells[from..to + 1][i]; }
    }
  }

  lemma ThenThen(a: Page, b: Page, c: Page)
    ensures a.Then(b).Then(c) == a.Then(b.Then(c))
  {
  }

  lemma ThenNothing(a: Page)
    ensures a.Then(Page([], [])) == a && Page([], []).Then(a) == a
  {
  }

  /** What is laid out once the first i of the screen's lines are, and the cursor's rows where they belong. */
  ghost function PageSoFar(s: Screen, base: Page, lines: seq<seq<Cell>>, frozen: nat, i: nat, cursor: bool,
                           nc: nat): (p: Page)
    requires s.Valid() && nc >= 2 && LinesOk(lines) && i <= |lines| && (if cursor then frozen <= i else i <= frozen)
  {
    if !cursor then base.Then(Laid(lines[0..i], nc))
    else base.Then(Laid(lines[0..frozen], nc)).Then(CursorPage(s, nc)).Then(Laid(lines[frozen..i], nc))
  }

  lemma PageSoFarLine(s: Screen, base: Page, lines: seq<seq<Cell>>, frozen: nat, i: nat, cursor: bool, nc: nat)
    requires s.Valid() && nc >= 2 && LinesOk(lines) && i < |lines| && (if cursor then frozen <= i else i < frozen)
    ensures PageSoFar(s, base, lines, frozen, i + 1, cursor, nc)
            == PageSoFar(s, base, lines, frozen, i, cursor, nc).Then(LaidLine(lines[i], nc))
  {
    hide Laid, CursorPage, LaidLine;
    if cursor {
      LaidSnoc(lines, frozen, i, nc);
      ThenThen(base.Then(Laid(lines[0..frozen], nc)).Then(CursorPage(s, nc)), Laid(lines[frozen..i], nc),
               LaidLine(lines[i], nc));
    } else {
      LaidSnoc(lines, 0, i, nc);
      ThenThen(base, Laid(lines[0..i], nc), LaidLine(lines[i], nc));
    }
  }

  lemma PageSoFarCursor(s: Screen, base: Page, lines: seq<seq<Cell>>, frozen: nat, nc: nat)
    requires s.Valid() && nc >= 2 && LinesOk(lines) && frozen <= |lines|
    ensures PageSoFar(s, base, lines, frozen, frozen, true, nc)
            == PageSoFar(s, base, lines, frozen, frozen, false, nc).Then(CursorPage(s, nc))
  {
    hide Laid, CursorPage;
    LaidNone(lines[frozen..frozen], nc);
    ThenNothing(base.Then(Laid(lines[0..frozen], nc)).Then(CursorPage(s, nc)));
  }

  /** No step on the way takes more rows than the whole does. */
  lemma PageSoFarFits(s: Screen, base: Page, lines: seq<seq<Cell>>, frozen: nat, i: nat, cursor: bool, nc: nat)
    requires s.Valid() && nc >= 2 && LinesOk(lines) && i <= |lines| && frozen <= |lines|
             && (if cursor then frozen <= i else i <= frozen)
    ensures |PageSoFar(s, base, lines, frozen, i, cursor, nc).rows| + (if cursor then 0 else |CursorPage(s, nc).rows|)
            <= |PageSoFar(s, base, lines, frozen, |lines|, true, nc).rows|
  {
    hide Laid, CursorPage;
    if cursor {
      assert lines[frozen..][0..i - frozen] == lines[frozen..i] && lines[frozen..|lines|] == lines[frozen..];
      LaidPrefix(lines[frozen..], i - frozen, nc);
    } else {
      assert lines[0..frozen][0..i] == lines[0..i];
      LaidPrefix(lines[0..frozen], i, nc);
    }
  }

  /** The lines of the screen and the cursor's rows, below what is taken from the history. */
  method FillScreen(s: Screen, cf: nat, cl: nat, buf: seq<Cell>, spans: seq<Span>, frozen: nat, nc: nat,
                    tg: array<Row>, tf: array<bool>, row0: nat, ghost base: Page) returns (row: nat)
    requires s.Valid() && nc >= 2 && cf == FirstRow(s.flags, s.curRow) && cl == LastRowOf(s.flags, s.curRow)
    requires SpansFit(buf, spans) && frozen <= |spans|
    requires OnGrid(tg[..], tf[..], base, nc) && row0 == |base.rows|
    requires tg.Length == |PageSoFar(s, base, SpanLines(buf, spans), frozen, |spans|, true, nc).rows|
    modifies tg, tf
    ensures row == tg.Length
    ensures OnGrid(tg[..], tf[..], PageSoFar(s, base, SpanLines(buf, spans), frozen, |spans|, true, nc), nc)
  {
    hide OnGrid, Laid, Lay, CursorPage, PageSoFar, Extent, Taken, FirstRow, LastRowOf;
    ghost var lines := SpanLines(buf, spans);
    var i := 0;
    row := row0;
    PageSoFarStarts(s, base, lines, frozen, nc);
    CursorRows(s, nc);
    while i < |spans|
      invariant i <= |spans|
      invariant OnGrid(tg[..], tf[..], PageSoFar(s, base, lines, frozen, i, i > frozen, nc), nc)
      invariant row == |PageSoFar(s, base, lines, frozen, i, i > frozen, nc).rows|
    {
      if i == frozen {
        PageSoFarFits(s, base, lines, frozen, i, false, nc);
        row := FillCursorRows(s, cf, cl, nc, tg, tf, row, PageSoFar(s, base, lines, frozen, i, false, nc));
        PageSoFarCursor(s, base, lines, frozen, nc);
      }
      ghost var cursor := i >= frozen;
      PageSoFarLine(s, base, lines, frozen, i, cursor, nc);
      PageSoFarFits(s, base, lines, frozen, i + 1, cursor, nc);
      row := FillLine(buf[spans[i].start..], spans[i].len, nc, tg, tf, row,
                      PageSoFar(s, base, lines, frozen, i, cursor, nc));
      i := i + 1;
    }
    if frozen == |spans| {
      PageSoFarFits(s, base, lines, frozen, i, false, nc);
      row := FillCursorRows(s, cf, cl, nc, tg, tf, row, PageSoFar(s, base, lines, frozen, i, false, nc));
      PageSoFarCursor(s, base, lines, frozen, nc);
    }
  }

  lemma PageSoFarStarts(s: Screen, base: Page, lines: seq<seq<Cell>>, frozen: nat, nc: nat)
    requires s.Valid() && nc >= 2 && LinesOk(lines)
    ensures PageSoFar(s, base, lines, frozen, 0, false, nc) == base
  {
    LaidNone(lines[0..0], nc);
    ThenNothing(base);
  }

  lemma CursorRows(s: Screen, nc: nat)
    requires s.Valid() && nc >= 2
    ensures |CursorPage(s, nc).rows| == LastRowOf(s.flags, s.curRow) + 1 - FirstRow(s.flags, s.curRow)
  {
  }
}
