/** Reflow conserves text: history and screen, read as one text, are the same before and after (_lib/vt.c). */
module ReflowText {
  import opened Cells
  import opened Lines
  import opened Scrollback
  import opened Utf8
  import opened Vt
  import opened Reflow
  import opened ReflowSteps
  import opened Transcript
  import Width

  /* ---- one line on several rows ---- */

  lemma {:induction false} TextUnpadded(row: Row)
    ensures Text(Unpadded(row)) == Text(row)
    decreases |row|
  {
    hide Text, Unpadded, CellText;
    if |row| == 0 {
      assert Unpadded(row) == row by { UnpaddedNone(row); }
    } else {
      var n, c := |row| - 1, row[|row| - 1];
      TextUnpadded(row[..n]);
      UnpaddedLast(row);
      TextAppend(Unpadded(row[..n]), if c.pad then [] else [c]);
      TextAppend(row[..n], [c]);
      assert row[..n] + [c] == row;
      TextOne(c);
      if c.pad { CellTextLength(c); }
      assert Text(row[..n]) + [] == Text(row[..n]);
    }
  }

  lemma UnpaddedLast(row: Row)
    requires |row| > 0
    ensures var n := |row| - 1; Unpadded(row) == Unpadded(row[..n]) + (if row[n].pad then [] else [row[n]])
  {
  }

  lemma TextOne(c: Cell)
    ensures Text([c]) == CellText(c) && Text([]) == []
  {
    assert [c][1..] == [];
    assert CellText(c) + [] == CellText(c);
  }

  /** Rows that all wrap. */
  lemma {:induction false} WrappedRows(rows: seq<Row>, flags: seq<bool>)
    requires |rows| == |flags| && forall i :: 0 <= i < |rows| ==> flags[i]
    ensures WholeTexts(rows, flags) == Text(Gather(rows))
    decreases |rows|
  {
    hide Unpadded, Strip, Text, Gather, WholeTexts;
    if |rows| == 0 {
      NoTexts();
      TextOne(BLANK);
      assert rows == [] && flags == [] && Gather([]) == [] by { GatherNone(); }
    } else {
      var n := |rows| - 1;
      WrappedRows(rows[..n], flags[..n]);
      WholeTextsSnoc(rows, flags);
      assert rows == rows[..n] + [rows[n]];
      GatherAppend(rows[..n], [rows[n]]);
      GatherOne(rows[n]);
      TextAppend(Gather(rows[..n]), Unpadded(rows[n]));
      TextUnpadded(rows[n]);
    }
  }

  lemma GatherNone()
    ensures Gather([]) == []
  {
  }

  function Close(open: bool): seq<Byte> {
    if open then [NEWLINE] else []
  }

  /** The rows of a line, and the text of the line. */
  lemma LineBytes(rows: seq<Row>, flags: seq<bool>)
    requires 0 < |rows| == |flags| && forall i :: 0 <= i < |rows| - 1 ==> flags[i]
    ensures SameText(WholeTexts(rows, flags) + Close(flags[|rows| - 1]), Text(Gather(rows)) + [NEWLINE])
  {
    hide Norm, Strip, Unpadded, Gather, Text, WholeTexts, Spaces;
    var n := |rows| - 1;
    WrappedRows(rows[..n], flags[..n]);
    var x, y := Text(Gather(rows[..n])), Text(rows[n]);
    assert rows == rows[..n] + [rows[n]];
    GatherAppend(rows[..n], [rows[n]]);
    GatherOne(rows[n]);
    TextAppend(Gather(rows[..n]), Unpadded(rows[n]));
    TextUnpadded(rows[n]);
    WholeTextsSnoc(rows, flags);
    LastRowText(x, y, flags[n]);
  }

  lemma LastRowText(x: seq<Byte>, y: seq<Byte>, wrapped: bool)
    ensures SameText(x + (if wrapped then y else Strip(y) + [NEWLINE]) + Close(wrapped), x + y + [NEWLINE])
  {
    hide Norm, Strip;
    if !wrapped {
      var n := |y| - |Strip(y)|;
      StripSplits(y);
      SpacesBeforeNewline(x + Strip(y), n);
      assert x + Strip(y) + Spaces(n) == x + y;
      assert x + (Strip(y) + [NEWLINE]) + [] == x + Strip(y) + [NEWLINE];
    }
  }

  /* ---- lines ---- */

  function LinesText(lines: seq<seq<Cell>>): seq<Byte>
    decreases |lines|
  {
    if |lines| == 0 then [] else Text(lines[0]) + [NEWLINE] + LinesText(lines[1..])
  }

  lemma {:induction false} LinesTextAppend(a: seq<seq<Cell>>, b: seq<seq<Cell>>)
    ensures LinesText(a + b) == LinesText(a) + LinesText(b)
    decreases |a|
  {
    if |a| == 0 {
      assert a + b == b;
    } else {
      assert (a + b)[1..] == a[1..] + b;
      LinesTextAppend(a[1..], b);
    }
  }

  lemma BlanksText(n: nat)
    ensures Text(Blanks(n)) == Spaces(n)
    decreases n
  {
    if n > 0 {
      assert Blanks(n)[1..] == Blanks(n - 1);
      BlanksText(n - 1);
      assert CellText(BLANK) == Spaces(1);
      assert Spaces(1) + Spaces(n - 1) == Spaces(n);
    }
  }

  /** The text of the rows a line is laid out in: that of the line, and of blanks after it. */
  lemma {:induction false} LaidRowsText(ln: seq<Cell>, nc: nat, cur: seq<Cell>) returns (k: nat)
    requires nc >= 2 && |cur| <= nc && Chunked(ln)
    ensures Text(Gather(LayFrom(ln, nc, cur))) == Text(cur) + Text(ln) + Spaces(k)
    decreases |ln|, |cur|
  {
    hide LayFrom, Unpadded, Gather, Chunked, Text;
    if |ln| == 0 {
      k := nc - |cur|;
      LayDone(ln, nc, cur);
      GatherOne(LastRow(cur, nc));
      TextUnpadded(LastRow(cur, nc));
      TextAppend(cur, Blanks(k));
      BlanksText(k);
      TextOne(BLANK);
      assert Text(cur) + [] == Text(cur);
    } else {
      var w := CellCols(ln[0]);
      if |cur| + w > nc {
        LayWrap(ln, nc, cur);
        var rest := LayFrom(ln, nc, []);
        k := LaidRowsText(ln, nc, []);
        GatherCons(Margin(cur, nc), rest);
        MarginText(cur, nc);
        TextAppend(Unpadded(Margin(cur, nc)), Gather(rest));
        TextOne(BLANK);
        assert [] + Text(ln) == Text(ln);
        assert Text(cur) + (Text(ln) + Spaces(k)) == Text(cur) + Text(ln) + Spaces(k);
      } else {
        LayPut(ln, nc, cur);
        k := LaidRowsText(ln[w..], nc, cur + ln[..w]);
        TextAppend(cur, ln[..w]);
        TextAppend(ln[..w], ln[w..]);
        assert ln[..w] + ln[w..] == ln;
        assert Text(cur) + Text(ln[..w]) + Text(ln[w..]) == Text(cur) + (Text(ln[..w]) + Text(ln[w..]));
      }
    }
  }

  lemma MarginText(cur: seq<Cell>, nc: nat)
    requires |cur| <= nc
    ensures Text(Unpadded(Margin(cur, nc))) == Text(cur)
  {
    hide Text, Unpadded;
    TextUnpadded(Margin(cur, nc));
    TextAppend(cur, Pads(nc - |cur|));
    PadsText(nc - |cur|);
    assert Text(cur) + [] == Text(cur);
  }

  lemma {:induction false} PadsText(n: nat)
    ensures Text(Pads(n)) == []
    decreases n
  {
    if n > 0 {
      assert Pads(n)[1..] == Pads(n - 1);
      PadsText(n - 1);
    }
  }

  /** A line laid out. */
  lemma LaidLineText(ln: seq<Cell>, nc: nat)
    requires nc >= 2 && Chunked(ln)
    ensures var p := LaidLine(ln, nc); SameText(WholeTexts(p.rows, p.flags), Text(ln) + [NEWLINE])
  {
    hide Norm, WholeTexts, Text, Gather;
    hide LayFrom;
    var p := LaidLine(ln, nc);
    LineBytes(p.rows, p.flags);
    assert WholeTexts(p.rows, p.flags) + [] == WholeTexts(p.rows, p.flags);
    var k := LaidRowsText(ln, nc, []);
    TextOne(BLANK);
    assert [] + Text(ln) == Text(ln);
    SpacesBeforeNewline(Text(ln), k);
  }

  lemma {:induction false} LaidText(lines: seq<seq<Cell>>, nc: nat)
    requires nc >= 2 && LinesOk(lines)
    ensures var p := Laid(lines, nc); SameText(WholeTexts(p.rows, p.flags), LinesText(lines))
    decreases |lines|
  {
    hide Norm, WholeTexts, Laid, LaidLine, Chunked;
    if |lines| == 0 {
      LaidNone(lines, nc);
      assert WholeTexts([], []) == [] by { NoRows(); }
    } else {
      var rest := lines[1..];
      assert lines == [lines[0]] + rest;
      LaidAppend([lines[0]], rest, nc);
      LaidOne(lines[0], nc);
      LaidText(rest, nc);
      LaidLineText(lines[0], nc);
      var p, q := LaidLine(lines[0], nc), Laid(rest, nc);
      WholeTextsAppend(p.rows, p.flags, q.rows, q.flags);
      SameTextJoin(WholeTexts(p.rows, p.flags), Text(lines[0]) + [NEWLINE], WholeTexts(q.rows, q.flags),
                   LinesText(rest));
    }
  }

  lemma NoRows()
    ensures WholeTexts([], []) == []
  {
  }

  /* ---- the lines of the screen ---- */

  lemma {:induction false} UnpaddedNoPads(row: Row)
    ensures NoPads(Unpadded(row))
    decreases |row|
  {
    if |row| > 0 { UnpaddedNoPads(row[..|row| - 1]); }
  }

  lemma {:induction false} GatherNoPads(rows: seq<Row>)
    ensures NoPads(Gather(rows))
    decreases |rows|
  {
    hide Unpadded;
    if |rows| > 0 {
      UnpaddedNoPads(rows[0]);
      GatherNoPads(rows[1..]);
    }
  }

  lemma {:induction false} LineBlanksText(cells: seq<Cell>)
    requires NoPads(cells) && forall c :: 0 <= c < |cells| ==> LineBlank(cells[c])
    ensures Text(cells) == Spaces(|cells|)
    decreases |cells|
  {
    if |cells| > 0 {
      LineBlanksText(cells[1..]);
      assert CellText(cells[0]) == Spaces(1);
      assert Spaces(1) + Spaces(|cells| - 1) == Spaces(|cells|);
    }
  }

  lemma TrimText(cells: seq<Cell>)
    requires NoPads(cells)
    ensures SameText(Text(cells) + [NEWLINE], Text(Trim(cells)) + [NEWLINE])
  {
    hide Norm, Text, Trim;
    var t := Trim(cells);
    var rest := cells[|t|..];
    assert cells == t + rest;
    LineBlanksText(rest);
    TextAppend(t, rest);
    SpacesBeforeNewline(Text(t), |rest|);
  }

  /** The cells of a line in the buffer. */
  function LineCells(buf: seq<Cell>, sp: Span): (ln: seq<Cell>)
    requires sp.start + sp.len < |buf|
    ensures |ln| == sp.len
  {
    buf[sp.start..sp.start + sp.len]
  }

  ghost function CellLines(buf: seq<Cell>, spans: seq<Span>): (lines: seq<seq<Cell>>)
    requires SpansFit(buf, spans)
    ensures |lines| == |spans|
  {
    seq(|spans|, i requires 0 <= i < |spans| => LineCells(buf, spans[i]))
  }

  /** A line in the buffer is what was gathered from its rows, its blanks at the end left out. */
  lemma SpanIsLine(buf: seq<Cell>, start: nat, g: seq<Cell>)
    requires start + |g| < |buf| && buf[start..start + |g|] == g
    ensures LineCells(buf, Span(start, |Trim(g)|)) == Trim(g)
  {
    hide Trim;
    assert buf[start..start + |Trim(g)|] == g[..|Trim(g)|];
  }

  /** The open line at the end of some rows, if there is one. */
  function OpenEnd(flags: seq<bool>, from: nat, to: nat): bool
    requires from <= to <= |flags|
  {
    from < to && flags[to - 1]
  }

  /** Rows from..to-1, and the lines that were collected from them: the same text. */
  lemma {:induction false} ScreenText(cells: seq<Row>, flags: seq<bool>, from: nat, to: nat, start: nat, buf: seq<Cell>)
    requires from <= to <= |cells| == |flags|
    requires start + |Gather(cells[from..to])| < |buf|
             && buf[start..start + |Gather(cells[from..to])|] == Gather(cells[from..to])
    requires SpansFit(buf, Spans(cells, flags, from, to, start))
    ensures SameText(WholeTexts(cells[from..to], flags[from..to]) + Close(OpenEnd(flags, from, to)),
                     LinesText(CellLines(buf, Spans(cells, flags, from, to, start))))
    decreases |cells| - from
  {
    hide Norm, WholeTexts, Gather, Spans, LineCells, NoPads, Trim, Text, LineEnd;
    if from == to {
      SpansEnd(cells, flags, from, start);
      assert cells[from..to] == [] && flags[from..to] == [];
      NoRows();
    } else {
      var e := LineEnd(flags, from, to);
      var g, rest := Gather(cells[from..e]), Gather(cells[e..to]);
      SpansStep(cells, flags, from, to, start);
      GatherJoin(cells, from, e, to);
      var next := start + |g|;
      BufferSplit(buf, start, g, rest);
      var head, spans := Span(start, |Trim(g)|), Spans(cells, flags, e, to, next);
      SpansFitTail(buf, head, spans);
      ScreenText(cells, flags, e, to, next, buf);
      GatherNoPads(cells[from..e]);
      SpanIsLine(buf, start, g);
      LinesSplit(buf, head, spans);
      LineRows(cells, flags, from, e, to);
      TrimText(g);
      var a, fa, b, fb := cells[from..e], flags[from..e], cells[e..to], flags[e..to];
      assert cells[from..to] == a + b && flags[from..to] == fa + fb;
      WholeTextsAppend(a, fa, b, fb);
      if e == to { NoRows(); assert b == [] && fb == []; }
      OpenSplit(flags, from, e, to, WholeTexts(a, fa), WholeTexts(b, fb));
      SameTextJoin(WholeTexts(a, fa) + Close(OpenEnd(flags, from, e)), Text(Trim(g)) + [NEWLINE],
                   WholeTexts(b, fb) + Close(OpenEnd(flags, e, to)), LinesText(CellLines(buf, spans)));
    }
  }

  lemma BufferSplit(buf: seq<Cell>, start: nat, g: seq<Cell>, rest: seq<Cell>)
    requires start + |g + rest| <= |buf| && buf[start..start + |g + rest|] == g + rest
    ensures buf[start..start + |g|] == g && buf[start + |g|..start + |g| + |rest|] == rest
  {
    var all := buf[start..start + |g + rest|];
    assert all[..|g|] == g && all[|g|..] == rest;
  }

  lemma SpansFitTail(buf: seq<Cell>, head: Span, spans: seq<Span>)
    requires SpansFit(buf, [head] + spans)
    ensures SpansFit(buf, spans)
  {
    forall i | 0 <= i < |spans| ensures spans[i].start + spans[i].len < |buf| {
      assert ([head] + spans)[i + 1] == spans[i];
    }
  }

  lemma LinesSplit(buf: seq<Cell>, head: Span, spans: seq<Span>)
    requires SpansFit(buf, [head] + spans) && SpansFit(buf, spans) && head.start + head.len < |buf|
    ensures LinesText(CellLines(buf, [head] + spans))
            == Text(LineCells(buf, head)) + [NEWLINE] + LinesText(CellLines(buf, spans))
  {
    hide LineCells, Text;
    var lines := CellLines(buf, [head] + spans);
    assert lines[1..] == CellLines(buf, spans);
  }

  lemma LineRows(cells: seq<Row>, flags: seq<bool>, from: nat, e: nat, to: nat)
    requires from < to <= |cells| == |flags| && e == LineEnd(flags, from, to)
    ensures SameText(WholeTexts(cells[from..e], flags[from..e]) + Close(OpenEnd(flags, from, e)),
                     Text(Gather(cells[from..e])) + [NEWLINE])
  {
    hide Norm, WholeTexts, Text, Gather;
    LineBytes(cells[from..e], flags[from..e]);
  }

  lemma OpenSplit(flags: seq<bool>, from: nat, e: nat, to: nat, a: seq<Byte>, b: seq<Byte>)
    requires from < to <= |flags| && e == LineEnd(flags, from, to)
    ensures e < to ==> Close(OpenEnd(flags, from, e)) == []
    ensures e == to ==> Close(OpenEnd(flags, e, to)) == []
    ensures e < to ==> OpenEnd(flags, e, to) == OpenEnd(flags, from, to)
    ensures (e == to ==> b == []) ==>
              (a + Close(OpenEnd(flags, from, e))) + (b + Close(OpenEnd(flags, e, to)))
                == a + b + Close(OpenEnd(flags, from, to))
  {
    hide LineEnd;
    if e < to { assert a + [] == a; }
  }
}
