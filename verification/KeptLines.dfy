/** When lay_line copies a cell that is not the line's, and what that does to the text (_lib/vt.c). */
module KeptLines {
  import opened Cells
  import opened Lines
  import opened Scrollback
  import opened Utf8
  import opened Vt
  import opened Reflow
  import opened Transcript
  import opened ReflowText

  /** The line ends in an odd number of first halves, so that lay_line copies the cell after it as well. */
  predicate Overreads(buf: seq<Cell>, sp: Span)
    requires sp.start + sp.len < |buf|
  {
    WideRun(LineCells(buf, sp)) % 2 == 1
  }

  predicate ShowsNothing(c: Cell) {
    c.cont || c.pad || Glyph(c) == SPACE
  }

  /** lay_line copies the line's own cells only, or one more that shows nothing. */
  predicate Keeps(buf: seq<Cell>, sp: Span)
    requires sp.start + sp.len < |buf|
  {
    !Overreads(buf, sp) || ShowsNothing(buf[sp.start + sp.len])
  }

  ghost predicate AllKeep(buf: seq<Cell>, spans: seq<Span>)
    requires SpansFit(buf, spans)
  {
    forall i :: 0 <= i < |spans| ==> Keeps(buf, spans[i])
  }

  /** No cell holds a newline; only an overlong UTF-8 form can leave one. */
  ghost predicate NoNewlines(cells: seq<Cell>) {
    forall i :: 0 <= i < |cells| ==> cells[i].ch != NEWLINE
  }

  /* ---- one line ---- */

  /** What lay_line copies for a line. */
  lemma SpanLineIs(buf: seq<Cell>, sp: Span)
    requires sp.start + sp.len < |buf|
    ensures SpanLine(buf, sp) == LineCells(buf, sp) + (if Overreads(buf, sp) then [buf[sp.start + sp.len]] else [])
  {
    hide WideRun, Extent, Chunked;
    var ln, rest := LineCells(buf, sp), buf[sp.start + sp.len..];
    assert buf[sp.start..] == ln + rest;
    ReadsPastIff(ln, rest);
    assert (ln + rest)[..sp.len] == ln;
    assert (ln + rest)[..sp.len + 1] == ln + [rest[0]];
  }

  lemma ShownOrNot(c: Cell)
    ensures ShowsNothing(c) ==> CellText(c) == [] || CellText(c) == Spaces(1)
    ensures !ShowsNothing(c) && c.ch != NEWLINE ==> Weight(CellText(c)) > 0
  {
    if !ShowsNothing(c) && c.ch != NEWLINE {
      EncodedEnd(Glyph(c));
      EncodedNewline(Glyph(c));
      var e := Encode(Glyph(c));
      WeightSnoc(e[..|e| - 1], e[|e| - 1]);
      assert e[..|e| - 1] + [e[|e| - 1]] == e;
    }
  }

  lemma EncodedNewline(cp: nat)
    ensures var e := Encode(cp); e[|e| - 1] == NEWLINE <==> cp == NEWLINE
  {
  }

  lemma LineKept(buf: seq<Cell>, sp: Span)
    requires sp.start + sp.len < |buf|
    ensures var a, b := Text(SpanLine(buf, sp)), Text(LineCells(buf, sp));
      && (Keeps(buf, sp) ==> SameText(a + [NEWLINE], b + [NEWLINE]))
      && Weight(a) >= Weight(b)
      && (!Keeps(buf, sp) && buf[sp.start + sp.len].ch != NEWLINE ==> Weight(a) > Weight(b))
  {
    hide Text, LineCells, SpanLine, Weight, CellText, Norm, WideRun;
    var ln, c := LineCells(buf, sp), buf[sp.start + sp.len];
    SpanLineIs(buf, sp);
    TextAppend(ln, [c]);
    TextOne(c);
    ShownOrNot(c);
    WeightAppend(Text(ln), CellText(c));
    SpacesBeforeNewline(Text(ln), 1);
    assert Text(ln) + [] == Text(ln) && ln + [] == ln;
  }

  /* ---- several lines ---- */

  /** Lines that are the same one by one are the same text. */
  lemma {:induction false} LinesSame(a: seq<seq<Cell>>, b: seq<seq<Cell>>)
    requires |a| == |b| && forall i :: 0 <= i < |a| ==> SameText(Text(a[i]) + [NEWLINE], Text(b[i]) + [NEWLINE])
    ensures SameText(LinesText(a), LinesText(b))
    decreases |a|
  {
    hide Norm, Text;
    if |a| > 0 {
      LinesSame(a[1..], b[1..]);
      SameTextJoin(Text(a[0]) + [NEWLINE], Text(b[0]) + [NEWLINE], LinesText(a[1..]), LinesText(b[1..]));
    }
  }

  lemma LineWeight(ln: seq<Cell>, rest: seq<Byte>)
    ensures Weight(Text(ln) + [NEWLINE] + rest) == Weight(Text(ln)) + Weight(rest)
  {
    hide Text;
    WeightSnoc(Text(ln), NEWLINE);
    WeightAppend(Text(ln) + [NEWLINE], rest);
  }

  /** Lines that hold at least as much one by one; and one of them more, if there is such a one. */
  lemma {:induction false} LinesWeight(a: seq<seq<Cell>>, b: seq<seq<Cell>>)
    requires |a| == |b| && forall i :: 0 <= i < |a| ==> Weight(Text(a[i])) >= Weight(Text(b[i]))
    ensures Weight(LinesText(a)) >= Weight(LinesText(b))
    ensures (exists i :: 0 <= i < |a| && Weight(Text(a[i])) > Weight(Text(b[i])))
            ==> Weight(LinesText(a)) > Weight(LinesText(b))
    decreases |a|
  {
    hide Weight, Text;
    if |a| > 0 {
      LinesWeight(a[1..], b[1..]);
      LineWeight(a[0], LinesText(a[1..]));
      LineWeight(b[0], LinesText(b[1..]));
      if i :| 1 <= i < |a| && Weight(Text(a[i])) > Weight(Text(b[i])) {
        assert a[1..][i - 1] == a[i] && b[1..][i - 1] == b[i];
      }
    }
  }

  /** The lines laid out hold the text of the lines collected, or more than that. */
  lemma LinesKept(buf: seq<Cell>, spans: seq<Span>)
    requires SpansFit(buf, spans)
    ensures var a, b := LinesText(SpanLines(buf, spans)), LinesText(CellLines(buf, spans));
      && (AllKeep(buf, spans) ==> SameText(a, b))
      && Weight(a) >= Weight(b)
      && (!AllKeep(buf, spans) && NoNewlines(buf) ==> Weight(a) > Weight(b))
  {
    hide Text, LineCells, SpanLine, Weight, Norm, LinesText, Keeps;
    var ls, ts := SpanLines(buf, spans), CellLines(buf, spans);
    forall i | 0 <= i < |spans|
      ensures Weight(Text(ls[i])) >= Weight(Text(ts[i]))
      ensures Keeps(buf, spans[i]) ==> SameText(Text(ls[i]) + [NEWLINE], Text(ts[i]) + [NEWLINE])
      ensures !Keeps(buf, spans[i]) && NoNewlines(buf) ==> Weight(Text(ls[i])) > Weight(Text(ts[i]))
    {
      LineKept(buf, spans[i]);
    }
    LinesWeight(ls, ts);
    if AllKeep(buf, spans) { LinesSame(ls, ts); }
  }
}
