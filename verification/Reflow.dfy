/** What a resize of the primary screen makes of its text (reflow of _lib/vt.c). */
module Reflow {
  import opened Cells
  import opened Lines
  import opened Scrollback
  import opened Utf8
  import opened Vt
  import Width

  /* ---- text of the history as cells ---- */

  /** How many bytes a character has, by its first. */
  function LeadLength(b0: Byte): (n: nat)
    ensures 1 <= n <= 4
  {
    if b0 < 0x80 then 1 else if b0 < 0xE0 then 2 else if b0 < 0xF0 then 3 else 4
  }

  function LeadBits(b0: Byte): nat {
    if b0 < 0x80 then b0 else if b0 < 0xE0 then b0 % 32 else if b0 < 0xF0 then b0 % 16 else b0 % 8
  }

  /** cp with the six bits each of the first n bytes of b added at its foot. */
  function AddBytes(cp: nat, b: seq<Byte>, n: nat): nat
    requires n <= |b|
  {
    if n == 0 then cp else AddBytes(cp, b, n - 1) * 64 + b[n - 1] % 64
  }

  /** How many bytes the first character takes; the end of the text may cut it short. */
  function CharLength(b: seq<Byte>): (n: nat)
    requires |b| > 0
    ensures 1 <= n <= |b|
  {
    Min(LeadLength(b[0]), |b|)
  }

  function FirstCode(b: seq<Byte>): nat
    requires |b| > 0
  {
    AddBytes(LeadBits(b[0]), b[1..], CharLength(b) - 1)
  }

  /** A character in the default colours, as put_char would have stored it. */
  function CharCells(cp: nat): (s: seq<Cell>)
    ensures |s| == Width.CpWidth(cp)
  {
    var w := Width.CpWidth(cp);
    if w == 0 then []
    else if w == 1 then [BLANK.(ch := cp)]
    else [BLANK.(ch := cp, wide := true), BLANK.(ch := 0, cont := true)]
  }

  /** The cells of a text. */
  function DecodeText(b: seq<Byte>): (s: seq<Cell>)
    decreases |b|
  {
    if |b| == 0 then [] else CharCells(FirstCode(b)) + DecodeText(b[CharLength(b)..])
  }

  lemma {:induction false} DecodedIsWellFormed(b: seq<Byte>)
    ensures Paired(DecodeText(b)) && NoPads(DecodeText(b))
    decreases |b|
  {
    if |b| > 0 {
      DecodedIsWellFormed(b[CharLength(b)..]);
      PairedAppend(CharCells(FirstCode(b)), DecodeText(b[CharLength(b)..]));
    }
  }

  /** Where the line that the last of the first i bytes is on starts: after the newline before it. */
  function Cut(text: seq<Byte>, i: nat): (c: nat)
    requires i <= |text|
    ensures c <= i && (c > 0 ==> text[c - 1] == NEWLINE)
    ensures forall j :: c <= j < i ==> text[j] != NEWLINE
  {
    if i > 0 && text[i - 1] != NEWLINE then Cut(text, i - 1) else i
  }

  predicate LineStart(text: seq<Byte>, p: nat) {
    p <= |text| && (p > 0 ==> text[p - 1] == NEWLINE)
  }

  /** How far back from p whole lines can be taken, if they may take `avail` rows. */
  ghost function PullFrom(text: seq<Byte>, p: nat, avail: int, nc: nat, cap: nat): (q: nat)
    requires LineStart(text, p) && nc >= 2
    ensures q <= p && LineStart(text, q)
    decreases p
  {
    if p == 0 then p
    else
      var q := Cut(text, p - 1);
      var cells := DecodedLine(text[q..p - 1]);
      if |cells| > cap || |Lay(cells, nc)| > avail then p
      else PullFrom(text, q, avail - |Lay(cells, nc)|, nc, cap)
  }

  function DecodedLine(b: seq<Byte>): (ln: seq<Cell>)
    ensures ln == DecodeText(b) && Chunked(ln) && Paired(ln) && NoPads(ln)
  {
    DecodedIsWellFormed(b);
    PairedIsChunked(DecodeText(b));
    DecodeText(b)
  }

  /** The lines of the text from byte p to byte e. */
  function HistoryLines(text: seq<Byte>, p: nat, e: nat): (lines: seq<seq<Cell>>)
    requires p <= e <= |text|
    ensures LinesOk(lines)
    decreases e - p
  {
    if p == e then []
    else
      var k := FindNewline(text[..e], p);
      [DecodedLine(text[p..k])] + HistoryLines(text, if k < e then k + 1 else e, e)
  }

  /* ---- the lines of the screen ---- */

  /** The first and the last row of the line that row r is on. */
  function FirstRow(flags: seq<bool>, r: nat): (f: nat)
    requires r <= |flags|
    ensures f <= r && (f > 0 ==> !flags[f - 1]) && forall i :: f <= i < r ==> flags[i]
  {
    if r > 0 && flags[r - 1] then FirstRow(flags, r - 1) else r
  }

  function LastRowOf(flags: seq<bool>, r: nat): (l: nat)
    requires r < |flags|
    ensures r <= l < |flags| && (l + 1 < |flags| ==> !flags[l]) && forall i :: r <= i < l ==> flags[i]
    decreases |flags| - r
  {
    if r + 1 < |flags| && flags[r] then LastRowOf(flags, r + 1) else r
  }

  /** One past the last row of the line that starts at row r, of the rows before `to`. */
  function LineEnd(flags: seq<bool>, r: nat, to: nat): (e: nat)
    requires r < to <= |flags|
    ensures r < e <= to && (e < to ==> !flags[e - 1]) && forall i :: r <= i < e - 1 ==> flags[i]
    decreases |flags| - r
  {
    if r + 1 < to && flags[r] then LineEnd(flags, r + 1, to) else r + 1
  }

  /** A line in the buffer that the lines of the screen are collected in, its blanks at the end not counted. */
  datatype Span = Span(start: nat, len: nat)

  /** The lines on rows from..to-1, the cells of which are collected from index `start` on. */
  ghost function Spans(cells: seq<Row>, flags: seq<bool>, from: nat, to: nat, start: nat): (spans: seq<Span>)
    requires from <= to <= |cells| == |flags|
    decreases |cells| - from
  {
    if from == to then []
    else
      var e := LineEnd(flags, from, to);
      var g := Gather(cells[from..e]);
      [Span(start, |Trim(g)|)] + Spans(cells, flags, e, to, start + |g|)
  }

  /** Without the empty lines at the end. */
  function DropEmpty(spans: seq<Span>): (r: seq<Span>)
    ensures |r| <= |spans| && r == spans[..|r|]
    ensures forall i :: |r| <= i < |spans| ==> spans[i].len == 0
    decreases |spans|
  {
    if |spans| > 0 && spans[|spans| - 1].len == 0 then DropEmpty(spans[..|spans| - 1]) else spans
  }

  ghost predicate SpansFit(buf: seq<Cell>, spans: seq<Span>) {
    forall i :: 0 <= i < |spans| ==> spans[i].start + spans[i].len < |buf|
  }

  function SpanLine(buf: seq<Cell>, sp: Span): (ln: seq<Cell>)
    requires sp.start + sp.len < |buf|
    ensures Chunked(ln)
  {
    Taken(buf[sp.start..], sp.len)
  }

  /** The cells of each line. */
  ghost function SpanLines(buf: seq<Cell>, spans: seq<Span>): (lines: seq<seq<Cell>>)
    requires SpansFit(buf, spans)
    ensures LinesOk(lines) && |lines| == |spans|
  {
    seq(|spans|, i requires 0 <= i < |spans| => SpanLine(buf, spans[i]))
  }

  /** Spans end where the cells gathered do. */
  lemma {:induction false} SpansInside(cells: seq<Row>, flags: seq<bool>, from: nat, to: nat, start: nat, i: nat)
    requires from <= to <= |cells| == |flags|
    requires i < |Spans(cells, flags, from, to, start)|
    ensures (var sp := Spans(cells, flags, from, to, start)[i];
             sp.start + sp.len <= start + |Gather(cells[from..to])|)
    decreases |cells| - from
  {
    if from < to {
      var e := LineEnd(flags, from, to);
      GatherAppend(cells[from..e], cells[e..to]);
      assert cells[from..e] + cells[e..to] == cells[from..to];
      if i > 0 { SpansInside(cells, flags, e, to, start + |Gather(cells[from..e])|, i - 1); }
    }
  }

  /* ---- the new rows ---- */

  ghost predicate LinesOk(lines: seq<seq<Cell>>) {
    forall i :: 0 <= i < |lines| ==> Chunked(lines[i])
  }

  /** Rows and their wrap flags. */
  datatype Page = Page(rows: seq<Row>, flags: seq<bool>) {
    predicate Valid(nc: nat) {
      |rows| == |flags| && forall r :: 0 <= r < |rows| ==> |rows[r]| == nc
    }
    function Then(p: Page): Page {
      Page(rows + p.rows, flags + p.flags)
    }
  }

  ghost function LaidLine(ln: seq<Cell>, nc: nat): (p: Page)
    requires nc >= 2 && Chunked(ln)
    ensures p.Valid(nc)
  {
    Page(Lay(ln, nc), LineFlags(|Lay(ln, nc)|))
  }

  ghost function Laid(lines: seq<seq<Cell>>, nc: nat): (p: Page)
    requires nc >= 2 && LinesOk(lines)
    ensures p.Valid(nc)
    decreases |lines|
  {
    if |lines| == 0 then Page([], [])
    else Laid(lines[..|lines| - 1], nc).Then(LaidLine(lines[|lines| - 1], nc))
  }

  /** A row of the cursor's line, cut or padded; a wide character cut in two is blanked. */
  function FitRow(row: Row, nc: nat, b: Cell): (r: Row)
    requires nc >= 1
    ensures |r| == nc
  {
    seq(nc, c requires 0 <= c < nc =>
      if c >= |row| then BLANK else if c == nc - 1 && row[c].wide then b else row[c])
  }

  function FitRows(rows: seq<Row>, nc: nat, b: Cell): (r: seq<Row>)
    requires nc >= 1
    ensures |r| == |rows| && forall i :: 0 <= i < |rows| ==> r[i] == FitRow(rows[i], nc, b)
  {
    seq(|rows|, i requires 0 <= i < |rows| => FitRow(rows[i], nc, b))
  }

  /* ---- the resized screen ---- */

  /** The grid cut or extended at its right and its foot. */
  function ResizedGrid(g: seq<Row>, nr: nat, nc: nat): (r: seq<Row>)
    ensures |r| == nr && forall i :: 0 <= i < nr ==> |r[i]| == nc
  {
    seq(nr, i requires 0 <= i < nr =>
      if i < |g| then seq(nc, c requires 0 <= c < nc => if c < |g[i]| then g[i][c] else BLANK) else Blanks(nc))
  }

  function ResizedFlags(f: seq<bool>, nr: nat): (r: seq<bool>)
    ensures |r| == nr
  {
    seq(nr, i requires 0 <= i < nr => i < |f| && f[i])
  }

  function ResizedHidden(h: Hidden, nr: nat, nc: nat): (r: Hidden)
    ensures r.Grid? == h.Grid? && (r.Grid? ==> GridOf(r.cells, r.flags, nr, nc))
  {
    match h
    case NoGrid => NoGrid
    case Grid(cells, flags) => Grid(ResizedGrid(cells, nr, nc), ResizedFlags(flags, nr))
  }

  /** The screen with its grid replaced: the hidden grid and the saved cursors are fitted to the new size, the region is
      all of it. */
  function WithGrid(s: Screen, cells: seq<Row>, flags: seq<bool>, nr: nat, nc: nat): (r: Screen)
    requires s.Valid() && nr >= 1 && nc >= 2 && GridOf(cells, flags, nr, nc)
    ensures r.Valid() && r.rows == nr && r.cols == nc && r.cells == cells && r.flags == flags
  {
    hide ResizedHidden;
    s.(rows := nr, cols := nc, hidden := ResizedHidden(s.hidden, nr, nc),
       savedRow := Min(s.savedRow, nr - 1), savedCol := Min(s.savedCol, nc - 1),
       altRow := Min(s.altRow, nr - 1), altCol := Min(s.altCol, nc - 1),
       cells := cells, flags := flags, top := 0, bottom := nr - 1,
       curRow := Min(s.curRow, nr - 1), curCol := Min(s.curCol, nc - 1), pendingWrap := false)
  }

  /** How many rows go to the history: those that do not fit, but never the cursor's. */
  function Over(total: nat, nr: nat, curAbs: nat): (n: nat)
    ensures n <= curAbs && n <= total
  {
    Min(if total > nr then total - nr else 0, curAbs)
  }

  /** Rows page.rows on the screen, the cursor in row curAbs of them; `text` is what the history keeps. */
  function Settle(s: Screen, page: Page, curAbs: nat, text: seq<Byte>, nr: nat, nc: nat): (r: Screen)
    requires s.Valid() && nr >= 1 && nc >= 2 && page.Valid(nc) && curAbs < |page.rows|
    ensures r.Valid() && r.rows == nr && r.cols == nc
  {
    hide WithGrid;
    var total := |page.rows|;
    var over := Over(total, nr, curAbs);
    var keep := Min(total - over, nr);
    WithGrid(s, page.rows[over..over + keep] + BlankGrid(nr - keep, nc, BLANK),
             page.flags[over..over + keep] + NoFlags(nr - keep), nr, nc).(
      history := CaptureRows(History(text), page.rows[..over], page.flags[..over]),
      curRow := Min(curAbs - over, nr - 1),
      curCol := Min(if s.pendingWrap then s.curCol + 1 else s.curCol, nc - 1))
  }

  /** The lines of the screen that are laid out anew: above the cursor's, and below it. */
  ghost function LinesAbove(s: Screen, junk: Cell): (lines: seq<seq<Cell>>)
    requires s.Valid()
    ensures LinesOk(lines)
  {
    var f := FirstRow(s.flags, s.curRow);
    AboveFits(s, junk);
    SpanLines(LineBuffer(s, junk), Spans(s.cells, s.flags, 0, f, 0))
  }

  ghost function LinesBelow(s: Screen, junk: Cell): (lines: seq<seq<Cell>>)
    requires s.Valid()
    ensures LinesOk(lines)
  {
    BelowFits(s, junk);
    SpanLines(LineBuffer(s, junk), DropEmpty(SpansBelow(s)))
  }

  /** The buffer the lines are collected in; what follows them there was never written. */
  ghost function LineBuffer(s: Screen, junk: Cell): seq<Cell>
    requires s.Valid()
  {
    Gather(s.cells[..FirstRow(s.flags, s.curRow)]) + Gather(s.cells[LastRowOf(s.flags, s.curRow) + 1..]) + [junk]
  }

  ghost function SpansBelow(s: Screen): seq<Span>
    requires s.Valid()
  {
    Spans(s.cells, s.flags, LastRowOf(s.flags, s.curRow) + 1, s.rows, |Gather(s.cells[..FirstRow(s.flags, s.curRow)])|)
  }

  lemma AboveFits(s: Screen, junk: Cell)
    requires s.Valid()
    ensures SpansFit(LineBuffer(s, junk), Spans(s.cells, s.flags, 0, FirstRow(s.flags, s.curRow), 0))
  {
    hide Spans, Gather;
    var f := FirstRow(s.flags, s.curRow);
    assert s.cells[0..f] == s.cells[..f];
    forall i | 0 <= i < |Spans(s.cells, s.flags, 0, f, 0)|
      ensures var sp := Spans(s.cells, s.flags, 0, f, 0)[i]; sp.start + sp.len < |LineBuffer(s, junk)|
    {
      SpansInside(s.cells, s.flags, 0, f, 0, i);
    }
  }

  lemma BelowFits(s: Screen, junk: Cell)
    requires s.Valid()
    ensures SpansFit(LineBuffer(s, junk), SpansBelow(s))
    ensures SpansFit(LineBuffer(s, junk), DropEmpty(SpansBelow(s)))
  {
    hide Spans, Gather, DropEmpty;
    var f, l := FirstRow(s.flags, s.curRow), LastRowOf(s.flags, s.curRow);
    assert s.cells[l + 1..s.rows] == s.cells[l + 1..];
    forall i | 0 <= i < |SpansBelow(s)|
      ensures var sp := SpansBelow(s)[i]; sp.start + sp.len < |LineBuffer(s, junk)|
    {
      SpansInside(s.cells, s.flags, l + 1, s.rows, |Gather(s.cells[..f])|, i);
    }
  }

  ghost function CursorPage(s: Screen, nc: nat): (p: Page)
    requires s.Valid() && nc >= 2
    ensures p.Valid(nc)
  {
    var f, l := FirstRow(s.flags, s.curRow), LastRowOf(s.flags, s.curRow);
    Page(FitRows(s.cells[f..l + 1], nc, BlankCell(s.pen)), s.flags[f..l + 1])
  }

  /** The rows of the screen at the new width. */
  ghost function ScreenPage(s: Screen, nc: nat, junk: Cell): (p: Page)
    requires s.Valid() && nc >= 2
    ensures p.Valid(nc)
  {
    Laid(LinesAbove(s, junk), nc).Then(CursorPage(s, nc)).Then(Laid(LinesBelow(s, junk), nc))
  }

  /** From where the history's text is taken back: a taller screen has room, unless a line of the history goes on in row
      0. */
  ghost function PullPoint(s: Screen, nr: nat, nc: nat, junk: Cell): (pull: nat)
    requires s.Valid() && s.history.History? && nc >= 2
    ensures LineStart(s.history.text, pull)
    ensures pull <= Cut(s.history.text, |s.history.text|)
  {
    var text := s.history.text;
    var cut := Cut(text, |text|);
    if nr > s.rows && cut == |text| then PullFrom(text, cut, nr - |ScreenPage(s, nc, junk).rows|, nc, nr * nc + 2)
    else cut
  }

  ghost function PulledPage(s: Screen, nr: nat, nc: nat, junk: Cell): (p: Page)
    requires s.Valid() && s.history.History? && nc >= 2
    ensures p.Valid(nc)
  {
    Laid(HistoryLines(s.history.text, PullPoint(s, nr, nc, junk), Cut(s.history.text, |s.history.text|)), nc)
  }

  /** The row the cursor is on, of all the rows laid out. */
  ghost function CursorAt(s: Screen, nr: nat, nc: nat, junk: Cell): nat
    requires s.Valid() && s.history.History? && nc >= 2
  {
    |PulledPage(s, nr, nc, junk).rows| + |Laid(LinesAbove(s, junk), nc).rows| + s.curRow - FirstRow(s.flags, s.curRow)
  }

  ghost function WholePage(s: Screen, nr: nat, nc: nat, junk: Cell): (p: Page)
    requires s.Valid() && s.history.History? && nc >= 2
    ensures p.Valid(nc) && CursorAt(s, nr, nc, junk) < |p.rows|
  {
    PulledPage(s, nr, nc, junk).Then(ScreenPage(s, nc, junk))
  }

  ghost function HistoryLeft(s: Screen, nr: nat, nc: nat, junk: Cell): seq<Byte>
    requires s.Valid() && s.history.History? && nc >= 2
  {
    var text, pull := s.history.text, PullPoint(s, nr, nc, junk);
    if pull < Cut(text, |text|) then text[..pull] else text
  }

  ghost function Reflowed(s: Screen, nr: nat, nc: nat, junk: Cell): (r: Screen)
    requires s.Valid() && s.history.History? && nr >= 1 && nc >= 2
    ensures r.Valid()
  {
    Settle(s, WholePage(s, nr, nc, junk), CursorAt(s, nr, nc, junk), HistoryLeft(s, nr, nc, junk), nr, nc)
  }
}
