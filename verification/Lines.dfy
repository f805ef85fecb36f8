/** Logical lines: laying one out over rows, and gathering it up again (lay_line and reflow of _lib/vt.c). */
module Lines {
  import opened Cells

  function CellCols(c: Cell): nat { if c.wide then 2 else 1 }

  ghost predicate NoPads(cells: seq<Cell>) {
    forall c :: 0 <= c < |cells| ==> !cells[c].pad
  }

  /** Cells that fall into characters: read from the left, the last character ends where the cells do. */
  ghost predicate Chunked(cells: seq<Cell>)
    decreases |cells|
  {
    |cells| == 0 || (CellCols(cells[0]) <= |cells| && Chunked(cells[CellCols(cells[0])..]))
  }

  lemma {:induction false} PairedIsChunked(cells: seq<Cell>)
    requires Paired(cells)
    ensures Chunked(cells)
    decreases |cells|
  {
    if |cells| > 0 {
      PairedTail(cells);
      PairedIsChunked(cells[CellCols(cells[0])..]);
    }
  }

  /** Where the last of the characters that start in the first n cells ends: at n, or at n + 1 if a wide one has lost
      its second half. */
  function Extent(b: seq<Cell>, n: nat): (e: nat)
    requires n <= |b|
    ensures n <= e <= n + 1
    ensures e > |b| ==> e == n + 1 && n == |b|
    decreases n
  {
    if n == 0 then 0
    else
      var w := CellCols(b[0]);
      if w > n then w else w + Extent(b[w..], n - w)
  }

  lemma {:induction false} ExtentChunked(b: seq<Cell>, n: nat)
    requires n <= |b| && Extent(b, n) <= |b|
    ensures Chunked(b[..Extent(b, n)])
    decreases n
  {
    if n > 0 {
      var w := CellCols(b[0]);
      var e := Extent(b, n);
      if w > n {
        assert b[..e][w..] == [];
      } else {
        ExtentChunked(b[w..], n - w);
        assert b[..e][w..] == b[w..][..e - w];
      }
    }
  }

  /** The characters that start in the first n cells of b. */
  function Taken(b: seq<Cell>, n: nat): (ln: seq<Cell>)
    requires n <= |b| && Extent(b, n) <= |b|
    ensures Chunked(ln) && n <= |ln| <= n + 1
  {
    ExtentChunked(b, n);
    b[..Extent(b, n)]
  }

  /** How many first halves of wide characters the cells end with. */
  function WideRun(cells: seq<Cell>): (n: nat)
    ensures n <= |cells|
    decreases |cells|
  {
    if |cells| > 0 && cells[|cells| - 1].wide then 1 + WideRun(cells[..|cells| - 1]) else 0
  }

  lemma {:induction false} WideRunFrom(cells: seq<Cell>, k: nat)
    requires k <= |cells|
    ensures WideRun(cells) == if WideRun(cells[k..]) < |cells| - k then WideRun(cells[k..])
            else |cells| - k + WideRun(cells[..k])
    decreases |cells|
  {
    if k < |cells| {
      var m := |cells| - 1;
      assert cells[k..][..m - k] == cells[..m][k..];
      WideRunFrom(cells[..m], k);
      assert cells[..m][..k] == cells[..k];
    } else {
      assert cells[..k] == cells;
    }
  }

  lemma WideRunSnoc(cells: seq<Cell>, c: Cell)
    ensures WideRun(cells + [c]) == if c.wide then 1 + WideRun(cells) else 0
  {
    assert (cells + [c])[..|cells|] == cells;
  }

  /** The cells of one character. */
  lemma WideRunOne(x: seq<Cell>)
    requires |x| > 0 && |x| == CellCols(x[0])
    ensures WideRun(x) == 0 || WideRun(x) == 2
  {
    hide WideRun;
    WideRunSnoc([], x[0]);
    if x[0].wide {
      assert x == [] + [x[0]] + [x[1]];
      WideRunSnoc([] + [x[0]], x[1]);
      assert WideRun([]) == 0;
    } else {
      assert x == [] + [x[0]];
    }
  }

  lemma ColsOf(c: Cell)
    ensures 1 <= CellCols(c) <= 2
  {
  }

  /** Two cells at the front do not make the run odd. */
  lemma WideRunParity(cells: seq<Cell>)
    requires |cells| > 0 && CellCols(cells[0]) <= |cells|
    ensures WideRun(cells) % 2 == WideRun(cells[CellCols(cells[0])..]) % 2
  {
    hide WideRun, CellCols;
    var w := CellCols(cells[0]);
    WideRunFrom(cells, w);
    assert 1 <= w <= 2 by { ColsOf(cells[0]); }
    assert cells[..w][0] == cells[0];
    WideRunOne(cells[..w]);
    TwoMore(WideRun(cells[w..]));
  }

  lemma TwoMore(n: nat)
    ensures (n + 2) % 2 == n % 2
  {
  }

  /** The cells fall into characters exactly when they end with an even number of first halves. */
  lemma {:induction false} ChunkedIff(cells: seq<Cell>)
    ensures Chunked(cells) <==> WideRun(cells) % 2 == 0
    decreases |cells|
  {
    if |cells| > 0 {
      var w := CellCols(cells[0]);
      if w <= |cells| {
        WideRunParity(cells);
        ChunkedIff(cells[w..]);
      } else {
        assert cells[..0] == [];
      }
    }
  }

  /** Of a line and what comes after it, lay_line reads the line alone, or one cell more. */
  lemma {:induction false} ExtentIff(ln: seq<Cell>, rest: seq<Cell>)
    ensures Extent(ln + rest, |ln|) == if Chunked(ln) then |ln| else |ln| + 1
    decreases |ln|
  {
    if |ln| > 0 {
      var w := CellCols(ln[0]);
      if w <= |ln| {
        assert (ln + rest)[w..] == ln[w..] + rest;
        ExtentIff(ln[w..], rest);
      }
    }
  }

  lemma TakenPaired(ln: seq<Cell>, rest: seq<Cell>)
    requires Paired(ln)
    ensures Extent(ln + rest, |ln|) == |ln| && Taken(ln + rest, |ln|) == ln
  {
    PairedIsChunked(ln);
    ExtentIff(ln, rest);
    assert (ln + rest)[..|ln|] == ln;
  }

  /** lay_line reads the cell after a line if and only if the line ends in an odd number of first halves of wide
      characters. */
  lemma ReadsPastIff(ln: seq<Cell>, rest: seq<Cell>)
    ensures Extent(ln + rest, |ln|) == |ln| + 1 <==> WideRun(ln) % 2 == 1
    ensures Extent(ln + rest, |ln|) == |ln| <==> WideRun(ln) % 2 == 0
  {
    ChunkedIff(ln);
    ExtentIff(ln, rest);
  }

  /** cell_blank. */
  predicate LineBlank(c: Cell) {
    && !c.cont && (c.ch == 0 || c.ch == SPACE) && c.bgDfl
    && Underline !in c.attrs && Strike !in c.attrs && Reverse !in c.attrs
  }

  const PAD_CELL := BLANK.(pad := true)

  function Blanks(n: nat): (r: seq<Cell>)
    ensures |r| == n && forall i :: 0 <= i < n ==> r[i] == BLANK
  {
    seq(n, _ => BLANK)
  }

  function Pads(n: nat): (r: seq<Cell>)
    ensures |r| == n && forall i :: 0 <= i < n ==> r[i] == PAD_CELL
  {
    seq(n, _ => PAD_CELL)
  }

  /** A row that wraps, its margin marked as padding. */
  function Margin(cur: seq<Cell>, nc: nat): (r: Row)
    requires |cur| <= nc
    ensures |r| == nc
  {
    cur + Pads(nc - |cur|)
  }

  /** The last row of a line. */
  function LastRow(cur: seq<Cell>, nc: nat): (r: Row)
    requires |cur| <= nc
    ensures |r| == nc
  {
    cur + Blanks(nc - |cur|)
  }

  /** The rows a line takes from here on, when `cur` is what the current row holds. All but the last wrap. */
  ghost function LayFrom(ln: seq<Cell>, nc: nat, cur: seq<Cell>): (rows: seq<Row>)
    requires nc >= 2 && |cur| <= nc && Chunked(ln)
    ensures |rows| >= 1 && forall r :: 0 <= r < |rows| ==> |rows[r]| == nc
    decreases |ln|, |cur|
  {
    if |ln| == 0 then [LastRow(cur, nc)]
    else
      var w := CellCols(ln[0]);
      if |cur| + w > nc then [Margin(cur, nc)] + LayFrom(ln, nc, [])
      else
        LayFrom(ln[w..], nc, cur + ln[..w])
  }

  ghost function Lay(ln: seq<Cell>, nc: nat): (rows: seq<Row>)
    requires nc >= 2 && Chunked(ln)
    ensures |rows| >= 1 && forall r :: 0 <= r < |rows| ==> |rows[r]| == nc
  {
    LayFrom(ln, nc, [])
  }

  lemma PairedTail(ln: seq<Cell>)
    requires Paired(ln) && |ln| > 0
    ensures CellCols(ln[0]) <= |ln| && Paired(ln[CellCols(ln[0])..]) && Paired(ln[..CellCols(ln[0])])
  {
    var w := CellCols(ln[0]);
    var t := ln[w..];
    assert forall c :: 0 <= c < |t| ==> t[c] == ln[c + w];
    if w == 2 { assert ln[1].cont && !ln[1].wide; }
    assert |t| > 0 ==> !ln[w].cont;
  }

  lemma PairedAppend(a: seq<Cell>, b: seq<Cell>)
    requires Paired(a) && Paired(b)
    ensures Paired(a + b)
  {
    var s := a + b;
    assert forall c :: 0 <= c < |b| ==> s[|a| + c] == b[c];
    forall c | 0 <= c < |s| && s[c].wide ensures !s[c].cont && c + 1 < |s| && s[c + 1].cont {
      if c >= |a| { assert s[c] == b[c - |a|]; }
    }
    forall c | 0 <= c < |s| && s[c].cont ensures c > 0 && s[c - 1].wide {
      if c >= |a| { assert s[c] == b[c - |a|]; }
    }
  }

  lemma LayWrap(ln: seq<Cell>, nc: nat, cur: seq<Cell>)
    requires nc >= 2 && |cur| <= nc && Chunked(ln) && |ln| > 0 && |cur| + CellCols(ln[0]) > nc
    ensures LayFrom(ln, nc, cur) == [Margin(cur, nc)] + LayFrom(ln, nc, [])
  {
  }

  lemma LayPut(ln: seq<Cell>, nc: nat, cur: seq<Cell>)
    requires nc >= 2 && |cur| <= nc && Chunked(ln) && |ln| > 0 && |cur| + CellCols(ln[0]) <= nc
    ensures var w := CellCols(ln[0]);
            && w <= |ln| && Chunked(ln[w..]) && LayFrom(ln, nc, cur) == LayFrom(ln[w..], nc, cur + ln[..w])
  {
  }

  lemma LayDone(ln: seq<Cell>, nc: nat, cur: seq<Cell>)
    requires nc >= 2 && |cur| <= nc && ln == []
    ensures Chunked(ln) && LayFrom(ln, nc, cur) == [LastRow(cur, nc)]
  {
  }

  /** Row i is filled: only its last column may be padding, and only because a wide character follows. */
  predicate Filled(rows: seq<Row>, i: nat, nc: nat)
    requires i + 1 < |rows| && nc >= 2 && forall r :: 0 <= r < |rows| ==> |rows[r]| == nc
  {
    && (forall c :: 0 <= c < nc - 1 ==> !rows[i][c].pad)
    && (rows[i][nc - 1].pad ==> rows[i + 1][0].wide)
  }

  lemma {:induction false} FilledFrom(ln: seq<Cell>, nc: nat, cur: seq<Cell>)
    requires nc >= 2 && |cur| <= nc && Chunked(ln) && NoPads(ln) && NoPads(cur)
    ensures var rows := LayFrom(ln, nc, cur);
      && (|cur| + |ln| > 0 ==> rows[0][0] == (cur + ln)[0])
      && forall i :: 0 <= i < |rows| - 1 ==> Filled(rows, i, nc)
    decreases |ln|, |cur|
  {
    hide Chunked, LayFrom;
    if |ln| == 0 {
      LayDone(ln, nc, cur);
    } else if |cur| + CellCols(ln[0]) > nc {
      LayWrap(ln, nc, cur);
      FilledFrom(ln, nc, []);
      var rows, rest := LayFrom(ln, nc, cur), LayFrom(ln, nc, []);
      forall i | 0 <= i < |rows| - 1 ensures Filled(rows, i, nc) {
        if i > 0 { assert Filled(rest, i - 1, nc); }
      }
    } else {
      var w := CellCols(ln[0]);
      LayPut(ln, nc, cur);
      FilledFrom(ln[w..], nc, cur + ln[..w]);
      assert cur + ln[..w] + ln[w..] == cur + ln;
    }
  }

  /** A line takes no more rows than it must: every row but the last is filled. */
  lemma RowsFilled(ln: seq<Cell>, nc: nat, i: nat)
    requires nc >= 2 && Chunked(ln) && NoPads(ln) && i + 1 < |Lay(ln, nc)|
    ensures Filled(Lay(ln, nc), i, nc)
  {
    FilledFrom(ln, nc, []);
  }

  /* ---- gathering ---- */

  /** A row's cells without padding. */
  function Unpadded(row: seq<Cell>): (r: seq<Cell>)
    ensures |r| <= |row|
    decreases |row|
  {
    if |row| == 0 then []
    else Unpadded(row[..|row| - 1]) + (if row[|row| - 1].pad then [] else [row[|row| - 1]])
  }

  /** The cells of several rows, one after the other. */
  function Gather(rows: seq<Row>): seq<Cell>
    decreases |rows|
  {
    if |rows| == 0 then [] else Unpadded(rows[0]) + Gather(rows[1..])
  }

  function Trim(cells: seq<Cell>): (r: seq<Cell>)
    ensures |r| <= |cells| && r == cells[..|r|]
    ensures forall c :: |r| <= c < |cells| ==> LineBlank(cells[c])
    ensures |r| > 0 ==> !LineBlank(r[|r| - 1])
    decreases |cells|
  {
    if |cells| > 0 && LineBlank(cells[|cells| - 1]) then Trim(cells[..|cells| - 1]) else cells
  }

  lemma {:induction false} UnpaddedNone(cells: seq<Cell>)
    requires NoPads(cells)
    ensures Unpadded(cells) == cells
    decreases |cells|
  {
    if |cells| > 0 {
      UnpaddedNone(cells[..|cells| - 1]);
      assert cells == cells[..|cells| - 1] + [cells[|cells| - 1]];
    }
  }

  lemma {:induction false} UnpaddedMargin(cur: seq<Cell>, n: nat)
    requires NoPads(cur)
    ensures Unpadded(cur + Pads(n)) == cur
    decreases n
  {
    var row := cur + Pads(n);
    if n == 0 {
      assert row == cur;
      UnpaddedNone(cur);
    } else {
      assert row[..|row| - 1] == cur + Pads(n - 1);
      UnpaddedMargin(cur, n - 1);
    }
  }

  /** Gathering a line that was laid out gives it back, with blanks after it. */
  lemma {:induction false} GatherLayFrom(ln: seq<Cell>, nc: nat, cur: seq<Cell>) returns (k: nat)
    requires nc >= 2 && |cur| <= nc && Chunked(ln) && NoPads(ln) && NoPads(cur)
    ensures Gather(LayFrom(ln, nc, cur)) == cur + ln + Blanks(k)
    decreases |ln|, |cur|
  {
    hide LayFrom, Unpadded, Gather, Chunked;
    if |ln| == 0 {
      k := nc - |cur|;
      LayDone(ln, nc, cur);
      UnpaddedNone(LastRow(cur, nc));
      GatherOne(LastRow(cur, nc));
      assert cur + ln == cur;
    } else {
      var w := CellCols(ln[0]);
      if |cur| + w > nc {
        LayWrap(ln, nc, cur);
        var rest := LayFrom(ln, nc, []);
        k := GatherLayFrom(ln, nc, []);
        UnpaddedMargin(cur, nc - |cur|);
        GatherCons(Margin(cur, nc), rest);
        assert [] + ln == ln;
        assert cur + (ln + Blanks(k)) == cur + ln + Blanks(k);
      } else {
        LayPut(ln, nc, cur);
        k := GatherLayFrom(ln[w..], nc, cur + ln[..w]);
        assert cur + ln[..w] + ln[w..] == cur + ln;
      }
    }
  }

  lemma GatherOne(row: Row)
    ensures Gather([row]) == Unpadded(row)
  {
    assert [row][1..] == [];
    assert Unpadded(row) + [] == Unpadded(row);
  }

  lemma GatherCons(row: Row, rows: seq<Row>)
    ensures Gather([row] + rows) == Unpadded(row) + Gather(rows)
  {
    assert ([row] + rows)[1..] == rows;
  }

  lemma {:induction false} GatherAppend(a: seq<Row>, b: seq<Row>)
    ensures Gather(a + b) == Gather(a) + Gather(b)
    decreases |a|
  {
    if |a| == 0 {
      assert a + b == b;
    } else {
      assert (a + b)[1..] == a[1..] + b;
      GatherAppend(a[1..], b);
    }
  }

  lemma {:induction false} TrimBlanks(cells: seq<Cell>, k: nat)
    ensures Trim(cells + Blanks(k)) == Trim(cells)
    decreases k
  {
    var s := cells + Blanks(k);
    if k == 0 {
      assert s == cells;
    } else {
      assert s[..|s| - 1] == cells + Blanks(k - 1);
      TrimBlanks(cells, k - 1);
    }
  }

  /** Laying out and gathering are inverse up to blanks at the end; at any width, and from there at any other. */
  lemma GatherUndoesLay(ln: seq<Cell>, nc: nat)
    requires nc >= 2 && Chunked(ln) && NoPads(ln)
    ensures Trim(Gather(Lay(ln, nc))) == Trim(ln)
  {
    var k := GatherLayFrom(ln, nc, []);
    assert [] + ln == ln;
    TrimBlanks(ln, k);
  }

  /** No wide character is split over two rows. */
  lemma {:induction false} LaidRowsPaired(ln: seq<Cell>, nc: nat, cur: seq<Cell>)
    requires nc >= 2 && |cur| <= nc && Paired(ln) && Paired(cur)
    ensures Chunked(ln)
    ensures forall r :: 0 <= r < |LayFrom(ln, nc, cur)| ==> Paired(LayFrom(ln, nc, cur)[r])
    decreases |ln|, |cur|
  {
    PairedIsChunked(ln);
    if |ln| == 0 {
      PairedAppend(cur, Blanks(nc - |cur|));
    } else {
      var w := CellCols(ln[0]);
      if |cur| + w > nc {
        LaidRowsPaired(ln, nc, []);
        PairedAppend(cur, Pads(nc - |cur|));
      } else {
        PairedTail(ln);
        PairedAppend(cur, ln[..w]);
        LaidRowsPaired(ln[w..], nc, cur + ln[..w]);
      }
    }
  }

  /* ---- lay_line ---- */

  /** Rows put into a grid from row `row` on. */
  function Put<T>(g: seq<T>, row: nat, rows: seq<T>): (r: seq<T>)
    requires row + |rows| <= |g|
    ensures |r| == |g|
  {
    g[..row] + rows + g[row + |rows|..]
  }

  /** The wrap flags of the n rows of one line. */
  function LineFlags(n: nat): (f: seq<bool>)
    ensures |f| == n && forall i :: 0 <= i < n ==> f[i] == (i < n - 1)
  {
    seq(n, i => i < n - 1)
  }

  /** Rows from `row` on are still as allocated. */
  ghost predicate Fresh(g: seq<Row>, f: seq<bool>, row: nat, nc: nat) {
    |g| == |f| && forall r :: row <= r < |g| ==> g[r] == Blanks(nc) && !f[r]
  }

  /** The rows done, and the one being filled, are in the grid. */
  ghost predicate Filling(g0: seq<Row>, f0: seq<bool>, g: seq<Row>, f: seq<bool>, row: nat, done: seq<Row>,
                          cur: seq<Cell>, nc: nat) {
    && row + |done| < |g0| == |f0| && |cur| <= nc
    && g == Put(g0, row, done + [LastRow(cur, nc)]) && f == Put(f0, row, LineFlags(|done| + 1))
  }

  lemma FillingStarts(g: seq<Row>, f: seq<bool>, row: nat, nc: nat)
    requires row < |g| && Fresh(g, f, row, nc)
    ensures Filling(g, f, g, f, row, [], [], nc)
  {
    assert [] + Blanks(nc) == Blanks(nc);
    assert [] + [LastRow([], nc)] == [g[row]];
  }

  /** The row's margin marked and its flag set, and the next row begun. */
  lemma FillingWraps(g0: seq<Row>, f0: seq<bool>, g: seq<Row>, f: seq<bool>, row: nat, done: seq<Row>, cur: seq<Cell>,
                     nc: nat)
    requires Filling(g0, f0, g, f, row, done, cur, nc) && Fresh(g0, f0, row, nc) && row + |done| + 1 < |g0|
    ensures Filling(g0, f0, g[row + |done| := Margin(cur, nc)], f[row + |done| := true], row, done + [Margin(cur, nc)],
                    [], nc)
  {
    var k := row + |done|;
    assert [] + Blanks(nc) == Blanks(nc) == g0[k + 1];
    var g1, f1 := g[k := Margin(cur, nc)], f[k := true];
    assert g1 == Put(g0, row, (done + [Margin(cur, nc)]) + [LastRow([], nc)]);
    assert f1 == Put(f0, row, LineFlags(|done| + 2));
  }

  lemma FillingPuts(g0: seq<Row>, f0: seq<bool>, g: seq<Row>, f: seq<bool>, row: nat, done: seq<Row>, cur: seq<Cell>,
                    x: seq<Cell>, nc: nat)
    requires Filling(g0, f0, g, f, row, done, cur, nc) && |cur| + |x| <= nc
    ensures Filling(g0, f0, g[row + |done| := LastRow(cur + x, nc)], f, row, done, cur + x, nc)
  {
    assert g[row + |done| := LastRow(cur + x, nc)] == Put(g0, row, done + [LastRow(cur + x, nc)]);
  }

  lemma FillingRow(g0: seq<Row>, f0: seq<bool>, g: seq<Row>, f: seq<bool>, row: nat, done: seq<Row>, cur: seq<Cell>,
                   nc: nat)
    requires Filling(g0, f0, g, f, row, done, cur, nc)
    ensures |cur| <= nc && row + |done| < |g| == |g0| && |f| == |f0| && g[row + |done|] == LastRow(cur, nc)
  {
  }

  /** The flags of the cells from column c on. */
  function Padded(row: Row, c: nat): (r: Row)
    requires c <= |row|
    ensures |r| == |row|
  {
    row[..c] + seq(|row| - c, k requires 0 <= k < |row| - c => row[c + k].(pad := true))
  }

  lemma PaddedIsMargin(cur: seq<Cell>, nc: nat)
    requires |cur| <= nc
    ensures Padded(LastRow(cur, nc), |cur|) == Margin(cur, nc)
  {
  }

  lemma Extended(cur: seq<Cell>, x: seq<Cell>, nc: nat)
    requires |cur| + |x| <= nc
    ensures LastRow(cur, nc)[..|cur|] + x + LastRow(cur, nc)[|cur| + |x|..] == LastRow(cur + x, nc)
  {
  }

  /** lay_line: the rows the line in the first n cells of b takes; with a grid they are written there as well. */
  method LayLine(b: seq<Cell>, n: nat, nc: nat, tg: array?<Row>, tf: array?<bool>, row: nat) returns (used: nat)
    requires nc >= 2 && n <= |b| && Extent(b, n) <= |b| && (tg == null <==> tf == null)
    requires tg != null ==> row + |Lay(Taken(b, n), nc)| <= tg.Length == tf.Length && Fresh(tg[..], tf[..], row, nc)
    modifies tg, tf
    ensures used == |Lay(Taken(b, n), nc)|
    ensures tg != null ==> tg[..] == Put(old(tg[..]), row, Lay(Taken(b, n), nc))
    ensures tg != null ==> tf[..] == Put(old(tf[..]), row, LineFlags(used))
  {
    hide LayFrom, Chunked, Filling, Fresh, LastRow, Margin, Padded, Extent;
    var r, c, i := 0, 0, 0;
    ghost var ln := Taken(b, n);
    ghost var done: seq<Row>, cur: seq<Cell> := [], [];
    ghost var g0, f0 := if tg == null then [] else tg[..], if tf == null then [] else tf[..];
    if tg != null { FillingStarts(g0, f0, row, nc); }
    assert ln[0..] == ln && b[0..] == b;
    assert done + LayFrom(ln, nc, cur) == Lay(ln, nc);
    while i < n
      invariant i <= |ln| && ln == b[..|ln|] && Chunked(ln[i..]) && c == |cur| <= nc && r == |done|
      invariant if i <= n then Extent(b[i..], n - i) == |ln| - i else i == |ln|
      invariant Lay(ln, nc) == done + LayFrom(ln[i..], nc, cur)
      invariant tg != null ==> Filling(g0, f0, tg[..], tf[..], row, done, cur, nc)
    {
      var w := CellCols(b[i]);
      assert ln[i] == b[i];
      if c + w > nc {
        LineWraps(ln[i..], nc, cur, done, Lay(ln, nc));
        if tg != null {
          WrapRow(tg, tf, row, r, c, g0, f0, done, cur, nc);
        }
        done, cur := done + [Margin(cur, nc)], [];
        r, c := r + 1, 0;
      }
      LineGoesOn(b, ln, n, i, nc, cur);
      if tg != null {
        PutCells(tg, tf, row, r, c, b[i..i + w], g0, f0, done, cur, nc);
      }
      cur := cur + b[i..i + w];
      c, i := c + w, i + w;
    }
    ExtentEnds(b, i, n, |ln|);
    LayDone(ln[i..], nc, cur);
    if tg != null { FillingEnds(g0, f0, tg[..], tf[..], row, done, cur, nc); }
    used := r + 1;
  }

  /** The row in hand has no room for the next character. */
  lemma LineWraps(rest: seq<Cell>, nc: nat, cur: seq<Cell>, done: seq<Row>, rows: seq<Row>)
    requires nc >= 2 && |cur| <= nc && Chunked(rest) && |rest| > 0 && |cur| + CellCols(rest[0]) > nc
    requires rows == done + LayFrom(rest, nc, cur)
    ensures rows == done + [Margin(cur, nc)] + LayFrom(rest, nc, [])
  {
    hide LayFrom, Chunked, Margin;
    LayWrap(rest, nc, cur);
  }

  /** The next character goes into the row in hand. */
  lemma LineGoesOn(b: seq<Cell>, ln: seq<Cell>, n: nat, i: nat, nc: nat, cur: seq<Cell>)
    requires i < n <= |b| && i < |ln| <= |b| && ln == b[..|ln|] && Chunked(ln[i..]) && Extent(b[i..], n - i) == |ln| - i
    requires nc >= 2 && |cur| + CellCols(b[i]) <= nc
    ensures var w := CellCols(b[i]);
      && i + w <= |ln| && Chunked(ln[i + w..])
      && LayFrom(ln[i..], nc, cur) == LayFrom(ln[i + w..], nc, cur + b[i..i + w])
      && (if i + w <= n then Extent(b[i + w..], n - (i + w)) == |ln| - (i + w) else i + w == |ln|)
  {
    hide LayFrom, Chunked, Extent;
    var w := CellCols(b[i]);
    ExtentStep(b[i..], n - i);
    LayPut(ln[i..], nc, cur);
    assert b[i..][w..] == b[i + w..];
    assert ln[i..][w..] == ln[i + w..] && ln[i..][..w] == b[i..i + w];
  }

  lemma ExtentStep(b: seq<Cell>, n: nat)
    requires 0 < n <= |b|
    ensures var w := CellCols(b[0]);
            if w > n then Extent(b, n) == w else Extent(b, n) == w + Extent(b[w..], n - w)
  {
  }

  lemma ExtentEnds(b: seq<Cell>, i: nat, n: nat, e: nat)
    requires n <= i <= e && n <= |b|
    requires if i <= n then Extent(b[i..], n - i) == e - i else i == e
    ensures i == e
  {
  }

  /** The margin of row `row + r` marked as padding, and the row as wrapped. */
  method WrapRow(tg: array<Row>, tf: array<bool>, row: nat, r: nat, c: nat,
                 ghost g0: seq<Row>, ghost f0: seq<bool>, ghost done: seq<Row>, ghost cur: seq<Cell>, nc: nat)
    requires Filling(g0, f0, tg[..], tf[..], row, done, cur, nc) && Fresh(g0, f0, row, nc)
    requires r == |done| && c == |cur| && row + r + 1 < tg.Length
    modifies tg, tf
    ensures Filling(g0, f0, tg[..], tf[..], row, done + [Margin(cur, nc)], [], nc)
  {
    hide Filling, Fresh, LastRow, Margin, Padded;
    FillingRow(g0, f0, tg[..], tf[..], row, done, cur, nc);
    FillingWraps(g0, f0, tg[..], tf[..], row, done, cur, nc);
    PaddedIsMargin(cur, nc);
    ghost var g, f := tg[..], tf[..];
    tf[row + r] := true;
    tg[row + r] := Padded(tg[row + r], c);
    assert tg[..] == g[row + r := Margin(cur, nc)] && tf[..] == f[row + r := true];
  }

  /** One character's cells copied. */
  method PutCells(tg: array<Row>, ghost tf: array<bool>, row: nat, r: nat, c: nat, x: seq<Cell>,
                  ghost g0: seq<Row>, ghost f0: seq<bool>, ghost done: seq<Row>, ghost cur: seq<Cell>, nc: nat)
    requires Filling(g0, f0, tg[..], tf[..], row, done, cur, nc)
    requires r == |done| && c == |cur| && c + |x| <= nc
    modifies tg
    ensures Filling(g0, f0, tg[..], tf[..], row, done, cur + x, nc)
  {
    hide Filling, LastRow;
    FillingRow(g0, f0, tg[..], tf[..], row, done, cur, nc);
    FillingPuts(g0, f0, tg[..], tf[..], row, done, cur, x, nc);
    Extended(cur, x, nc);
    ghost var g := tg[..];
    tg[row + r] := tg[row + r][..c] + x + tg[row + r][c + |x|..];
    assert tg[..] == g[row + r := LastRow(cur + x, nc)];
  }

  lemma FillingEnds(g0: seq<Row>, f0: seq<bool>, g: seq<Row>, f: seq<bool>, row: nat, done: seq<Row>, cur: seq<Cell>,
                    nc: nat)
    requires Filling(g0, f0, g, f, row, done, cur, nc)
    ensures g == Put(g0, row, done + [LastRow(cur, nc)]) && f == Put(f0, row, LineFlags(|done| + 1))
  {
  }
}
