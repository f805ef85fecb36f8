/** A grid of cells as _lib/vt.c keeps it: an array of pointers to rows, which are moved about and rewritten in
    place. */
module Grid {
  import opened Cells
  import opened Vt

  type RowPtr = array<Cell>

  /** No row is pointed to twice. */
  ghost predicate Distinct(ps: seq<RowPtr>) {
    forall i, j :: 0 <= i < j < |ps| ==> ps[i] != ps[j]
  }

  ghost predicate Shaped(ps: seq<RowPtr>, nc: nat) {
    forall i :: 0 <= i < |ps| ==> ps[i].Length == nc
  }

  ghost predicate Among(ps: seq<RowPtr>, rs: set<RowPtr>) {
    forall i :: 0 <= i < |ps| ==> ps[i] in rs
  }

  /** The rows pointed to. */
  ghost function Content(ps: seq<RowPtr>, rs: set<RowPtr>): (c: seq<Row>)
    requires Among(ps, rs)
    reads rs
    ensures |c| == |ps| && forall i :: 0 <= i < |ps| ==> c[i] == ps[i][..]
  {
    seq(|ps|, i requires 0 <= i < |ps| && Among(ps, rs) reads rs => ps[i][..])
  }

  /** The same pointers in another order. */
  lemma Permuted(a: seq<RowPtr>, b: seq<RowPtr>, nc: nat, rs: set<RowPtr>)
    requires multiset(a) == multiset(b) && Distinct(a) && Shaped(a, nc) && Among(a, rs)
    ensures |a| == |b| && Distinct(b) && Shaped(b, nc) && Among(b, rs)
  {
    assert |multiset(a)| == |a| && |multiset(b)| == |b|;
    forall i | 0 <= i < |b| ensures b[i] in rs && b[i].Length == nc {
      assert b[i] in multiset(b);
      assert b[i] in multiset(a);
    }
    OnceEach(a);
    forall i, j | 0 <= i < j < |b| ensures b[i] != b[j] {
      if b[i] == b[j] { TwiceCounted(b, i, j); }
    }
  }

  lemma {:induction false} OnceEach(a: seq<RowPtr>)
    requires Distinct(a)
    ensures forall p :: multiset(a)[p] <= 1
    decreases |a|
  {
    if |a| > 0 {
      var n := |a| - 1;
      OnceEach(a[..n]);
      assert a == a[..n] + [a[n]];
      assert a[n] !in a[..n];
    }
  }

  lemma TwiceCounted(b: seq<RowPtr>, i: nat, j: nat)
    requires i < j < |b| && b[i] == b[j]
    ensures multiset(b)[b[i]] >= 2
  {
    assert b == b[..i] + [b[i]] + b[i + 1..j] + [b[j]] + b[j + 1..];
  }

  /** Distinct pointers to as many rows as there are point to every one of them. */
  lemma {:induction false} EachOnce(ps: seq<RowPtr>, rs: set<RowPtr>)
    requires Distinct(ps) && Among(ps, rs) && |ps| == |rs|
    ensures multiset(ps) == multiset(rs)
    decreases |ps|
  {
    if |ps| > 0 {
      var n := |ps| - 1;
      var p := ps[n];
      assert ps == ps[..n] + [p];
      EachOnce(ps[..n], rs - {p});
      assert multiset(rs) == multiset(rs - {p}) + multiset{p};
    }
  }

  /** The region top..bottom with its first n elements gone and x come in at its end. */
  function RaisedBy<T>(s: seq<T>, top: nat, bottom: nat, n: nat, x: seq<T>): (r: seq<T>)
    requires top + n <= bottom + 1 <= |s| && |x| == n
    ensures |r| == |s|
  {
    s[..top] + s[top + n..bottom + 1] + x + s[bottom + 1..]
  }

  /** Rows top..bottom as scrolled up by n: the first n go to the end. */
  function Rolled<T>(s: seq<T>, top: nat, bottom: nat, n: nat): (r: seq<T>)
    requires top + n <= bottom + 1 <= |s|
    ensures |r| == |s| && multiset(r) == multiset(s)
  {
    assert s == s[..top] + s[top..top + n] + s[top + n..bottom + 1] + s[bottom + 1..];
    s[..top] + s[top + n..bottom + 1] + s[top..top + n] + s[bottom + 1..]
  }

  /** x put in from `at` on. */
  function Placed<T>(s: seq<T>, at: nat, x: seq<T>): (r: seq<T>)
    requires at + |x| <= |s|
    ensures |r| == |s|
  {
    s[..at] + x + s[at + |x|..]
  }

  /** The pointers rolled up, the rows that came in at the end having been overwritten. */
  lemma RolledContent(was: seq<RowPtr>, rows: seq<Row>, top: nat, bottom: nat, n: nat, x: seq<Row>, rs: set<RowPtr>)
    requires top + n <= bottom + 1 <= |was| == |rows| && |x| == n
    requires Among(was, rs) && Among(Rolled(was, top, bottom, n), rs) && Content(was, rs) == Placed(rows, top, x)
    ensures Content(Rolled(was, top, bottom, n), rs) == RaisedBy(rows, top, bottom, n, x)
  {
    var now, c := Rolled(was, top, bottom, n), Content(was, rs);
    var at := bottom + 1 - n;
    forall k | 0 <= k < |now| ensures now[k][..] == RaisedBy(rows, top, bottom, n, x)[k] {
      if k < top { assert now[k] == was[k] && c[k] == rows[k]; }
      else if k < at { assert now[k] == was[k + n] && c[k + n] == rows[k + n]; }
      else if k <= bottom { assert now[k] == was[k - at + top] && c[k - at + top] == x[k - at]; }
      else { assert now[k] == was[k] && c[k] == rows[k]; }
    }
  }

  lemma AmongAt(ps: seq<RowPtr>, i: nat, rs: set<RowPtr>)
    requires Among(ps, rs) && i < |ps|
    ensures ps[i] in rs
  {
  }

  /** memmove. */
  method MoveWithin<T>(a: array<T>, dst: nat, src: nat, len: nat)
    requires dst + len <= a.Length && src + len <= a.Length
    modifies a
    ensures a[..] == Placed(old(a[..]), dst, old(a[..])[src..src + len])
  {
    ghost var was := a[..];
    if dst <= src {
      var i: nat := 0;
      while i < len
        invariant i <= len && Moved(was, a[..], dst, src, 0, i)
        modifies a
      {
        MovedOne(was, a[..], dst, src, 0, i);
        a[dst + i] := a[src + i];
        i := i + 1;
      }
    } else {
      var i: nat := len;
      while i > 0
        invariant i <= len && Moved(was, a[..], dst, src, i, len)
        modifies a
      {
        i := i - 1;
        a[dst + i] := a[src + i];
      }
    }
    MovedAll(was, a[..], dst, src, len);
  }

  /** Elements from..end-1 of the len at src have been moved to dst. */
  ghost predicate Moved<T>(was: seq<T>, now: seq<T>, dst: nat, src: nat, from: nat, end: nat) {
    |now| == |was| && dst + end <= |was| && src + end <= |was|
    && forall k :: 0 <= k < |now| ==> now[k] == was[if dst + from <= k < dst + end then src + k - dst else k]
  }

  lemma MovedOne<T>(was: seq<T>, now: seq<T>, dst: nat, src: nat, from: nat, end: nat)
    requires Moved(was, now, dst, src, from, end) && from == 0 && dst <= src && src + end < |was|
    ensures Moved(was, now[dst + end := now[src + end]], dst, src, from, end + 1)
  {
  }

  lemma MovedAll<T>(was: seq<T>, now: seq<T>, dst: nat, src: nat, len: nat)
    requires Moved(was, now, dst, src, 0, len)
    ensures now == Placed(was, dst, was[src..src + len])
  {
  }

  /** clear_row_range. */
  method ClearRow(row: RowPtr, from: int, to: int, b: Cell)
    requires 0 <= from && to < row.Length
    modifies row
    ensures row[..] == ClearRange(old(row[..]), from, to, b)
  {
    var c := from;
    ghost var was := row[..];
    while c <= to
      invariant from <= c && (c <= to + 1 || c == from)
      invariant forall k :: 0 <= k < row.Length ==> row[k] == if from <= k < c then b else was[k]
      modifies row
    {
      row[c] := b;
      c := c + 1;
    }
    assert row[..] == ClearRange(was, from, to, b);
  }

  method ClearWhole(row: RowPtr, b: Cell)
    modifies row
    ensures row[..] == BlankRow(row.Length, b)
  {
    ClearRow(row, 0, row.Length - 1, b);
    assert row[..] == BlankRow(row.Length, b);
  }

  /** The first n of x have been put in from `at` on. */
  ghost predicate Overwritten<T>(was: seq<T>, now: seq<T>, at: nat, x: seq<T>, n: nat) {
    n <= |x| && at + |x| <= |was| && now == was[..at] + x[..n] + was[at + n..]
  }

  lemma OverwriteStarts<T>(was: seq<T>, at: nat, x: seq<T>)
    requires at + |x| <= |was|
    ensures Overwritten(was, was, at, x, 0)
  {
  }

  lemma OverwriteStep<T>(was: seq<T>, now: seq<T>, at: nat, x: seq<T>, n: nat)
    requires Overwritten(was, now, at, x, n) && n < |x|
    ensures at + n < |now| && Overwritten(was, now[at + n := x[n]], at, x, n + 1)
  {
  }

  lemma OverwriteEnds<T>(was: seq<T>, now: seq<T>, at: nat, x: seq<T>)
    requires Overwritten(was, now, at, x, |x|)
    ensures now == Placed(was, at, x)
  {
    assert x[..|x|] == x;
  }

  method NewRows(rows: nat, cols: nat) returns (ps: array<RowPtr>, fs: array<bool>, ghost rs: set<RowPtr>)
    ensures fresh(ps) && fresh(fs) && fresh(rs) && ps.Length == fs.Length == rows
    ensures Distinct(ps[..]) && Shaped(ps[..], cols) && Among(ps[..], rs) && |rs| == rows
    ensures Content(ps[..], rs) == BlankGrid(rows, cols, BLANK) && fs[..] == NoFlags(rows)
  {
    var none := new Cell[0](_ => BLANK);
    ps, fs, rs := new RowPtr[rows](_ => none), new bool[rows](_ => false), {};
    var r: nat := 0;
    while r < rows
      invariant r <= rows && ps.Length == rows && fresh(rs) && |rs| == r
      invariant forall i :: 0 <= i < r ==> ps[i] in rs && ps[i].Length == cols && ps[i][..] == BlankRow(cols, BLANK)
      invariant forall i, j :: 0 <= i < j < r ==> ps[i] != ps[j]
      invariant forall i :: 0 <= i < rows ==> !fs[i]
      modifies ps
    {
      var row := new Cell[cols](_ => BLANK);
      assert row[..] == BlankRow(cols, BLANK);
      ps[r] := row;
      rs := rs + {row};
      r := r + 1;
    }
  }

  /** A row pointer array with its wrap flags. */
  class Grid {
    const nr: nat
    const nc: nat
    const cells: array<RowPtr>
    const flags: array<bool>

    /** All rows there are; the pointers only change places. */
    ghost const rowSet: set<RowPtr>

    /** Everything the grid is stored in. */
    ghost function Frame(): set<object> {
      var rs: set<object> := rowSet;
      {cells as object, flags} + rs
    }

    ghost predicate Valid()
      reads cells
    {
      cells.Length == flags.Length == nr == |rowSet| && Shaped(cells[..], nc) && Distinct(cells[..])
        && Among(cells[..], rowSet)
    }

    ghost function Rows(): (rs: seq<Row>)
      requires Valid()
      reads cells, rowSet
    {
      Content(cells[..], rowSet)
    }

    ghost function Pointers(): (ps: seq<RowPtr>)
      reads cells
    {
      cells[..]
    }

    /** Whatever has happened in between: the row pointers are those there were before, in some order. */
    twostate lemma RowsPermuted()
      requires old(Valid()) && Valid()
      ensures multiset(Pointers()) == multiset(old(Pointers()))
    {
      EachOnce(old(Pointers()), rowSet);
      EachOnce(Pointers(), rowSet);
    }

    /** alloc_cells: blank in the default colours. */
    constructor (rows: nat, cols: nat)
      ensures Valid() && nr == rows && nc == cols && fresh(cells) && fresh(flags) && fresh(rowSet)
      ensures Rows() == BlankGrid(rows, cols, BLANK) && flags[..] == NoFlags(rows)
    {
      nr, nc := rows, cols;
      var ps, fs, rs := NewRows(rows, cols);
      cells, flags, rowSet := ps, fs, rs;
    }

    /** A row of those there were is blanked; the others are not touched. */
    method BlankOne(row: RowPtr, b: Cell, ghost was: seq<RowPtr>, ghost k: nat)
      requires Distinct(was) && Shaped(was, nc) && Among(was, rowSet) && k < |was| && was[k] == row
      modifies row
      ensures Content(was, rowSet) == old(Content(was, rowSet))[k := BlankRow(nc, b)]
    {
      ClearWhole(row, b);
    }

    method PutBlankOne(at: nat, row: RowPtr, b: Cell, ghost was: seq<RowPtr>, ghost k: nat)
      requires at < cells.Length == flags.Length
      requires Distinct(was) && Shaped(was, nc) && Among(was, rowSet) && k < |was| && was[k] == row
      modifies cells, flags, row
      ensures cells[..] == old(cells[..])[at := row] && flags[..] == old(flags[..])[at := false]
      ensures Content(was, rowSet) == old(Content(was, rowSet))[k := BlankRow(nc, b)]
    {
      hide Distinct, Shaped, Among, BlankRow, Content;
      cells[at] := row;
      BlankOne(row, b, was, k);
      flags[at] := false;
    }

    method PutBlankStep(at: nat, save: seq<RowPtr>, b: Cell, ghost was: seq<RowPtr>, ghost from: nat, i: nat,
                        ghost ps: seq<RowPtr>, ghost fs: seq<bool>, ghost rows: seq<Row>)
      requires i < |save| && at + |save| <= cells.Length == flags.Length && from + |save| <= |was|
               && was[from + i] == save[i]
      requires Distinct(was) && Shaped(was, nc) && Among(was, rowSet)
      requires Overwritten(ps, cells[..], at, save, i) && Overwritten(fs, flags[..], at, NoFlags(|save|), i)
      requires Overwritten(rows, Content(was, rowSet), from, BlankGrid(|save|, nc, b), i)
      modifies cells, flags, save[i]
      ensures Overwritten(ps, cells[..], at, save, i + 1) && Overwritten(fs, flags[..], at, NoFlags(|save|), i + 1)
      ensures Overwritten(rows, Content(was, rowSet), from, BlankGrid(|save|, nc, b), i + 1)
    {
      hide Overwritten, Content, Distinct, Shaped, Among, BlankRow, BlankGrid, NoFlags;
      OverwriteStep(ps, cells[..], at, save, i);
      OverwriteStep(fs, flags[..], at, NoFlags(|save|), i);
      OverwriteStep(rows, Content(was, rowSet), from, BlankGrid(|save|, nc, b), i);
      PutBlankOne(at + i, save[i], b, was, from + i);
    }

    /** Rows `save`, that is from..from+|save|-1 of those there were, are put in from row `at` on, blank and without
        wrap flags. */
    method PutBlank(at: nat, save: seq<RowPtr>, b: Cell, ghost was: seq<RowPtr>, ghost from: nat)
      requires cells.Length == flags.Length == nr && at + |save| <= nr
      requires from + |save| <= |was| && save == was[from..from + |save|] && Distinct(was) && Shaped(was, nc)
               && Among(was, rowSet)
      modifies cells, flags, rowSet
      ensures cells[..] == Placed(old(cells[..]), at, save) && flags[..] == Placed(old(flags[..]), at, NoFlags(|save|))
      ensures Content(was, rowSet) == Placed(old(Content(was, rowSet)), from, BlankGrid(|save|, nc, b))
    {
      hide Overwritten, Placed, Content, Distinct, Shaped, Among, BlankRow, BlankGrid, NoFlags;
      ghost var ps, fs, rows := cells[..], flags[..], Content(was, rowSet);
      var i: nat := 0;
      OverwriteStarts(ps, at, save);
      OverwriteStarts(fs, at, NoFlags(|save|));
      OverwriteStarts(rows, from, BlankGrid(|save|, nc, b));
      assert forall k :: 0 <= k < |save| ==> was[from + k] == save[k];
      while i < |save|
        invariant i <= |save| && Overwritten(ps, cells[..], at, save, i)
                  && Overwritten(fs, flags[..], at, NoFlags(|save|), i)
        invariant Overwritten(rows, Content(was, rowSet), from, BlankGrid(|save|, nc, b), i)
        modifies cells, flags, rowSet
      {
        AmongAt(was, from + i, rowSet);
        PutBlankStep(at, save, b, was, from, i, ps, fs, rows);
        i := i + 1;
      }
      OverwriteEnds(ps, cells[..], at, save);
      OverwriteEnds(fs, flags[..], at, NoFlags(|save|));
      OverwriteEnds(rows, Content(was, rowSet), from, BlankGrid(|save|, nc, b));
    }

    /** The first n rows of the region come in again, blank, at its end; the wrap flags move with their rows. */
    method ScrollUp(top: nat, bottom: nat, n: nat, b: Cell)
      requires Valid() && top <= bottom < nr && 0 < n <= bottom - top + 1
      modifies cells, flags, rowSet
      ensures Valid() && multiset(Pointers()) == multiset(old(Pointers()))
      ensures Rows() == RaisedBy(old(Rows()), top, bottom, n, BlankGrid(n, nc, b))
      ensures flags[..] == RaisedBy(old(flags[..]), top, bottom, n, NoFlags(n))
    {
      hide Rolled, Distinct, Shaped, Among, Content, RaisedBy, Placed;
      ghost var was, rows, f := cells[..], Rows(), flags[..];
      var at := bottom + 1 - n;
      var save := cells[top..top + n];
      MoveWithin(cells, top, top + n, at - top);
      MoveWithin(flags, top, top + n, at - top);
      PutBlank(at, save, b, was, top);
      PlacedTwice(f, top, bottom, n, NoFlags(n));
      PlacedTwice(was, top, bottom, n, save);
      RolledIs(was, top, bottom, n);
      Permuted(was, cells[..], nc, rowSet);
      RolledContent(was, rows, top, bottom, n, BlankGrid(n, nc, b), rowSet);
    }

    /** The last n rows of the region come in again, blank, at its top. */
    method ScrollDown(top: nat, bottom: nat, n: nat, b: Cell)
      requires Valid() && top <= bottom < nr && 0 < n <= bottom - top + 1
      modifies cells, flags, rowSet
      ensures Valid() && multiset(Pointers()) == multiset(old(Pointers()))
      ensures Rows() == LoweredBy(old(Rows()), top, bottom, n, BlankGrid(n, nc, b))
      ensures flags[..] == LoweredBy(old(flags[..]), top, bottom, n, NoFlags(n))
    {
      hide RolledDown, Distinct, Shaped, Among, Content, LoweredBy, Placed;
      ghost var was, rows, f := cells[..], Rows(), flags[..];
      var at := bottom + 1 - n;
      var save := cells[at..bottom + 1];
      MoveWithin(cells, top + n, top, at - top);
      MoveWithin(flags, top + n, top, at - top);
      PutBlank(top, save, b, was, at);
      PlacedDown(f, top, bottom, n, NoFlags(n));
      PlacedDown(was, top, bottom, n, save);
      RolledDownIs(was, top, bottom, n);
      Permuted(was, cells[..], nc, rowSet);
      RolledDownContent(was, rows, top, bottom, n, BlankGrid(n, nc, b), rowSet);
    }

    /** clear_row_range on row r. */
    method ClearCells(r: nat, from: nat, to: int, b: Cell)
      requires Valid() && r < nr && to < nc
      modifies cells[r]
      ensures Valid() && Rows() == old(Rows())[r := ClearRange(old(Rows())[r], from, to, b)]
    {
      hide ClearRange;
      ClearRow(cells[r], from, to, b);
    }

    method ClearRows(from: nat, end: nat, b: Cell)
      requires Valid() && from <= end <= nr
      modifies rowSet
      ensures Valid() && Rows() == Placed(old(Rows()), from, BlankGrid(end - from, nc, b))
    {
      hide Overwritten, Placed, Content, Distinct, Shaped, Among;
      ghost var rows, blank := Rows(), BlankGrid(end - from, nc, b);
      var i: nat := 0;
      OverwriteStarts(rows, from, blank);
      while i < end - from
        invariant i <= end - from && Valid() && Overwritten(rows, Rows(), from, blank, i)
        modifies rowSet
      {
        OverwriteStep(rows, Rows(), from, blank, i);
        AmongAt(cells[..], from + i, rowSet);
        BlankOne(cells[from + i], b, cells[..], from + i);
        i := i + 1;
      }
      OverwriteEnds(rows, Rows(), from, blank);
    }

    method ClearFlags(from: nat, end: nat)
      requires Valid() && from <= end <= nr
      modifies flags
      ensures Valid() && flags[..] == Placed(old(flags[..]), from, NoFlags(end - from))
    {
      ghost var fs, none := flags[..], NoFlags(end - from);
      var i: nat := 0;
      while i < end - from
        invariant i <= end - from && Overwritten(fs, flags[..], from, none, i)
        modifies flags
      {
        OverwriteStep(fs, flags[..], from, none, i);
        ghost var f := flags[..];
        flags[from + i] := false;
        assert flags[..] == f[from + i := false];
        i := i + 1;
      }
      OverwriteEnds(fs, flags[..], from, none);
    }

    method SetFlag(r: nat, f: bool)
      requires Valid() && r < nr
      modifies flags
      ensures Valid() && flags[..] == old(flags[..])[r := f]
    {
      flags[r] := f;
    }

    method SetCell(r: nat, c: nat, x: Cell)
      requires Valid() && r < nr && c < nc
      modifies cells[r]
      ensures Valid() && Rows() == old(Rows())[r := old(Rows())[r][c := x]]
    {
      var row := cells[r];
      ghost var was := row[..];
      row[c] := x;
      assert row[..] == was[c := x];
    }

    /** ICH: k blanks opened at column c, what is pushed past the margin lost. */
    method InsertCells(r: nat, c: nat, k: nat, b: Cell)
      requires Valid() && r < nr && c + k <= nc
      modifies cells[r]
      ensures Valid() && Rows() == old(Rows())[r := OpenGap(old(Rows())[r], c, k, b)]
    {
      hide OpenGap, ClearRange, Placed;
      var row := cells[r];
      ghost var was := row[..];
      MoveWithin(row, c + k, c, nc - c - k);
      ClearRow(row, c, c + k - 1, b);
      GapOpened(was, c, k, b);
    }

    /** DCH: k cells at column c go, and blanks come in at the margin. */
    method DeleteCells(r: nat, c: nat, k: nat, b: Cell)
      requires Valid() && r < nr && c + k <= nc
      modifies cells[r]
      ensures Valid() && Rows() == old(Rows())[r := CloseGap(old(Rows())[r], c, k, b)]
    {
      hide CloseGap, ClearRange, Placed;
      var row := cells[r];
      ghost var was := row[..];
      MoveWithin(row, c, c + k, nc - c - k);
      assert was[c + k..c + k + (nc - c - k)] == was[c + k..];
      ClearRow(row, nc - k, nc - 1, b);
      GapClosed(was, c, k, b);
    }
  }

  function CloseGap(row: Row, c: nat, k: nat, b: Cell): (r: Row)
    requires c + k <= |row|
    ensures |r| == |row|
  {
    row[..c] + row[c + k..] + BlankRow(k, b)
  }

  lemma GapOpened(row: Row, c: nat, k: nat, b: Cell)
    requires c + k <= |row|
    ensures ClearRange(Placed(row, c + k, row[c..|row| - k]), c, c + k - 1, b) == OpenGap(row, c, k, b)
  {
  }

  lemma GapClosed(row: Row, c: nat, k: nat, b: Cell)
    requires c + k <= |row|
    ensures ClearRange(Placed(row, c, row[c + k..]), |row| - k, |row| - 1, b) == CloseGap(row, c, k, b)
  {
  }

  /** The region top..bottom with its last n elements gone and x come in at its top. */
  function LoweredBy<T>(s: seq<T>, top: nat, bottom: nat, n: nat, x: seq<T>): (r: seq<T>)
    requires top + n <= bottom + 1 <= |s| && |x| == n
    ensures |r| == |s|
  {
    s[..top] + x + s[top..bottom + 1 - n] + s[bottom + 1..]
  }

  function RolledDown<T>(s: seq<T>, top: nat, bottom: nat, n: nat): (r: seq<T>)
    requires top + n <= bottom + 1 <= |s|
    ensures |r| == |s| && multiset(r) == multiset(s)
  {
    var at := bottom + 1 - n;
    assert s == s[..top] + s[top..at] + s[at..bottom + 1] + s[bottom + 1..];
    s[..top] + s[at..bottom + 1] + s[top..at] + s[bottom + 1..]
  }

  lemma PlacedDown<T>(s: seq<T>, top: nat, bottom: nat, n: nat, x: seq<T>)
    requires top + n <= bottom + 1 <= |s| && |x| == n
    ensures Placed(Placed(s, top + n, s[top..bottom + 1 - n]), top, x) == LoweredBy(s, top, bottom, n, x)
  {
  }

  lemma RolledDownIs<T>(s: seq<T>, top: nat, bottom: nat, n: nat)
    requires top + n <= bottom + 1 <= |s|
    ensures RolledDown(s, top, bottom, n) == LoweredBy(s, top, bottom, n, s[bottom + 1 - n..bottom + 1])
  {
  }

  lemma RolledDownContent(was: seq<RowPtr>, rows: seq<Row>, top: nat, bottom: nat, n: nat, x: seq<Row>, rs: set<RowPtr>)
    requires top + n <= bottom + 1 <= |was| == |rows| && |x| == n
    requires Among(was, rs) && Among(RolledDown(was, top, bottom, n), rs)
             && Content(was, rs) == Placed(rows, bottom + 1 - n, x)
    ensures Content(RolledDown(was, top, bottom, n), rs) == LoweredBy(rows, top, bottom, n, x)
  {
    var now, c := RolledDown(was, top, bottom, n), Content(was, rs);
    var at := bottom + 1 - n;
    forall k | 0 <= k < |now| ensures now[k][..] == LoweredBy(rows, top, bottom, n, x)[k] {
      if k < top { assert now[k] == was[k] && c[k] == rows[k]; }
      else if k < top + n { assert now[k] == was[k - top + at] && c[k - top + at] == x[k - top]; }
      else if k <= bottom { assert now[k] == was[k - n] && c[k - n] == rows[k - n]; }
      else { assert now[k] == was[k] && c[k] == rows[k]; }
    }
  }

  /** The rest of the region moved up, and then x put in below it. */
  lemma PlacedTwice<T>(s: seq<T>, top: nat, bottom: nat, n: nat, x: seq<T>)
    requires top + n <= bottom + 1 <= |s| && |x| == n
    ensures Placed(Placed(s, top, s[top + n..bottom + 1]), bottom + 1 - n, x) == RaisedBy(s, top, bottom, n, x)
  {
  }

  lemma RolledIs<T>(s: seq<T>, top: nat, bottom: nat, n: nat)
    requires top + n <= bottom + 1 <= |s|
    ensures Rolled(s, top, bottom, n) == RaisedBy(s, top, bottom, n, s[top..top + n])
  {
  }
}
