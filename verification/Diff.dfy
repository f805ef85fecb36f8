/** How much of a screen differs from the shadow, and where rows have moved to (tmux/render.c). */
module Diff {
  import opened Bits
  import opened Cells
  import opened Shadow

  /** src_row: the shadow row that row r is drawn over when the shadow moves up by shift; -1 for a new row. */
  function SrcRow(r: int, shift: int, rows: nat): int {
    if 0 <= r + shift < rows then r + shift else -1
  }

  /** The row that row r is drawn over. */
  function Source(shadow: seq<Row>, r: int, shift: int, rows: nat, cols: nat): (row: Row)
    requires rows <= |shadow|
  {
    var src := SrcRow(r, shift, rows);
    if src < 0 then BlankRow(cols, BLANK) else shadow[src]
  }

  /** How many of the first c cells of a row would be sent. */
  function RowChanged(want: Row, over: Row, c: nat): nat
    requires c <= |want| == |over|
  {
    if c == 0 then 0
    else RowChanged(want, over, c - 1) + (if !want[c - 1].cont && !CellsEq(want[c - 1], over[c - 1]) then 1 else 0)
  }

  ghost predicate Rectangle(g: seq<Row>, rows: nat, cols: nat) {
    rows <= |g| && forall r :: 0 <= r < rows ==> |g[r]| == cols
  }

  /** How many cells of the first r rows would be sent. */
  ghost function Changed(want: seq<Row>, shadow: seq<Row>, rows: nat, cols: nat, shift: int, r: nat): nat
    requires Rectangle(want, rows, cols) && Rectangle(shadow, rows, cols) && r <= rows
  {
    if r == 0 then 0
    else Changed(want, shadow, rows, cols, shift, r - 1)
         + RowChanged(want[r - 1], Source(shadow, r - 1, shift, rows, cols), cols)
  }

  method CountRow(want: Row, over: Row) returns (n: nat)
    requires |want| == |over|
    ensures n == RowChanged(want, over, |want|)
  {
    n := 0;
    for c := 0 to |want|
      invariant n == RowChanged(want, over, c)
    {
      if want[c].cont { continue; }
      if !CellsEq(want[c], over[c]) { n := n + 1; }
    }
  }

  /** count_changed. */
  method CountChanged(want: seq<Row>, shadow: array<Row>, rows: nat, cols: nat, shift: int) returns (n: nat)
    requires Rectangle(want, rows, cols) && Rectangle(shadow[..], rows, cols)
    ensures n == Changed(want, shadow[..], rows, cols, shift, rows)
  {
    hide RowChanged;
    n := 0;
    for r := 0 to rows
      invariant n == Changed(want, shadow[..], rows, cols, shift, r)
    {
      var src := SrcRow(r, shift, rows);
      assert |want[r]| == cols && (src >= 0 ==> |shadow[..][src]| == cols);
      var k := CountRow(want[r], if src < 0 then BlankRow(cols, BLANK) else shadow[src]);
      n := n + k;
    }
  }

  lemma {:induction false} RowUnchanged(want: Row, over: Row, c: nat)
    requires c <= |want| == |over|
    ensures RowChanged(want, over, c) == 0 <==> forall k :: 0 <= k < c && !want[k].cont ==> CellsEq(want[k], over[k])
  {
    if c > 0 { RowUnchanged(want, over, c - 1); }
  }

  /** A count of 0 says that no cell would be sent, and the other way round. */
  lemma {:induction false} Unchanged(want: seq<Row>, shadow: seq<Row>, rows: nat, cols: nat, r: nat)
    requires Rectangle(want, rows, cols) && Rectangle(shadow, rows, cols) && r <= rows
    ensures Changed(want, shadow, rows, cols, 0, r) == 0 <==>
            forall i, k :: 0 <= i < r && 0 <= k < cols && !want[i][k].cont ==> CellsEq(want[i][k], shadow[i][k])
  {
    if r > 0 {
      Unchanged(want, shadow, rows, cols, r - 1);
      RowUnchanged(want[r - 1], shadow[r - 1], cols);
      if Changed(want, shadow, rows, cols, 0, r) == 0 {
        forall i, k | 0 <= i < r && 0 <= k < cols && !want[i][k].cont ensures CellsEq(want[i][k], shadow[i][k]) {
          if i == r - 1 { assert want[r - 1] == want[i]; }
        }
      }
    }
  }

  /** Rows that are all recorded leave nothing to send. */
  lemma RecordedUnchanged(want: seq<Row>, shadow: seq<Row>, rows: nat, cols: nat)
    requires Rectangle(want, rows, cols) && Rectangle(shadow, rows, cols)
    requires forall r :: 0 <= r < rows ==> Recorded(want[r], shadow[r], cols)
    ensures Changed(want, shadow, rows, cols, 0, rows) == 0
  {
    hide CellsEq, Changed;
    Unchanged(want, shadow, rows, cols, rows);
    forall i, k | 0 <= i < rows && 0 <= k < cols && !want[i][k].cont ensures CellsEq(want[i][k], shadow[i][k]) {
      assert Recorded(want[i], shadow[i], cols);
    }
  }

  /* ---- the shadow moved ---- */

  /** The first `rows` rows moved up by shift (down if it is negative), blank rows coming in. */
  function Scrolled(shadow: seq<Row>, rows: nat, cols: nat, shift: int): (g: seq<Row>)
    requires rows <= |shadow|
    ensures |g| == |shadow|
    ensures forall r :: rows <= r < |shadow| ==> g[r] == shadow[r]
  {
    seq(|shadow|, r requires 0 <= r < |shadow| =>
      if r < rows then Source(shadow, r, shift, rows, cols) else shadow[r])
  }

  /** The count made before a scroll is the count of what is left to send after it. */
  lemma {:induction false} CountAfterScroll(want: seq<Row>, shadow: seq<Row>, rows: nat, cols: nat, shift: int, r: nat)
    requires Rectangle(want, rows, cols) && Rectangle(shadow, rows, cols) && r <= rows
    ensures Rectangle(Scrolled(shadow, rows, cols, shift), rows, cols)
    ensures Changed(want, Scrolled(shadow, rows, cols, shift), rows, cols, 0, r)
            == Changed(want, shadow, rows, cols, shift, r)
  {
    if r > 0 { CountAfterScroll(want, shadow, rows, cols, shift, r - 1); }
  }

  /* ---- rotation in place ---- */

  /** s with s[lo..hi) back to front. */
  ghost function Reversed<T>(s: seq<T>, lo: nat, hi: nat): (r: seq<T>)
    requires lo <= hi <= |s|
    ensures |r| == |s|
    ensures forall k :: 0 <= k < |s| ==> r[k] == if lo <= k < hi then s[lo + hi - 1 - k] else s[k]
  {
    seq(|s|, k requires 0 <= k < |s| => if lo <= k < hi then s[lo + hi - 1 - k] else s[k])
  }

  /** The first n elements rotated left by k. */
  ghost function Rotated<T>(s: seq<T>, n: nat, k: nat): (r: seq<T>)
    requires k <= n <= |s|
    ensures |r| == |s|
    ensures forall i :: 0 <= i < |s| ==> r[i] == if i < n - k then s[i + k] else if i < n then s[i + k - n] else s[i]
  {
    seq(|s|, i requires 0 <= i < |s| => if i < n - k then s[i + k] else if i < n then s[i + k - n] else s[i])
  }

  lemma ThreeReversals<T>(s: seq<T>, n: nat, k: nat)
    requires k <= n <= |s|
    ensures Reversed(Reversed(Reversed(s, 0, k), k, n), 0, n) == Rotated(s, n, k)
  {
    var left, right := Reversed(Reversed(Reversed(s, 0, k), k, n), 0, n), Rotated(s, n, k);
    forall i | 0 <= i < |s| ensures left[i] == right[i] { ReversedThriceAt(s, n, k, i); }
    assert |left| == |right|;
  }

  lemma ReversedThriceAt<T>(s: seq<T>, n: nat, k: nat, i: nat)
    requires k <= n <= |s| && i < |s|
    ensures Reversed(Reversed(Reversed(s, 0, k), k, n), 0, n)[i] == Rotated(s, n, k)[i]
  {
    hide *;
    var j := if i < n then n - 1 - i else i;
    var l := if k <= j < n then k + n - 1 - j else j;
    ReversedAt(Reversed(Reversed(s, 0, k), k, n), 0, n, i);
    ReversedAt(Reversed(s, 0, k), k, n, j);
    ReversedAt(s, 0, k, l);
    RotatedAt(s, n, k, i);
  }

  lemma ReversedAt<T>(s: seq<T>, lo: nat, hi: nat, k: nat)
    requires lo <= hi <= |s| && k < |s|
    ensures Reversed(s, lo, hi)[k] == if lo <= k < hi then s[lo + hi - 1 - k] else s[k]
  {
  }

  lemma RotatedAt<T>(s: seq<T>, n: nat, k: nat, i: nat)
    requires k <= n <= |s| && i < |s|
    ensures Rotated(s, n, k)[i] == if i < n - k then s[i + k] else if i < n then s[i + k - n] else s[i]
  {
  }

  method ReverseRange<T>(a: array<T>, lo: nat, hi: nat)
    requires lo <= hi <= a.Length
    modifies a
    ensures a[..] == Reversed(old(a[..]), lo, hi)
  {
    var i, j := lo, hi - 1;
    while i < j
      invariant lo <= i <= j + 1 <= hi && i + j == lo + hi - 1
      invariant forall k :: lo <= k < i || j < k < hi ==> a[k] == old(a[lo + hi - 1 - k])
      invariant forall k :: (0 <= k < lo || i <= k <= j || hi <= k < a.Length) ==> a[k] == old(a[k])
    {
      a[i], a[j] := a[j], a[i];
      i, j := i + 1, j - 1;
    }
  }

  /** rotate_cells, rotate_flags: a[0..n) rotated left by k, by three reversals. */
  method Rotate<T>(a: array<T>, n: nat, k: nat)
    requires k <= n <= a.Length
    modifies a
    ensures a[..] == Rotated(old(a[..]), n, k)
  {
    ThreeReversals(a[..], n, k);
    ReverseRange(a, 0, k);
    ReverseRange(a, k, n);
    ReverseRange(a, 0, n);
  }

  /** Elements from..to-1 replaced by v. */
  ghost function Filled<T>(s: seq<T>, from: nat, to: nat, v: T): (r: seq<T>)
    requires from <= to <= |s|
    ensures |r| == |s|
    ensures forall i :: 0 <= i < |s| ==> r[i] == if from <= i < to then v else s[i]
  {
    seq(|s|, i requires 0 <= i < |s| => if from <= i < to then v else s[i])
  }

  /** How far left to rotate, and the first of the rows that come in blank. */
  function LeftOf(rows: nat, shift: int): int { if shift > 0 then shift else rows + shift }
  function FirstOf(rows: nat, shift: int): int { if shift > 0 then rows - shift else 0 }
  function Abs(x: int): nat { if x < 0 then -x else x }

  /** The wrap flags moved as the rows are. */
  function ScrolledFlags(flags: seq<bool>, rows: nat, shift: int): (f: seq<bool>)
    requires rows <= |flags|
    ensures |f| == |flags|
  {
    seq(|flags|, r requires 0 <= r < |flags| =>
      if r < rows then SrcRow(r, shift, rows) >= 0 && flags[SrcRow(r, shift, rows)] else flags[r])
  }

  /** Rotating and blanking moves the rows as deleting or inserting lines does. */
  lemma RotationScrolls(shadow: seq<Row>, rows: nat, cols: nat, shift: int)
    requires rows <= |shadow| && 0 < Abs(shift) < rows
    ensures var first := FirstOf(rows, shift);
            Filled(Rotated(shadow, rows, LeftOf(rows, shift)), first, first + Abs(shift), BlankRow(cols, BLANK))
            == Scrolled(shadow, rows, cols, shift)
  {
  }

  lemma RotationScrollsFlags(flags: seq<bool>, rows: nat, shift: int)
    requires rows <= |flags| && 0 < Abs(shift) < rows
    ensures var first := FirstOf(rows, shift);
            Filled(Rotated(flags, rows, LeftOf(rows, shift)), first, first + Abs(shift), false)
            == ScrolledFlags(flags, rows, shift)
  {
  }

  /* ---- row hashes ---- */

  const WORD := 0x1_0000_0000

  function Bit(b: bool, v: nat): nat { if b then v else 0 }

  function AttrByte(attrs: set<Attr>): nat {
    Bit(Bold in attrs, 1) + Bit(Dim in attrs, 2) + Bit(Italic in attrs, 4) + Bit(Underline in attrs, 8)
    + Bit(Blink in attrs, 16) + Bit(Reverse in attrs, 32) + Bit(Invis in attrs, 64) + Bit(Strike in attrs, 128)
  }

  function FlagByte(wide: bool, cont: bool, fgDfl: bool, bgDfl: bool, pad: bool): nat {
    Bit(wide, 1) + Bit(cont, 2) + Bit(fgDfl, 4) + Bit(bgDfl, 8) + Bit(pad, 16)
  }

  function Mix(h: nat, x: nat): nat { (h * 31 + x) % WORD }

  function Fnv(h: nat, x: nat): nat { Xor(h, x) * 16777619 % WORD }

  /** cell_hash: cells that compare equal are told apart by nothing in it. */
  function CellHash(c: Cell): nat {
    var fg := if c.fgDfl then 0xffff else c.fg;
    var bg := if c.bgDfl then 0xffff else c.bg;
    Mix(Mix(Mix(Mix(Glyph(c), fg), bg), AttrByte(c.attrs)), FlagByte(c.wide, c.cont, c.fgDfl, c.bgDfl, c.pad))
  }

  function HashOf(row: Row, c: nat): nat
    requires c <= |row|
  {
    if c == 0 then 2166136261 else Fnv(HashOf(row, c - 1), CellHash(row[c - 1]))
  }

  /** row_hash. */
  method RowHash(row: Row) returns (h: nat)
    ensures h == HashOf(row, |row|)
  {
    hide CellHash, Fnv;
    h := 2166136261;
    for c := 0 to |row|
      invariant h == HashOf(row, c)
    {
      h := Fnv(h, CellHash(row[c]));
    }
  }

  lemma EqualCellsHashAlike(a: Cell, b: Cell)
    requires CellsEq(a, b)
    ensures CellHash(a) == CellHash(b)
  {
    hide Mix, AttrByte, FlagByte;
  }

  /** A row that moved without changing is never missed: cells that compare equal hash alike. */
  lemma {:induction false} EqualRowsHashAlike(a: Row, b: Row, c: nat)
    requires c <= |a| == |b| && forall k :: 0 <= k < c ==> CellsEq(a[k], b[k])
    ensures HashOf(a, c) == HashOf(b, c)
  {
    hide Fnv, CellHash, CellsEq;
    if c > 0 {
      EqualRowsHashAlike(a, b, c - 1);
      EqualCellsHashAlike(a[c - 1], b[c - 1]);
    }
  }

  /** How many of the first r rows come from a row of the same hash when the terminal is scrolled by `shift`. */
  function Matches(hnew: seq<nat>, hold: seq<nat>, shift: int, r: nat): nat
    requires r <= |hnew| == |hold|
  {
    if r == 0 then 0
    else
      var src := SrcRow(r - 1, shift, |hold|);
      Matches(hnew, hold, shift, r - 1) + if src >= 0 && hold[src] == hnew[r - 1] then 1 else 0
  }

  method CountMatches(hnew: array<nat>, hold: array<nat>, shift: int) returns (n: nat)
    requires hnew.Length == hold.Length
    ensures n == Matches(hnew[..], hold[..], shift, hnew.Length)
  {
    n := 0;
    for r := 0 to hnew.Length
      invariant n == Matches(hnew[..], hold[..], shift, r)
    {
      var src := SrcRow(r, shift, hold.Length);
      if src >= 0 && hold[src] == hnew[r] { n := n + 1; }
    }
  }

  /** The shift that most rows have moved by, 0 if it is not two rows at least. */
  method MostMatches(hnew: array<nat>, hold: array<nat>) returns (best: int)
    requires hnew.Length == hold.Length > 0
    ensures Abs(best) < hnew.Length
    ensures best != 0 ==> Matches(hnew[..], hold[..], best, hnew.Length) >= 2
    ensures best != 0 ==> forall k :: 0 < Abs(k) < hnew.Length ==>
                            Matches(hnew[..], hold[..], k, hnew.Length)
                              <= Matches(hnew[..], hold[..], best, hnew.Length)
    ensures best == 0 ==> forall k :: 0 < Abs(k) < hnew.Length ==> Matches(hnew[..], hold[..], k, hnew.Length) < 2
  {
    hide Matches;
    var rows := hnew.Length;
    ghost var a, b := hnew[..], hold[..];
    best := 0;
    var bestMatches := 0;
    for d := 1 to rows
      invariant Abs(best) < rows && (best == 0 ==> bestMatches == 0)
                && (best != 0 ==> bestMatches == Matches(a, b, best, rows))
      invariant forall k :: 0 < Abs(k) < d ==> Matches(a, b, k, rows) <= bestMatches
    {
      var sign := 1;
      while sign >= -1
        invariant sign == 1 || sign == -1 || sign == -3
        invariant Abs(best) < rows && (best == 0 ==> bestMatches == 0)
                  && (best != 0 ==> bestMatches == Matches(a, b, best, rows))
        invariant forall k :: 0 < Abs(k) < d ==> Matches(a, b, k, rows) <= bestMatches
        invariant (sign < 1 ==> Matches(a, b, d, rows) <= bestMatches)
                  && (sign < -1 ==> Matches(a, b, -d, rows) <= bestMatches)
        decreases sign + 3
      {
        var shift := sign * d;
        var matches := CountMatches(hnew, hold, shift);
        if matches > bestMatches { bestMatches, best := matches, shift; }
        sign := sign - 2;
      }
    }
    if bestMatches < 2 { best := 0; }
  }
}
