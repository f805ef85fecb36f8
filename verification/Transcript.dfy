/** The text of rows as bytes, and when two texts are the same up to blanks at the ends of their lines. */
module Transcript {
  import opened Cells
  import opened Lines
  import opened Scrollback
  import opened Utf8
  import opened Vt
  import opened Reflow

  const SPACE_BYTE: Byte := 0x20

  /* ---- the text of cells ---- */

  function CellText(c: Cell): seq<Byte> {
    if c.cont || c.pad then [] else Encode(Glyph(c))
  }

  function Text(cells: seq<Cell>): seq<Byte>
    decreases |cells|
  {
    if |cells| == 0 then [] else CellText(cells[0]) + Text(cells[1..])
  }

  lemma {:induction false} TextAppend(a: seq<Cell>, b: seq<Cell>)
    ensures Text(a + b) == Text(a) + Text(b)
    decreases |a|
  {
    if |a| == 0 {
      assert a + b == b;
    } else {
      assert (a + b)[1..] == a[1..] + b;
      TextAppend(a[1..], b);
    }
  }

  /** Without the spaces at the end. */
  function Strip(b: seq<Byte>): (r: seq<Byte>)
    ensures |r| <= |b| && r == b[..|r|]
    ensures |r| > 0 ==> r[|r| - 1] != SPACE_BYTE
    ensures forall i :: |r| <= i < |b| ==> b[i] == SPACE_BYTE
    decreases |b|
  {
    if |b| > 0 && b[|b| - 1] == SPACE_BYTE then Strip(b[..|b| - 1]) else b
  }

  function Spaces(n: nat): (r: seq<Byte>)
    ensures |r| == n && forall i :: 0 <= i < n ==> r[i] == SPACE_BYTE
  {
    seq(n, _ => SPACE_BYTE)
  }

  lemma {:induction false} StripSpaces(b: seq<Byte>, n: nat)
    ensures Strip(b + Spaces(n)) == Strip(b)
    decreases n
  {
    if n == 0 {
      assert b + Spaces(n) == b;
    } else {
      assert (b + Spaces(n))[..|b| + n - 1] == b + Spaces(n - 1);
      StripSpaces(b, n - 1);
    }
  }

  lemma StripSplits(b: seq<Byte>)
    ensures b == Strip(b) + Spaces(|b| - |Strip(b)|)
  {
  }

  /** Text that is not too long for the buffer a row is encoded in, and the columns no more than which never have more
      of it. */
  const TEXT_LIMIT := 4092
  const ROW_LIMIT := 1023

  /** The text of a row: all of it if it wraps, else without the spaces at its end, and ended. */
  function WholeText(row: Row, wrapped: bool): seq<Byte> {
    if wrapped then Text(row) else Strip(Text(row)) + [NEWLINE]
  }

  lemma EncodeRowStep(row: Row, c: nat, acc: RowText)
    requires c < |row| && acc.trimmed <= |acc.bytes| < TMP_BYTES - 4
    ensures var bytes := acc.bytes + CellText(row[c]);
            |bytes| < TMP_BYTES && EncodeRow(row, c, acc)
            == EncodeRow(row, c + 1, if row[c].cont || row[c].pad then acc
                                     else RowText(bytes, if Glyph(row[c]) == SPACE then acc.trimmed else |bytes|))
  {
    hide Encode;
  }

  /** bytes[..trimmed] is all but the spaces at the end, before and after a cell's text. */
  lemma StripGrows(b: seq<Byte>, n: nat, c: Cell)
    requires !c.cont && !c.pad && n <= |b| && b[..n] == Strip(b)
    ensures var bytes := b + CellText(c); bytes[..if Glyph(c) == SPACE then n else |bytes|] == Strip(bytes)
  {
    hide Encode;
    EncodedEnd(Glyph(c));
    if Glyph(c) == SPACE {
      assert CellText(c) == Spaces(1);
      StripSpaces(b, 1);
    }
  }

  lemma TextFrom(row: Row, c: nat)
    requires c < |row|
    ensures Text(row[c..]) == CellText(row[c]) + Text(row[c + 1..])
  {
    assert row[c..][1..] == row[c + 1..];
  }

  lemma {:induction false} EncodeRowIs(row: Row, c: nat, acc: RowText)
    requires c <= |row| && |acc.bytes| + |Text(row[c..])| <= TEXT_LIMIT && acc.trimmed <= |acc.bytes|
    requires acc.bytes[..acc.trimmed] == Strip(acc.bytes)
    ensures var t := EncodeRow(row, c, acc);
            t.bytes == acc.bytes + Text(row[c..]) && t.bytes[..t.trimmed] == Strip(t.bytes)
    decreases |row| - c
  {
    hide EncodeRow, Strip, Text, CellText;
    if c == |row| {
      EncodeRowEnd(row, c, acc);
      assert acc.bytes + [] == acc.bytes;
    } else if |acc.bytes| == TEXT_LIMIT {
      EncodeRowFull(row, c, acc);
      assert acc.bytes + [] == acc.bytes;
    } else {
      EncodeRowStep(row, c, acc);
      TextFrom(row, c);
      CellTextLength(row[c]);
      if row[c].cont || row[c].pad {
        EncodeRowIs(row, c + 1, acc);
      } else {
        var bytes := acc.bytes + CellText(row[c]);
        StripGrows(acc.bytes, acc.trimmed, row[c]);
        EncodeRowIs(row, c + 1, RowText(bytes, if Glyph(row[c]) == SPACE then acc.trimmed else |bytes|));
        assert bytes + Text(row[c + 1..]) == acc.bytes + (CellText(row[c]) + Text(row[c + 1..]));
      }
    }
  }

  lemma EncodeRowFull(row: Row, c: nat, acc: RowText)
    requires c <= |row| && acc.trimmed <= |acc.bytes| == TEXT_LIMIT
    ensures EncodeRow(row, c, acc) == acc
  {
  }

  lemma CellTextLength(c: Cell)
    ensures |CellText(c)| <= 4 && (c.cont || c.pad ==> CellText(c) == [])
  {
  }

  lemma EncodeRowEnd(row: Row, c: nat, acc: RowText)
    requires c == |row| && acc.trimmed <= |acc.bytes| < TMP_BYTES
    ensures EncodeRow(row, c, acc) == acc && Text(row[c..]) == []
  {
  }

  lemma EncodedEnd(cp: nat)
    ensures var e := Encode(cp); (e[|e| - 1] == SPACE_BYTE <==> cp == SPACE) && (cp == SPACE ==> e == [SPACE_BYTE])
  {
  }

  /** What a row of not too much text leaves in the history. */
  lemma RowBytesWhole(row: Row, wrapped: bool)
    requires |Text(row)| <= TEXT_LIMIT
    ensures RowBytes(row, wrapped) == WholeText(row, wrapped)
  {
    hide EncodeRow, Text;
    assert row[0..] == row;
    EncodeRowIs(row, 0, RowText([], 0));
    assert [] + Text(row) == Text(row);
  }

  lemma {:induction false} TextLength(row: Row)
    ensures |Text(row)| <= 4 * |row|
    decreases |row|
  {
    hide CellText;
    if |row| > 0 {
      CellTextLength(row[0]);
      TextLength(row[1..]);
    }
  }

  /** What a narrow row leaves: all of it if it wraps, else without the spaces at its end. */
  lemma RowBytesIs(row: Row, wrapped: bool)
    requires |row| <= ROW_LIMIT
    ensures RowBytes(row, wrapped) == if wrapped then Text(row) else Strip(Text(row)) + [NEWLINE]
  {
    hide Text, RowBytes;
    TextLength(row);
    RowBytesWhole(row, wrapped);
  }

  /* ---- rows ---- */

  lemma FrontOfBoth<T>(a: seq<T>, b: seq<T>)
    requires |b| > 0
    ensures var n := |b| - 1; (a + b)[..|a + b| - 1] == a + b[..n] && (a + b)[|a + b| - 1] == b[n]
  {
  }

  lemma NoTexts()
    ensures RowsBytes([], []) == [] && WholeTexts([], []) == []
  {
  }

  /** What rows add to the history, one after the other. */
  function RowsBytes(rows: seq<Row>, flags: seq<bool>): seq<Byte>
    requires |rows| == |flags|
    decreases |rows|
  {
    if |rows| == 0 then []
    else RowsBytes(rows[..|rows| - 1], flags[..|rows| - 1]) + RowBytes(rows[|rows| - 1], flags[|rows| - 1])
  }

  lemma {:induction false} RowsBytesAppend(a: seq<Row>, fa: seq<bool>, b: seq<Row>, fb: seq<bool>)
    requires |a| == |fa| && |b| == |fb|
    ensures RowsBytes(a + b, fa + fb) == RowsBytes(a, fa) + RowsBytes(b, fb)
    decreases |b|
  {
    hide RowBytes, RowsBytes;
    if |b| == 0 {
      assert a + b == a && fa + fb == fa;
      NoTexts();
      assert RowsBytes(a, fa) + [] == RowsBytes(a, fa);
    } else {
      var n := |b| - 1;
      RowsBytesAppend(a, fa, b[..n], fb[..n]);
      RowsBytesSnoc(b, fb);
      RowsBytesSnoc(a + b, fa + fb);
      FrontOfBoth(a, b);
      FrontOfBoth(fa, fb);
    }
  }

  lemma RowsBytesSnoc(rows: seq<Row>, flags: seq<bool>)
    requires 0 < |rows| == |flags|
    ensures var n := |rows| - 1;
            RowsBytes(rows, flags) == RowsBytes(rows[..n], flags[..n]) + RowBytes(rows[n], flags[n])
  {
  }

  /** The text of rows. */
  function WholeTexts(rows: seq<Row>, flags: seq<bool>): seq<Byte>
    requires |rows| == |flags|
    decreases |rows|
  {
    if |rows| == 0 then []
    else WholeTexts(rows[..|rows| - 1], flags[..|rows| - 1]) + WholeText(rows[|rows| - 1], flags[|rows| - 1])
  }

  lemma WholeTextsSnoc(rows: seq<Row>, flags: seq<bool>)
    requires 0 < |rows| == |flags|
    ensures var n := |rows| - 1;
            WholeTexts(rows, flags) == WholeTexts(rows[..n], flags[..n]) + WholeText(rows[n], flags[n])
  {
  }

  lemma {:induction false} WholeTextsAppend(a: seq<Row>, fa: seq<bool>, b: seq<Row>, fb: seq<bool>)
    requires |a| == |fa| && |b| == |fb|
    ensures WholeTexts(a + b, fa + fb) == WholeTexts(a, fa) + WholeTexts(b, fb)
    decreases |b|
  {
    hide WholeText, WholeTexts;
    if |b| == 0 {
      assert a + b == a && fa + fb == fa;
      NoTexts();
      assert WholeTexts(a, fa) + [] == WholeTexts(a, fa);
    } else {
      var n := |b| - 1;
      WholeTextsAppend(a, fa, b[..n], fb[..n]);
      WholeTextsSnoc(b, fb);
      WholeTextsSnoc(a + b, fa + fb);
      FrontOfBoth(a, b);
      FrontOfBoth(fa, fb);
    }
  }

  /** No row has more text than is captured. */
  ghost predicate Short(rows: seq<Row>) {
    forall r :: 0 <= r < |rows| ==> |Text(rows[r])| <= TEXT_LIMIT
  }

  lemma {:induction false} RowsBytesWhole(rows: seq<Row>, flags: seq<bool>)
    requires |rows| == |flags| && Short(rows)
    ensures RowsBytes(rows, flags) == WholeTexts(rows, flags)
    decreases |rows|
  {
    hide RowBytes, WholeText, Text;
    if |rows| > 0 {
      RowsBytesWhole(rows[..|rows| - 1], flags[..|rows| - 1]);
      RowBytesWhole(rows[|rows| - 1], flags[|rows| - 1]);
    }
  }

  /** Rows of up to 1023 columns never have. */
  lemma NarrowIsShort(rows: seq<Row>)
    requires forall r :: 0 <= r < |rows| ==> |rows[r]| <= ROW_LIMIT
    ensures Short(rows)
  {
    hide Text;
    forall r | 0 <= r < |rows| ensures |Text(rows[r])| <= TEXT_LIMIT { TextLength(rows[r]); }
  }

  /** While there is room, the history grows by the text of the rows that go into it. */
  lemma {:induction false} CaptureAppends(text: seq<Byte>, rows: seq<Row>, flags: seq<bool>)
    requires |rows| == |flags| && |text| + |RowsBytes(rows, flags)| <= SCROLLBACK_BYTES
    ensures CaptureRows(History(text), rows, flags) == History(text + RowsBytes(rows, flags))
    decreases |rows|
  {
    hide RowBytes;
    if |rows| == 0 {
      assert text + [] == text;
    } else {
      var n := |rows| - 1;
      CaptureAppends(text, rows[..n], flags[..n]);
      assert text + (RowsBytes(rows[..n], flags[..n]) + RowBytes(rows[n], flags[n]))
          == text + RowsBytes(rows[..n], flags[..n]) + RowBytes(rows[n], flags[n]);
    }
  }

  /* ---- the same text ---- */

  /** The spaces at the end of each line taken off. */
  function Norm(b: seq<Byte>): (r: seq<Byte>)
    ensures |b| == 0 ==> |r| == 0
    decreases |b|
  {
    if |b| == 0 then []
    else
      var last := b[|b| - 1];
      (if last == NEWLINE then Strip(Norm(b[..|b| - 1])) else Norm(b[..|b| - 1])) + [last]
  }

  lemma NormSnoc(b: seq<Byte>, c: Byte)
    ensures Norm(b + [c]) == (if c == NEWLINE then Strip(Norm(b)) else Norm(b)) + [c]
  {
    assert (b + [c])[..|b|] == b;
  }

  lemma {:induction false} NormSpaces(b: seq<Byte>, n: nat)
    ensures Norm(b + Spaces(n)) == Norm(b) + Spaces(n)
    decreases n
  {
    hide Norm;
    if n == 0 {
      assert b + Spaces(n) == b && Norm(b) + Spaces(n) == Norm(b);
    } else {
      NormSpaces(b, n - 1);
      NormSnoc(b + Spaces(n - 1), SPACE_BYTE);
      assert b + Spaces(n) == b + Spaces(n - 1) + [SPACE_BYTE];
      assert Norm(b) + Spaces(n) == Norm(b) + Spaces(n - 1) + [SPACE_BYTE];
    }
  }

  ghost predicate SameText(a: seq<Byte>, b: seq<Byte>) {
    Norm(a) == Norm(b)
  }

  /** The same text stays the same with the same text after it ... */
  lemma {:induction false} SameTextRight(a: seq<Byte>, b: seq<Byte>, u: seq<Byte>)
    requires SameText(a, b)
    ensures SameText(a + u, b + u)
    decreases |u|
  {
    hide Norm;
    if |u| == 0 {
      assert a + u == a && b + u == b;
    } else {
      var v, c := u[..|u| - 1], u[|u| - 1];
      SameTextRight(a, b, v);
      NormSnoc(a + v, c);
      NormSnoc(b + v, c);
      assert a + u == a + v + [c] && b + u == b + v + [c];
    }
  }

  lemma NormStrip(t: seq<Byte>, w: seq<Byte>)
    ensures Strip(Norm(t + Strip(w))) == Strip(Norm(t + w))
  {
    hide Norm, Strip;
    var x, n := Strip(w), |w| - |Strip(w)|;
    StripSplits(w);
    NormSpaces(t + x, n);
    assert t + x + Spaces(n) == t + w;
    StripSpaces(Norm(t + x), n);
  }

  lemma {:induction false} NormInside(t: seq<Byte>, u: seq<Byte>)
    ensures Norm(t + Norm(u)) == Norm(t + u)
    decreases |u|
  {
    hide Norm, Strip;
    if |u| == 0 {
      NormNothing(u);
      assert t + Norm(u) == t + u;
    } else {
      var v, c := u[..|u| - 1], u[|u| - 1];
      NormInside(t, v);
      NormSnoc(v, c);
      NormSnoc(t + v, c);
      assert u == v + [c] && t + u == t + v + [c];
      var w := if c == NEWLINE then Strip(Norm(v)) else Norm(v);
      if c == NEWLINE { NormStrip(t, Norm(v)); }
      NormSnoc(t + w, c);
      assert t + Norm(u) == t + w + [c];
    }
  }

  lemma NormNothing(u: seq<Byte>)
    requires u == []
    ensures Norm(u) == []
  {
  }

  /** ... and before it. */
  lemma SameTextLeft(t: seq<Byte>, a: seq<Byte>, b: seq<Byte>)
    requires SameText(a, b)
    ensures SameText(t + a, t + b)
  {
    NormInside(t, a);
    NormInside(t, b);
  }

  lemma SameTextJoin(a: seq<Byte>, b: seq<Byte>, c: seq<Byte>, d: seq<Byte>)
    requires SameText(a, b) && SameText(c, d)
    ensures SameText(a + c, b + d)
  {
    SameTextRight(a, b, c);
    SameTextLeft(b, c, d);
  }

  /** Spaces in front of a newline do not matter. */
  lemma SpacesBeforeNewline(b: seq<Byte>, n: nat)
    ensures SameText(b + Spaces(n) + [NEWLINE], b + [NEWLINE])
  {
    NormSpaces(b, n);
    NormSnoc(b + Spaces(n), NEWLINE);
    NormSnoc(b, NEWLINE);
    StripSpaces(Norm(b), n);
  }

  /** The text up to the blank lines at its end. */
  function Ended(b: seq<Byte>): (r: seq<Byte>)
    decreases |b|
  {
    if |b| > 0 && (b[|b| - 1] == NEWLINE || b[|b| - 1] == SPACE_BYTE) then Ended(b[..|b| - 1]) else b
  }

  lemma {:induction false} EndedStrip(b: seq<Byte>)
    ensures Ended(Strip(b)) == Ended(b)
    decreases |b|
  {
    if |b| > 0 && b[|b| - 1] == SPACE_BYTE { EndedStrip(b[..|b| - 1]); }
  }

  /** The same lines, but for blanks at their ends and blank lines after the last. */
  ghost predicate SameLines(a: seq<Byte>, b: seq<Byte>) {
    Ended(Norm(a)) == Ended(Norm(b))
  }

  lemma NewlineAtEnd(b: seq<Byte>)
    ensures SameLines(b + [NEWLINE], b)
  {
    NormSnoc(b, NEWLINE);
    EndedStrip(Norm(b));
    var r := Strip(Norm(b)) + [NEWLINE];
    assert r[..|r| - 1] == Strip(Norm(b));
  }

  /* ---- how much is written ---- */

  /** How many bytes are neither spaces nor newlines. */
  function Weight(b: seq<Byte>): nat
    decreases |b|
  {
    if |b| == 0 then 0
    else Weight(b[..|b| - 1]) + (if b[|b| - 1] == SPACE_BYTE || b[|b| - 1] == NEWLINE then 0 else 1)
  }

  lemma WeightSnoc(b: seq<Byte>, c: Byte)
    ensures Weight(b + [c]) == Weight(b) + (if c == SPACE_BYTE || c == NEWLINE then 0 else 1)
  {
    assert (b + [c])[..|b|] == b;
  }

  lemma {:induction false} WeightAppend(a: seq<Byte>, b: seq<Byte>)
    ensures Weight(a + b) == Weight(a) + Weight(b)
    decreases |b|
  {
    if |b| == 0 {
      assert a + b == a;
    } else {
      assert (a + b)[..|a + b| - 1] == a + b[..|b| - 1];
      WeightAppend(a, b[..|b| - 1]);
    }
  }

  lemma {:induction false} WeightStrip(b: seq<Byte>)
    ensures Weight(Strip(b)) == Weight(b)
    decreases |b|
  {
    if |b| > 0 && b[|b| - 1] == SPACE_BYTE { WeightStrip(b[..|b| - 1]); }
  }

  lemma {:induction false} WeightNorm(b: seq<Byte>)
    ensures Weight(Norm(b)) == Weight(b)
    decreases |b|
  {
    if |b| > 0 {
      var v, c := b[..|b| - 1], b[|b| - 1];
      WeightNorm(v);
      WeightStrip(Norm(v));
      WeightSnoc(if c == NEWLINE then Strip(Norm(v)) else Norm(v), c);
    }
  }

  lemma {:induction false} WeightEnded(b: seq<Byte>)
    ensures Weight(Ended(b)) == Weight(b)
    decreases |b|
  {
    if |b| > 0 && (b[|b| - 1] == NEWLINE || b[|b| - 1] == SPACE_BYTE) { WeightEnded(b[..|b| - 1]); }
  }

  /** The same lines hold as much. */
  lemma SameWeight(a: seq<Byte>, b: seq<Byte>)
    requires SameLines(a, b)
    ensures Weight(a) == Weight(b)
  {
    hide Weight, Ended, Norm;
    WeightNorm(a);
    WeightNorm(b);
    WeightEnded(Norm(a));
    WeightEnded(Norm(b));
  }
}
