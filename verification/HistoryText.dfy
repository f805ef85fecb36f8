/** The history's text read back: decode_text undoes the encoding of scrollback_capture (_lib/vt.c). */
module HistoryText {
  import opened Cells
  import opened Lines
  import opened Scrollback
  import opened Utf8
  import opened Vt
  import opened Reflow
  import opened ReflowSteps
  import opened Transcript
  import opened ReflowText
  import Width

  const CODE_LIMIT := 0x20_0000

  /** A character that takes columns, or a newline. */
  predicate Keepable(cp: nat) {
    0 < cp < CODE_LIMIT && Width.CpWidth(cp) >= 1
  }

  /** The encoding of characters that take columns, one after the other. */
  ghost predicate WellFormed(b: seq<Byte>)
    decreases |b|
  {
    |b| == 0
    || (exists cp: nat :: StartsWith(b, cp) && WellFormed(b[|Encode(cp)|..]))
  }

  ghost predicate StartsWith(b: seq<Byte>, cp: nat) {
    Keepable(cp) && |Encode(cp)| <= |b| && b[..|Encode(cp)|] == Encode(cp)
  }

  /* ---- reading a character back ---- */

  lemma AddOne(cp: nat, b: seq<Byte>)
    requires |b| >= 1
    ensures AddBytes(cp, b, 1) == cp * 64 + b[0] % 64
  {
    assert AddBytes(cp, b, 0) == cp;
  }

  lemma AddTwo(cp: nat, b: seq<Byte>)
    requires |b| >= 2
    ensures AddBytes(cp, b, 2) == (cp * 64 + b[0] % 64) * 64 + b[1] % 64
  {
    AddOne(cp, b);
  }

  lemma AddThree(cp: nat, b: seq<Byte>)
    requires |b| >= 3
    ensures AddBytes(cp, b, 3) == ((cp * 64 + b[0] % 64) * 64 + b[1] % 64) * 64 + b[2] % 64
  {
    AddTwo(cp, b);
  }

  lemma FirstCodeTwo(b: seq<Byte>, cp: nat)
    requires 0x80 <= cp < 0x800 && |b| >= 2 && b[0] == 0xC0 + cp / 64 && b[1] == 0x80 + cp % 64
    ensures CharLength(b) == 2 && FirstCode(b) == cp
  {
    hide AddBytes;
    AddOne(LeadBits(b[0]), b[1..]);
    assert b[1..][0] == b[1];
  }

  lemma FirstCodeThree(b: seq<Byte>, cp: nat)
    requires 0x800 <= cp < 0x1_0000 && |b| >= 3
    requires b[0] == 0xE0 + cp / 4096 && b[1] == 0x80 + cp / 64 % 64 && b[2] == 0x80 + cp % 64
    ensures CharLength(b) == 3 && FirstCode(b) == cp
  {
    hide AddBytes;
    AddTwo(LeadBits(b[0]), b[1..]);
    assert b[1..][0] == b[1] && b[1..][1] == b[2];
    ThreeDigits(cp);
  }

  lemma FirstCodeFour(b: seq<Byte>, cp: nat)
    requires 0x1_0000 <= cp < CODE_LIMIT && |b| >= 4
    requires b[0] == 0xF0 + cp / 262144 % 16 && b[1] == 0x80 + cp / 4096 % 64 && b[2] == 0x80 + cp / 64 % 64
             && b[3] == 0x80 + cp % 64
    ensures CharLength(b) == 4 && FirstCode(b) == cp
  {
    hide AddBytes;
    FourDigits(cp);
    var d0, d1, d2, d3 := cp / 262144, cp / 4096 % 64, cp / 64 % 64, cp % 64;
    FourLead(b[0], d0);
    AddThree(d0, b[1..]);
    LowDigit(b[1], d1);
    LowDigit(b[2], d2);
    LowDigit(b[3], d3);
    assert b[1..][0] == b[1] && b[1..][1] == b[2] && b[1..][2] == b[3];
  }

  lemma FourLead(b0: Byte, d: nat)
    requires d < 8 && b0 == 0xF0 + d
    ensures LeadLength(b0) == 4 && LeadBits(b0) == d
  {
  }

  lemma LowDigit(c: Byte, d: nat)
    requires d < 64 && c == 0x80 + d
    ensures c % 64 == d
  {
  }

  lemma FirstCodeIs(b: seq<Byte>, cp: nat)
    requires cp < CODE_LIMIT && |Encode(cp)| <= |b| && b[..|Encode(cp)|] == Encode(cp)
    ensures |b| > 0 && CharLength(b) == |Encode(cp)| && FirstCode(b) == cp
  {
    hide FirstCode, CharLength;
    var e := Encode(cp);
    assert forall i :: 0 <= i < |e| ==> b[i] == b[..|e|][i] == e[i];
    if cp < 0x80 { FirstCodeShort(b, cp); }
    else if cp < 0x800 { FirstCodeTwo(b, cp); }
    else if cp < 0x1_0000 { FirstCodeThree(b, cp); }
    else { FirstCodeFour(b, cp); }
  }

  lemma FirstCodeShort(b: seq<Byte>, cp: nat)
    requires cp < 0x80 && |b| > 0 && b[0] == cp
    ensures CharLength(b) == 1 && FirstCode(b) == cp
  {
  }

  lemma ThreeDigits(cp: nat)
    requires cp < 0x1_0000
    ensures (cp / 4096 * 64 + cp / 64 % 64) * 64 + cp % 64 == cp
  {
    assert cp / 4096 == cp / 64 / 64;
  }

  lemma FourDigits(cp: nat)
    requires cp < CODE_LIMIT
    ensures ((cp / 262144 * 64 + cp / 4096 % 64) * 64 + cp / 64 % 64) * 64 + cp % 64 == cp
    ensures cp / 262144 < 8
  {
    assert cp / 4096 == cp / 64 / 64 && cp / 262144 == cp / 4096 / 64;
  }

  /** What put_char would have stored shows as the character it was decoded from. */
  lemma CharCellsText(cp: nat)
    requires Keepable(cp)
    ensures Text(CharCells(cp)) == Encode(cp)
  {
    hide Encode;
    var s := CharCells(cp);
    TextOne(s[0]);
    assert CellText(s[0]) == Encode(cp);
    if |s| == 2 {
      assert s == [s[0]] + [s[1]];
      TextAppend([s[0]], [s[1]]);
      TextOne(s[1]);
      assert Encode(cp) + [] == Encode(cp);
    } else {
      assert s == [s[0]];
    }
  }

  /** Text decoded to cells and encoded again. */
  lemma {:induction false} TextOfDecoded(b: seq<Byte>)
    requires WellFormed(b)
    ensures Text(DecodeText(b)) == b
    decreases |b|
  {
    hide Encode, Text, FirstCode, CharLength, CharCells, Keepable;
    if |b| == 0 {
      TextOne(BLANK);
    } else {
      var cp: nat :| StartsWith(b, cp) && WellFormed(b[|Encode(cp)|..]);
      var rest := b[|Encode(cp)|..];
      KeepableSmall(cp);
      FirstCodeIs(b, cp);
      TextOfDecoded(rest);
      TextAppend(CharCells(cp), DecodeText(rest));
      CharCellsText(cp);
      assert b == Encode(cp) + rest;
    }
  }

  lemma KeepableSmall(cp: nat)
    requires Keepable(cp)
    ensures cp < CODE_LIMIT
  {
  }

  /* ---- well-formed text ---- */

  lemma FirstOf(b: seq<Byte>) returns (cp: nat)
    requires WellFormed(b) && |b| > 0
    ensures StartsWith(b, cp) && WellFormed(b[|Encode(cp)|..])
  {
    cp :| StartsWith(b, cp) && WellFormed(b[|Encode(cp)|..]);
  }

  lemma WellFormedCons(b: seq<Byte>, cp: nat)
    requires StartsWith(b, cp) && WellFormed(b[|Encode(cp)|..])
    ensures WellFormed(b)
  {
  }

  lemma {:induction false} WellFormedAppend(a: seq<Byte>, b: seq<Byte>)
    requires WellFormed(a) && WellFormed(b)
    ensures WellFormed(a + b)
    decreases |a|
  {
    hide Encode, Keepable, WellFormed;
    if |a| == 0 {
      assert a + b == b;
    } else {
      var cp := FirstOf(a);
      var n := |Encode(cp)|;
      WellFormedAppend(a[n..], b);
      assert (a + b)[n..] == a[n..] + b && (a + b)[..n] == a[..n];
      assert StartsWith(a + b, cp);
      WellFormedCons(a + b, cp);
    }
  }

  lemma WellFormedOne(cp: nat)
    requires Keepable(cp)
    ensures WellFormed(Encode(cp))
  {
    hide Encode, Keepable;
    var e := Encode(cp);
    assert e[..|e|] == e && StartsWith(e, cp);
    assert WellFormed(e[|e|..]);
  }

  /** A newline is a byte of no other character. */
  lemma NewlineAlone(cp: nat)
    ensures NEWLINE in Encode(cp) ==> |Encode(cp)| == 1
  {
  }

  /** Lines cut out of well-formed text are well formed. */
  lemma {:induction false} WellFormedCut(b: seq<Byte>, k: nat)
    requires WellFormed(b) && k < |b| && b[k] == NEWLINE
    ensures WellFormed(b[..k]) && WellFormed(b[k + 1..])
    decreases |b|
  {
    hide Encode, Keepable, WellFormed;
    var cp := FirstOf(b);
    var n := |Encode(cp)|;
    NewlineAlone(cp);
    if k < n {
      assert Encode(cp)[k] == b[..n][k] == NEWLINE;
      NothingWellFormed();
      assert b[..0] == [];
    } else {
      assert b[n..][k - n] == NEWLINE;
      WellFormedCut(b[n..], k - n);
      CutAfterFirst(b, k, cp);
    }
  }

  lemma CutAfterFirst(b: seq<Byte>, k: nat, cp: nat)
    requires StartsWith(b, cp) && |Encode(cp)| <= k < |b|
    requires WellFormed(b[|Encode(cp)|..][..k - |Encode(cp)|])
    ensures WellFormed(b[..k]) && b[|Encode(cp)|..][k - |Encode(cp)| + 1..] == b[k + 1..]
  {
    hide Encode, Keepable, WellFormed;
    var n := |Encode(cp)|;
    assert b[n..][..k - n] == b[..k][n..];
    assert b[..k][..n] == b[..n];
    WellFormedCons(b[..k], cp);
  }

  lemma NoLines()
    ensures LinesText([]) == []
  {
  }

  lemma LinesTextCons(ln: seq<Cell>, lines: seq<seq<Cell>>)
    ensures LinesText([ln] + lines) == Text(ln) + [NEWLINE] + LinesText(lines)
  {
    assert ([ln] + lines)[1..] == lines;
  }

  /** Lines read from the history, in whole. */
  lemma {:induction false} HistoryLinesText(text: seq<Byte>, p: nat, e: nat)
    requires p <= e <= |text| && WellFormed(text[p..e]) && (p < e ==> text[e - 1] == NEWLINE)
    ensures LinesText(HistoryLines(text, p, e)) == text[p..e]
    decreases e - p
  {
    hide Text, WellFormed, DecodeText, NoPads, Paired, Chunked, HistoryLines, LinesText;
    if p == e {
      NoHistoryLines(text, e);
      NoLines();
    } else {
      var k := FindNewline(text[..e], p);
      assert text[..e][e - 1] == NEWLINE;
      HistoryLinesStep(text, p, k + 1, e);
      assert text[p..e][k - p] == NEWLINE;
      WellFormedCut(text[p..e], k - p);
      assert text[p..e][..k - p] == text[p..k] && text[p..e][k - p + 1..] == text[k + 1..e];
      HistoryLinesText(text, k + 1, e);
      TextOfDecoded(text[p..k]);
      LinesTextCons(DecodedLine(text[p..k]), HistoryLines(text, k + 1, e));
      assert text[p..k] + [NEWLINE] + text[k + 1..e] == text[p..e];
    }
  }

  /* ---- what is captured is well formed ---- */

  /** A cell that put_char or an erase leaves. */
  predicate Storable(c: Cell) {
    c.cont || c.pad || Keepable(Glyph(c))
  }

  ghost predicate RowStorable(row: Row) {
    forall c :: 0 <= c < |row| ==> Storable(row[c])
  }

  /** Whatever is captured, the history stays well formed: even where a wide row is cut short. */
  lemma {:induction false} EncodedRowWellFormed(row: Row, c: nat, acc: RowText)
    requires RowStorable(row) && c <= |row| && acc.trimmed <= |acc.bytes| < TMP_BYTES
    requires WellFormed(acc.bytes) && WellFormed(acc.bytes[..acc.trimmed])
    ensures var t := EncodeRow(row, c, acc); WellFormed(t.bytes) && WellFormed(t.bytes[..t.trimmed])
    decreases |row| - c
  {
    hide WellFormed, Keepable, Encode;
    if c < |row| && |acc.bytes| < TMP_BYTES - 4 {
      EncodeRowStep(row, c, acc);
      if row[c].cont || row[c].pad {
        EncodedRowWellFormed(row, c + 1, acc);
      } else {
        assert Storable(row[c]);
        var e := Encode(Glyph(row[c]));
        WellFormedOne(Glyph(row[c]));
        WellFormedAppend(acc.bytes, e);
        var bytes := acc.bytes + e;
        assert bytes[..acc.trimmed] == acc.bytes[..acc.trimmed] && bytes[..|bytes|] == bytes;
        EncodedRowWellFormed(row, c + 1, RowText(bytes, if Glyph(row[c]) == SPACE then acc.trimmed else |bytes|));
      }
    }
  }

  lemma RowBytesWellFormed(row: Row, wrapped: bool)
    requires RowStorable(row)
    ensures WellFormed(RowBytes(row, wrapped))
  {
    hide WellFormed, EncodeRow;
    var t := EncodeRow(row, 0, RowText([], 0));
    assert WellFormed([]) by { NothingWellFormed(); }
    EncodedRowWellFormed(row, 0, RowText([], 0));
    assert Width.CpWidth(0x0A) == 1;
    assert [NEWLINE] == Encode(0x0A);
    WellFormedOne(0x0A);
    WellFormedAppend(t.bytes[..t.trimmed], [NEWLINE]);
  }

  lemma NothingWellFormed()
    ensures WellFormed([])
  {
  }

  lemma {:induction false} MadeRoomWellFormed(text: seq<Byte>, n: nat)
    requires WellFormed(text) && n <= SCROLLBACK_BYTES
    ensures WellFormed(MakeRoom(text, n))
    decreases |text|
  {
    hide WellFormed;
    if |text| + n > SCROLLBACK_BYTES {
      var k := FindNewline(text, 0);
      if k < |text| {
        WellFormedCut(text, k);
        MadeRoomWellFormed(text[k + 1..], n);
      } else {
        NothingWellFormed();
      }
    }
  }

  ghost predicate HistoryOk(h: History) {
    h.History? ==> |h.text| <= SCROLLBACK_BYTES && WellFormed(h.text)
  }

  lemma CaptureOk(h: History, row: Row, wrapped: bool)
    requires HistoryOk(h) && RowStorable(row)
    ensures HistoryOk(Capture(h, row, wrapped))
  {
    hide WellFormed, RowBytes, MakeRoom;
    if h.History? {
      var t := RowBytes(row, wrapped);
      RowBytesWellFormed(row, wrapped);
      MadeRoomWellFormed(h.text, |t|);
      WellFormedAppend(MakeRoom(h.text, |t|), t);
    }
  }

  lemma {:induction false} CaptureRowsOk(h: History, rows: seq<Row>, flags: seq<bool>)
    requires HistoryOk(h) && |rows| == |flags| && forall r :: 0 <= r < |rows| ==> RowStorable(rows[r])
    ensures HistoryOk(CaptureRows(h, rows, flags))
    decreases |rows|
  {
    hide HistoryOk, RowStorable, Capture;
    if |rows| > 0 {
      CaptureRowsOk(h, rows[..|rows| - 1], flags[..|rows| - 1]);
      CaptureOk(CaptureRows(h, rows[..|rows| - 1], flags[..|rows| - 1]), rows[|rows| - 1], flags[|rows| - 1]);
    }
  }

  /* ---- what the history holds ---- */

  ghost predicate NoNewlineIn(text: seq<Byte>) {
    forall i :: 0 <= i < |text| ==> text[i] != NEWLINE
  }

  /** Row i of those captured did not fit, although what was held before it, from byte j on, was down to one line still
      open. */
  ghost predicate OpenLineDropped(all: seq<Byte>, text0: seq<Byte>, rows: seq<Row>, flags: seq<bool>, k: nat, i: nat,
                                  j: nat)
    requires |rows| == |flags|
  {
    && i < |rows| && j <= k <= |all| && k == |text0 + RowsBytes(rows[..i], flags[..i])|
    && NoNewlineIn(all[j..k]) && k - j + |RowBytes(rows[i], flags[i])| > SCROLLBACK_BYTES
  }

  /** Where the history may start in all the text that ever went into it: at the beginning, after a newline, or, when a
      single open line had become too long, at the start of the row that did not fit. */
  ghost predicate CutPoint(all: seq<Byte>, text0: seq<Byte>, rows: seq<Row>, flags: seq<bool>, k: nat)
    requires |rows| == |flags|
  {
    || k == 0
    || (k <= |all| && all[k - 1] == NEWLINE)
    || exists i: nat, j: nat :: OpenLineDropped(all, text0, rows, flags, k, i, j)
  }

  lemma NoneFound(text: seq<Byte>)
    requires FindNewline(text, 0) == |text|
    ensures NoNewlineIn(text)
  {
  }

  lemma SuffixOfSuffix(s: seq<Byte>, i: nat, k: nat)
    requires i + k <= |s|
    ensures s[i..][k..] == s[i + k..] && (k > 0 ==> s[i..][k - 1] == s[i + k - 1])
  {
  }

  lemma MakeRoomIs(text: seq<Byte>, n: nat)
    requires n <= SCROLLBACK_BYTES
    ensures var i := FindNewline(text, 0);
            MakeRoom(text, n) == if |text| + n <= SCROLLBACK_BYTES then text else if i == |text| then []
              else MakeRoom(text[i + 1..], n)
  {
  }

  /** Whole lines go from the front, or everything if no line ends: the last of it, from byte j on, a line that is open
      and too long. */
  lemma {:induction false} MadeRoomIsSuffix(text: seq<Byte>, n: nat) returns (k: nat, j: nat)
    requires n <= SCROLLBACK_BYTES
    ensures k <= |text| && MakeRoom(text, n) == text[k..]
    ensures k == 0 || text[k - 1] == NEWLINE
            || (k == |text| && j <= k && NoNewlineIn(text[j..]) && k - j + n > SCROLLBACK_BYTES)
    decreases |text|
  {
    hide NoNewlineIn, MakeRoom, FindNewline;
    MakeRoomIs(text, n);
    var i := FindNewline(text, 0);
    if |text| + n <= SCROLLBACK_BYTES {
      k, j := 0, 0;
    } else if i == |text| {
      NoneFound(text);
      assert text[0..] == text;
      k, j := |text|, 0;
    } else {
      var rest := text[i + 1..];
      var k1, j1 := MadeRoomIsSuffix(rest, n);
      k, j := i + 1 + k1, i + 1 + j1;
      SuffixOfSuffix(text, i + 1, k1);
      if k1 == 0 {
        assert text[k - 1] == NEWLINE;
      } else if rest[k1 - 1] != NEWLINE {
        SuffixOfSuffix(text, i + 1, j1);
        assert text[j..] == rest[j1..];
      }
    }
  }

  /** No line goes that there was room for: what begins with one that has gone does not fit with the new text. */
  lemma {:induction false} DropsNoMore(text: seq<Byte>, n: nat, j: nat)
    requires n <= SCROLLBACK_BYTES && j + |MakeRoom(text, n)| < |text| && (j == 0 || text[j - 1] == NEWLINE)
    ensures |text| - j + n > 32768
    decreases |text|
  {
    hide MakeRoom, FindNewline;
    MakeRoomIs(text, n);
    var i := FindNewline(text, 0);
    if |text| + n > SCROLLBACK_BYTES && j > 0 {
      assert i <= j - 1;
      if j > i + 1 { assert text[i + 1..][j - i - 2] == text[j - 1]; }
      DropsNoMore(text[i + 1..], n, j - (i + 1));
    }
  }

  /** The history is at most SCROLLBACK_BYTES long, and a suffix of everything captured, cut between lines or, in a line
      too long for it, between rows. */
  lemma {:induction false} HistoryIsSuffix(text0: seq<Byte>, rows: seq<Row>, flags: seq<bool>) returns (k: nat)
    requires |rows| == |flags| && |text0| <= SCROLLBACK_BYTES
    ensures var h, all := CaptureRows(History(text0), rows, flags), text0 + RowsBytes(rows, flags);
            && k <= |all| && h == History(all[k..]) && |h.text| <= SCROLLBACK_BYTES
            && CutPoint(all, text0, rows, flags, k)
    decreases |rows|
  {
    hide RowBytes, MakeRoom, NoNewlineIn, OpenLineDropped;
    var all := text0 + RowsBytes(rows, flags);
    if |rows| == 0 {
      assert all == text0;
      k := 0;
    } else {
      var n := |rows| - 1;
      var before, t := text0 + RowsBytes(rows[..n], flags[..n]), RowBytes(rows[n], flags[n]);
      assert all == before + t;
      var from := HistoryIsSuffix(text0, rows[..n], flags[..n]);
      var i, j := MadeRoomIsSuffix(before[from..], |t|);
      k := from + i;
      assert all[k..] == before[from..][i..] + t;
      if i > 0 && before[from..][i - 1] != NEWLINE {
        DroppedNow(before, text0, rows, flags, from, j);
      } else if i > 0 {
        assert all[k - 1] == before[from..][i - 1];
      } else if k > 0 && all[k - 1] != NEWLINE {
        var m: nat, l: nat :| OpenLineDropped(before, text0, rows[..n], flags[..n], from, m, l);
        DroppedBefore(before, text0, rows, flags, from, m, l);
      }
    }
  }

  /** All that was held has gone for the last row. */
  lemma DroppedNow(before: seq<Byte>, text0: seq<Byte>, rows: seq<Row>, flags: seq<bool>, from: nat, j: nat)
    requires 0 < |rows| == |flags| && before == text0 + RowsBytes(rows[..|rows| - 1], flags[..|rows| - 1])
    requires from <= |before| && j <= |before| - from && NoNewlineIn(before[from..][j..])
    requires |before| - from - j + |RowBytes(rows[|rows| - 1], flags[|rows| - 1])| > SCROLLBACK_BYTES
    ensures OpenLineDropped(text0 + RowsBytes(rows, flags), text0, rows, flags, |before|, |rows| - 1, from + j)
  {
    hide RowBytes, NoNewlineIn;
    var all := text0 + RowsBytes(rows, flags);
    assert all == before + RowBytes(rows[|rows| - 1], flags[|rows| - 1]);
    assert all[from + j..|before|] == before[from..][j..];
  }

  /** It had gone before the last row. */
  lemma DroppedBefore(before: seq<Byte>, text0: seq<Byte>, rows: seq<Row>, flags: seq<bool>, k: nat, i: nat, j: nat)
    requires 0 < |rows| == |flags| && before == text0 + RowsBytes(rows[..|rows| - 1], flags[..|rows| - 1])
    requires OpenLineDropped(before, text0, rows[..|rows| - 1], flags[..|rows| - 1], k, i, j)
    ensures OpenLineDropped(text0 + RowsBytes(rows, flags), text0, rows, flags, k, i, j)
  {
    hide RowBytes, RowsBytes, NoNewlineIn, OpenLineDropped;
    var n, all := |rows| - 1, text0 + RowsBytes(rows, flags);
    DroppedParts(before, text0, rows[..n], flags[..n], k, i, j);
    RowsBytesSnoc(rows, flags);
    assert all == before + RowBytes(rows[n], flags[n]);
    PartOfPart(rows, n, i);
    PartOfPart(flags, n, i);
    PartBefore(before, RowBytes(rows[n], flags[n]), j, k);
    DroppedWhole(all, text0, rows, flags, k, i, j);
  }

  lemma DroppedParts(all: seq<Byte>, text0: seq<Byte>, rows: seq<Row>, flags: seq<bool>, k: nat, i: nat, j: nat)
    requires |rows| == |flags| && OpenLineDropped(all, text0, rows, flags, k, i, j)
    ensures i < |rows| && j <= k <= |all| && k == |text0 + RowsBytes(rows[..i], flags[..i])|
    ensures NoNewlineIn(all[j..k]) && k - j + |RowBytes(rows[i], flags[i])| > SCROLLBACK_BYTES
  {
    hide RowBytes, RowsBytes, NoNewlineIn;
  }

  lemma DroppedWhole(all: seq<Byte>, text0: seq<Byte>, rows: seq<Row>, flags: seq<bool>, k: nat, i: nat, j: nat)
    requires |rows| == |flags| && i < |rows| && j <= k <= |all| && k == |text0 + RowsBytes(rows[..i], flags[..i])|
    requires NoNewlineIn(all[j..k]) && k - j + |RowBytes(rows[i], flags[i])| > SCROLLBACK_BYTES
    ensures OpenLineDropped(all, text0, rows, flags, k, i, j)
  {
    hide RowBytes, RowsBytes, NoNewlineIn;
  }

  lemma PartOfPart<T>(s: seq<T>, n: nat, i: nat)
    requires i <= n <= |s|
    ensures s[..n][..i] == s[..i]
  {
  }

  lemma PartBefore<T>(a: seq<T>, b: seq<T>, j: nat, k: nat)
    requires j <= k <= |a|
    ensures (a + b)[j..k] == a[j..k]
  {
  }

  /* ---- a captured row read back ---- */

  /** The characters of a row, each as put_char would have stored it in the default colours. */
  function CharsOf(row: Row): (r: seq<Cell>)
    decreases |row|
  {
    if |row| == 0 then []
    else
      var n := |row| - 1;
      CharsOf(row[..n]) + (if row[n].cont || row[n].pad then [] else CharCells(Glyph(row[n])))
  }

  lemma {:induction false} DecodeAppend(b: seq<Byte>, cp: nat)
    requires WellFormed(b) && Keepable(cp)
    ensures DecodeText(b + Encode(cp)) == DecodeText(b) + CharCells(cp)
    decreases |b|
  {
    hide Encode, Keepable, CharCells, WellFormed, DecodeText;
    NothingDecoded();
    KeepableSmall(cp);
    if |b| == 0 {
      DecodeFirst(cp, []);
      assert b + Encode(cp) == Encode(cp) + [];
      assert [] + CharCells(cp) == CharCells(cp) + [];
    } else {
      var first := FirstOf(b);
      KeepableSmall(first);
      var rest := b[|Encode(first)|..];
      DecodeAppend(rest, cp);
      DecodeFirst(first, rest);
      DecodeFirst(first, rest + Encode(cp));
      assert b == Encode(first) + rest && b + Encode(cp) == Encode(first) + (rest + Encode(cp));
      assert CharCells(first) + (DecodeText(rest) + CharCells(cp))
             == CharCells(first) + DecodeText(rest) + CharCells(cp);
    }
  }

  lemma DecodeFirst(cp: nat, rest: seq<Byte>)
    requires cp < CODE_LIMIT
    ensures DecodeText(Encode(cp) + rest) == CharCells(cp) + DecodeText(rest)
  {
    hide Encode, FirstCode, CharLength, CharCells;
    var b, n := Encode(cp) + rest, |Encode(cp)|;
    assert b[..n] == Encode(cp) && b[n..] == rest;
    FirstCodeIs(b, cp);
  }

  lemma NothingDecoded()
    ensures DecodeText([]) == []
  {
  }

  lemma TextSnoc(row: Row)
    requires |row| > 0
    ensures var n := |row| - 1; Text(row) == Text(row[..n]) + CellText(row[n])
  {
    hide Text, CellText;
    var n := |row| - 1;
    TextAppend(row[..n], [row[n]]);
    TextOne(row[n]);
    assert row[..n] + [row[n]] == row;
  }

  /** The text of a row, read back: its characters. */
  lemma {:induction false} DecodedRowText(row: Row)
    requires RowStorable(row)
    ensures DecodeText(Text(row)) == CharsOf(row) && WellFormed(Text(row))
    decreases |row|
  {
    hide Encode, CharCells, Text, DecodeText, Keepable, WellFormed;
    if |row| == 0 {
      TextOne(BLANK);
      NothingDecoded();
      NothingWellFormed();
    } else {
      var n := |row| - 1;
      DecodedRowText(row[..n]);
      TextSnoc(row);
      if row[n].cont || row[n].pad {
        assert Text(row[..n]) + [] == Text(row[..n]) && CharsOf(row[..n]) + [] == CharsOf(row[..n]);
      } else {
        assert Storable(row[n]);
        DecodeAppend(Text(row[..n]), Glyph(row[n]));
        WellFormedOne(Glyph(row[n]));
        WellFormedAppend(Text(row[..n]), Encode(Glyph(row[n])));
      }
    }
  }

  /** d is s without the blanks at its end. */
  ghost predicate Unblanked(d: seq<Cell>, s: seq<Cell>) {
    && |d| <= |s| && d == s[..|d|] && (|d| > 0 ==> d[|d| - 1] != BLANK)
    && forall i :: |d| <= i < |s| ==> s[i] == BLANK
  }

  lemma CharEnds(cp: nat)
    requires Keepable(cp)
    ensures var x := CharCells(cp); if cp == SPACE then x == [BLANK] else |x| > 0 && x[|x| - 1] != BLANK
  {
  }

  lemma UnblankedSelf(a: seq<Cell>, x: seq<Cell>)
    requires |x| > 0 && x[|x| - 1] != BLANK
    ensures Unblanked(a + x, a + x)
  {
  }

  lemma UnblankedMore(d: seq<Cell>, s: seq<Cell>)
    requires Unblanked(d, s)
    ensures Unblanked(d, s + [BLANK])
  {
  }

  lemma StripKeeps(a: seq<Byte>, cp: nat)
    ensures Strip(a + Encode(cp)) == if cp == SPACE then Strip(a) else a + Encode(cp)
  {
    hide Encode;
    EncodedEnd(cp);
    if cp == SPACE {
      assert Encode(cp) == Spaces(1);
      StripSpaces(a, 1);
    }
  }

  /** The text without the spaces at its end, read back: the characters without the blanks at their end. */
  lemma {:induction false} DecodedStripped(row: Row)
    requires RowStorable(row)
    ensures Unblanked(DecodeText(Strip(Text(row))), CharsOf(row))
    decreases |row|
  {
    hide Encode, CharCells, Text, DecodeText, Keepable, WellFormed, Strip, Unblanked;
    if |row| == 0 {
      TextOne(BLANK);
      NothingDecoded();
      assert Strip([]) == [] && Unblanked([], []) by { NothingStripped(); }
    } else {
      var n := |row| - 1;
      DecodedStripped(row[..n]);
      TextSnoc(row);
      if row[n].cont || row[n].pad {
        assert Text(row[..n]) + [] == Text(row[..n]) && CharsOf(row[..n]) + [] == CharsOf(row[..n]);
      } else {
        var cp := Glyph(row[n]);
        assert Storable(row[n]);
        StripKeeps(Text(row[..n]), cp);
        CharEnds(cp);
        if cp == SPACE {
          UnblankedMore(DecodeText(Strip(Text(row[..n]))), CharsOf(row[..n]));
        } else {
          DecodedRowText(row);
          UnblankedSelf(CharsOf(row[..n]), CharCells(cp));
        }
      }
    }
  }

  lemma NothingStripped()
    ensures Strip([]) == [] && Unblanked([], [])
  {
  }

  /** decode_text of a captured row gives back its characters: all of them if the row wraps, else those before the
      blanks at its end. */
  lemma CapturedRowReadsBack(row: Row, wrapped: bool)
    requires RowStorable(row) && |Text(row)| <= TEXT_LIMIT
    ensures var b := RowBytes(row, wrapped);
      if wrapped then DecodeText(b) == CharsOf(row)
      else |b| > 0 && b[|b| - 1] == NEWLINE && Unblanked(DecodeText(b[..|b| - 1]), CharsOf(row))
  {
    hide Text, DecodeText, Strip, Unblanked, CharsOf, RowBytes;
    RowBytesWhole(row, wrapped);
    if wrapped {
      DecodedRowText(row);
    } else {
      var b := RowBytes(row, wrapped);
      DecodedStripped(row);
      assert b[..|b| - 1] == Strip(Text(row));
    }
  }

  /* ---- rows of whole characters ---- */

  /** A row of characters as put_char writes them, with padding where one did not fit. */
  ghost predicate RowPrinted(row: Row) {
    && Paired(row)
    && forall c :: 0 <= c < |row| && !row[c].cont ==>
         Keepable(Glyph(row[c])) && (row[c].wide <==> Width.CpWidth(Glyph(row[c])) == 2)
  }

  /** The character of a cell, in the default colours. */
  function Plain(c: Cell): Cell {
    if c.cont then BLANK.(ch := 0, cont := true) else BLANK.(ch := Glyph(c), wide := c.wide)
  }

  function PlainRow(row: Row): (r: Row)
    ensures |r| == |row| && forall c :: 0 <= c < |row| ==> r[c] == Plain(row[c])
  {
    seq(|row|, c requires 0 <= c < |row| => Plain(row[c]))
  }

  lemma {:induction false} CharsUnpadded(row: Row)
    ensures CharsOf(row) == CharsOf(Unpadded(row))
    decreases |row|
  {
    hide CharCells;
    if |row| > 0 {
      var n := |row| - 1;
      CharsUnpadded(row[..n]);
      if row[n].pad {
        assert Unpadded(row) == Unpadded(row[..n]) && CharsOf(row[..n]) + [] == CharsOf(row[..n]);
      } else {
        assert Unpadded(row)[..|Unpadded(row[..n])|] == Unpadded(row[..n]);
      }
    }
  }

  lemma PlainOne(c: Cell)
    requires !c.cont && !c.wide && Width.CpWidth(Glyph(c)) == 1
    ensures CharCells(Glyph(c)) == [Plain(c)]
  {
  }

  lemma PlainTwo(a: Cell, b: Cell)
    requires !a.cont && a.wide && b.cont && Width.CpWidth(Glyph(a)) == 2
    ensures CharCells(Glyph(a)) == [Plain(a), Plain(b)]
  {
  }

  lemma CharsSnoc(row: Row, n: nat)
    requires 0 < n <= |row| && !row[n - 1].pad
    ensures CharsOf(row[..n]) == CharsOf(row[..n - 1]) + (if row[n - 1].cont then [] else CharCells(Glyph(row[n - 1])))
  {
    hide CharCells;
    assert row[..n][..n - 1] == row[..n - 1];
  }

  lemma PrintedAt(row: Row, c: nat)
    requires RowPrinted(row) && c < |row|
    ensures row[c].cont ==> c > 0 && row[c - 1].wide && !row[c - 1].cont && Width.CpWidth(Glyph(row[c - 1])) == 2
    ensures !row[c].cont && (c + 1 < |row| ==> !row[c + 1].cont) ==> !row[c].wide && Width.CpWidth(Glyph(row[c])) == 1
  {
    hide Width.CpWidth;
  }

  /** The characters of a row whose wide ones are whole are its cells, column for column. */
  lemma {:induction false} CharsAreCells(row: Row, n: nat)
    requires RowPrinted(row) && NoPads(row) && n <= |row| && (n < |row| ==> !row[n].cont)
    ensures CharsOf(row[..n]) == PlainRow(row[..n])
    decreases n
  {
    hide RowPrinted, CharCells, Plain, CharsOf;
    if n == 0 {
      assert CharsOf([]) == [] by { NoChars(); }
    } else {
      PrintedAt(row, n - 1);
      CharsSnoc(row, n);
      if row[n - 1].cont {
        CharsAreCells(row, n - 2);
        CharsSnoc(row, n - 1);
        PlainTwo(row[n - 2], row[n - 1]);
        assert PlainRow(row[..n]) == PlainRow(row[..n - 2]) + [Plain(row[n - 2]), Plain(row[n - 1])];
      } else {
        CharsAreCells(row, n - 1);
        PlainOne(row[n - 1]);
        assert PlainRow(row[..n]) == PlainRow(row[..n - 1]) + [Plain(row[n - 1])];
      }
    }
  }

  lemma NoChars()
    ensures CharsOf([]) == []
  {
  }

  /** And so such a row reads back as it was shown, but for colours, attributes and padding. */
  lemma PrintedReadsBack(row: Row)
    requires RowPrinted(Unpadded(row))
    ensures CharsOf(row) == PlainRow(Unpadded(row))
  {
    hide RowPrinted, Unpadded, CharsOf;
    var u := Unpadded(row);
    CharsUnpadded(row);
    UnpaddedNoPads(row);
    assert u[..|u|] == u;
    CharsAreCells(u, |u|);
  }

  /* ---- rows too wide to capture ---- */

  /** n characters of four bytes each. */
  function LongRow(n: nat): (r: Row)
    ensures |r| == n && forall c :: 0 <= c < n ==> r[c] == BLANK.(ch := 0x10000)
  {
    seq(n, _ => BLANK.(ch := 0x10000))
  }

  lemma {:induction false} LongRowText(n: nat)
    ensures |Text(LongRow(n))| == 4 * n
    decreases n
  {
    if n > 0 {
      assert LongRow(n)[1..] == LongRow(n - 1);
      LongRowText(n - 1);
    }
  }

  /** Every row of n columns goes into the history whole if and only if n is at most 1023: the rest of a wider one may
      be lost. */
  lemma RowsKeptWholeIffNarrow(n: nat)
    ensures (forall row: Row :: |row| == n ==> RowBytes(row, true) == Text(row)) <==> n <= ROW_LIMIT
  {
    hide Text, RowBytes;
    if n <= ROW_LIMIT {
      forall row: Row | |row| == n ensures RowBytes(row, true) == Text(row) { RowBytesIs(row, true); }
    } else {
      LongRowText(n);
      WrappedLength(LongRow(n));
      assert RowBytes(LongRow(n), true) != Text(LongRow(n));
    }
  }

  lemma WrappedLength(row: Row)
    ensures |RowBytes(row, true)| < TMP_BYTES
  {
  }
}
