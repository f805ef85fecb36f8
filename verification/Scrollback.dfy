/** The text history that rows leave behind when they scroll off the top (_lib/vt.c). */
module Scrollback {
  import opened Cells
  import opened Utf8

  const SCROLLBACK_BYTES := 32768
  const TMP_BYTES := 4096
  const NEWLINE: Byte := 0x0A

  /** A scratch screen (vt_init_view) keeps none. */
  datatype History = NoHistory | History(text: seq<Byte>)

  /** The bytes of a row, and how many of them to keep if trailing blanks are trimmed. */
  datatype RowText = RowText(bytes: seq<Byte>, trimmed: nat)

  /** Columns c.. of a row appended to acc, up to the size of the buffer they are encoded in. */
  function EncodeRow(row: Row, c: nat, acc: RowText): (t: RowText)
    requires c <= |row| && acc.trimmed <= |acc.bytes| < TMP_BYTES
    ensures t.trimmed <= |t.bytes| < TMP_BYTES
    decreases |row| - c
  {
    if c == |row| || |acc.bytes| >= TMP_BYTES - 4 then acc
    else if row[c].cont || row[c].pad then EncodeRow(row, c + 1, acc)
    else
      var bytes := acc.bytes + Encode(Glyph(row[c]));
      EncodeRow(row, c + 1, RowText(bytes, if Glyph(row[c]) == SPACE then acc.trimmed else |bytes|))
  }

  /** What a row adds to the history: a wrapped row keeps its spaces and leaves its line open. */
  function RowBytes(row: Row, wrapped: bool): (t: seq<Byte>)
    ensures |t| <= TMP_BYTES
  {
    var t := EncodeRow(row, 0, RowText([], 0));
    if wrapped then t.bytes else t.bytes[..t.trimmed] + [NEWLINE]
  }

  /** Where the first newline at or after i is; |text| if there is none. */
  function FindNewline(text: seq<Byte>, i: nat): (k: nat)
    requires i <= |text|
    ensures i <= k <= |text|
    ensures forall j :: i <= j < k ==> text[j] != NEWLINE
    ensures k < |text| ==> text[k] == NEWLINE
    decreases |text| - i
  {
    if i == |text| || text[i] == NEWLINE then i else FindNewline(text, i + 1)
  }

  /** Oldest lines dropped until n more bytes fit; everything, if no line ends. */
  function MakeRoom(text: seq<Byte>, n: nat): (r: seq<Byte>)
    requires n <= SCROLLBACK_BYTES
    ensures |r| + n <= SCROLLBACK_BYTES
    decreases |text|
  {
    if |text| + n <= SCROLLBACK_BYTES then text
    else
      var k := FindNewline(text, 0);
      if k == |text| then [] else MakeRoom(text[k + 1..], n)
  }

  /** scrollback_capture. */
  function Capture(h: History, row: Row, wrapped: bool): History {
    match h
    case NoHistory => NoHistory
    case History(text) =>
      var t := RowBytes(row, wrapped);
      History(MakeRoom(text, |t|) + t)
  }

  /** Rows captured one after the other, the topmost first. */
  function CaptureRows(h: History, rows: seq<Row>, flags: seq<bool>): History
    requires |rows| == |flags|
    decreases |rows|
  {
    if |rows| == 0 then h
    else Capture(CaptureRows(h, rows[..|rows| - 1], flags[..|rows| - 1]), rows[|rows| - 1], flags[|rows| - 1])
  }
}
