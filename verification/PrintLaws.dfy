/** What a character does to the screen, cell by cell (put_char of _lib/vt.c): where it goes, what it pushes aside, and
    when it goes to the next row. */
module PrintLaws {
  import opened Cells
  import opened Utf8
  import opened Vt
  import opened VtParser
  import opened TermOps
  import opened Wire
  import opened Sequences
  import EditLaws
  import Width

  /** A cell in the colours of the pen. */
  predicate InPen(c: Cell, pen: Pen) {
    && c.attrs == pen.attrs && !c.pad
    && c.bgDfl == (pen.bg == 256) && c.bg == (if pen.bg == 256 then 0 else pen.bg % 256)
    && c.fgDfl == (pen.fg == 256) && c.fg == (if pen.fg == 256 then 0 else pen.fg % 256)
  }

  /** A character of w columns stands at column c, and its second half next to it. */
  ghost predicate Stands(row: Row, c: nat, cp: nat, w: nat, pen: Pen) {
    && 1 <= w && c + w <= |row|
    && InPen(row[c], pen) && row[c].ch == cp && row[c].wide == (w == 2) && !row[c].cont
    && (w == 2 ==> InPen(row[c + 1], pen) && row[c + 1].ch == 0 && !row[c + 1].wide && row[c + 1].cont)
  }

  /** The cursor's row with the character printed: in insert mode what was there moves right. */
  ghost predicate RowPrinted(row: Row, row': Row, col: nat, cp: nat, w: nat, pen: Pen, insert: bool) {
    && |row'| == |row| && Stands(row', col, cp, w, pen)
    && (forall c :: 0 <= c < col ==> row'[c] == row[c])
    && (forall c :: col + w <= c < |row| ==> row'[c] == row[if insert then c - w else c])
  }

  /** The character is at the cursor, which goes past it: behind the last column it waits to wrap. */
  ghost predicate CharPrinted(s: Screen, t: Screen, cp: nat, w: nat)
    requires s.Valid()
  {
    && t == s.(cells := t.cells, curCol := t.curCol, pendingWrap := t.pendingWrap)
    && |t.cells| == s.rows && RowPrinted(s.cells[s.curRow], t.cells[s.curRow], s.curCol, cp, w, s.pen, s.insert)
    && (forall r :: 0 <= r < s.rows && r != s.curRow ==> t.cells[r] == s.cells[r])
    && (if s.curCol + w < s.cols then t.curCol == s.curCol + w && !t.pendingWrap
        else t.curCol == s.cols - 1 && t.pendingWrap)
  }

  lemma PrintedStands(row: Row, col: nat, cp: nat, w: nat, pen: Pen)
    requires 1 <= w <= 2 && col + w <= |row|
    ensures var cell := Printed(pen, cp, w == 2);
      Stands(if w == 2 then row[col := cell][col + 1 := Continued(cell)] else row[col := cell], col, cp, w, pen)
  {
  }

  /** The row put_char makes. */
  function NewRow(row: Row, col: nat, cp: nat, w: nat, pen: Pen, insert: bool): Row
    requires 1 <= w <= 2 && col + w <= |row|
  {
    var row1 := if insert then OpenGap(row, col, w, BlankCell(pen)) else row;
    var cell := Printed(pen, cp, w == 2);
    if w == 2 then row1[col := cell][col + 1 := Continued(cell)] else row1[col := cell]
  }

  lemma NewRowPrinted(row: Row, col: nat, cp: nat, w: nat, pen: Pen, insert: bool)
    requires 1 <= w <= 2 && col + w <= |row|
    ensures RowPrinted(row, NewRow(row, col, cp, w, pen, insert), col, cp, w, pen, insert)
  {
    hide Printed, Continued, Stands, BlankCell, OpenGap;
    GapOpened(row, col, w, BlankCell(pen));
    PrintedStands(if insert then OpenGap(row, col, w, BlankCell(pen)) else row, col, cp, w, pen);
  }

  lemma GapOpened(row: Row, col: nat, w: nat, b: Cell)
    requires col + w <= |row|
    ensures var r := OpenGap(row, col, w, b);
      (forall c :: 0 <= c < col ==> r[c] == row[c]) && forall c :: col + w <= c < |row| ==> r[c] == row[c - w]
  {
  }

  lemma PlaceIs(s: Screen, cp: nat, w: nat)
    requires s.Valid() && 1 <= w <= 2 && s.curCol + w <= s.cols
    ensures Place(s, cp, w)
            == s.(cells := s.cells[s.curRow := NewRow(s.cells[s.curRow], s.curCol, cp, w, s.pen, s.insert)],
                  curCol := Min(s.curCol + w, s.cols - 1), pendingWrap := s.curCol + w >= s.cols)
  {
    hide Printed, Continued, BlankCell, OpenGap;
  }

  lemma PlacePrints(s: Screen, cp: nat, w: nat)
    requires s.Valid() && 1 <= w <= 2 && s.curCol + w <= s.cols
    ensures CharPrinted(s, Place(s, cp, w), cp, w)
  {
    hide NewRow, RowPrinted, Place;
    PlaceIs(s, cp, w);
    NewRowPrinted(s.cells[s.curRow], s.curCol, cp, w, s.pen, s.insert);
  }

  /* ---- where it goes ---- */

  /** The cursor's row marked as going on, and the cursor at the start of the row after it. */
  ghost predicate WentOn(s: Screen, t: Screen)
    requires s.Valid()
  {
    EditLaws.LineFed(s.(flags := s.flags[s.curRow := true], curCol := 0, pendingWrap := false), t)
  }

  lemma WrapWent(s: Screen)
    requires s.Valid()
    ensures WentOn(s, Wrap(s))
  {
    hide LineFeed, EditLaws.LineFed;
    EditLaws.LineFeedIs(s.(flags := s.flags[s.curRow := true], curCol := 0, pendingWrap := false));
  }

  /** The last cell of a row in which a wide character does not fit any more. */
  ghost predicate Padded(s: Screen, t: Screen)
    requires s.Valid()
  {
    && EditLaws.OnlyRow(s, t, s.curRow) && t.flags == s.flags
    && t.cells[s.curRow][s.curCol].pad && EditLaws.Erased(t.cells[s.curRow][s.curCol].(pad := false), s.pen)
    && forall c :: 0 <= c < s.cols && c != s.curCol ==> t.cells[s.curRow][c] == s.cells[s.curRow][c]
  }

  lemma PadIs(s: Screen)
    requires s.Valid()
    ensures Padded(s, SetCell(s, BlankCell(s.pen).(pad := true)))
  {
  }

  /** A character that fits where the cursor is; a wrap that waits is made first, or given up without auto-wrap. */
  lemma CharFits(s: Screen, cp: nat)
    requires s.Valid()
    ensures var w, t := Width.CpWidth(cp), PutChar(s, cp);
      && (w == 0 ==> t == s)
      && (w > 0 && !s.pendingWrap && s.curCol + w <= s.cols ==> CharPrinted(s, t, cp, w))
      && (w > 0 && s.pendingWrap && !s.autoWrap ==> t == PutChar(s.(pendingWrap := false), cp))
      && (w > 0 && s.pendingWrap && s.autoWrap ==>
            exists u: Screen :: u.Valid() && WentOn(s, u) && CharPrinted(u, t, cp, w))
  {
    hide Wrap, Place, SetCell, CharPrinted, WentOn, Width.CpWidth, BlankCell;
    var w := Width.CpWidth(cp);
    if w > 0 && !s.pendingWrap && s.curCol + w <= s.cols { PlacePrints(s, cp, w); }
    if w > 0 && s.pendingWrap && s.autoWrap {
      WrapWent(s);
      PlacePrints(Wrap(s), cp, w);
    }
  }

  /** The column padded in s, the next row gone to, and the character printed there. */
  ghost predicate PaddedPrinted(s: Screen, padded: Screen, next: Screen, t: Screen, cp: nat)
    requires s.Valid()
  {
    && padded.Valid() && next.Valid()
    && Padded(s, padded) && WentOn(padded, next) && CharPrinted(next, t, cp, 2)
  }

  /** A wide character in the last column: the column is padded, and it goes to the next row, or nowhere. */
  lemma CharDoesNotFit(s: Screen, cp: nat)
    requires s.Valid() && !s.pendingWrap && Width.CpWidth(cp) == 2 && s.curCol == s.cols - 1
    ensures var t := PutChar(s, cp);
      && (!s.autoWrap ==> Padded(s, t))
      && (s.autoWrap ==>
            exists u: Screen, v: Screen :: PaddedPrinted(s, u, v, t, cp))
  {
    hide Wrap, Place, SetCell, CharPrinted, Padded, WentOn, Width.CpWidth, BlankCell;
    PadIs(s);
    var u := SetCell(s, BlankCell(s.pen).(pad := true));
    SetCellKeeps(s, BlankCell(s.pen).(pad := true));
    if s.autoWrap {
      WrapWent(u);
      PlacePrints(Wrap(u), cp, 2);
      assert PaddedPrinted(s, u, Wrap(u), PutChar(s, cp), cp);
    }
  }

  lemma SetCellKeeps(s: Screen, c: Cell)
    requires s.Valid()
    ensures var u := SetCell(s, c);
      u.rows == s.rows && u.cols == s.cols && u.autoWrap == s.autoWrap && u.curCol == s.curCol
  {
  }

  /* ---- bytes ---- */

  /** The UTF-8 bytes of a character print it. */
  lemma PrintsChar(p: Parser, cp: nat)
    requires Idle(p) && Fits(Print(cp))
    ensures Shows(FeedAll(p, Encode(cp)), PutChar(p.scr, cp))
  {
    hide FeedAll, PutChar, Encode;
    FeedPrint(p, cp);
  }

  /** The bits of a byte behind its mark. */
  function Bits(b: Byte, mark: Byte): int { (b as int) - (mark as int) }

  /** Encode is UTF-8 as RFC 3629 (section 3) has it: how many bytes, their first bits, and the code point in the
      others. */
  lemma EncodeIs(cp: nat)
    requires cp < 0x11_0000
    ensures var b := Encode(cp);
      && |b| == (if cp <= 0x7F then 1 else if cp <= 0x7FF then 2 else if cp <= 0xFFFF then 3 else 4)
      && (|b| == 1 ==> b[0] == cp)
      && (|b| == 2 ==> 0xC0 <= b[0] <= 0xDF && cp == Bits(b[0], 0xC0) * 0x40 + Bits(b[1], 0x80))
      && (|b| == 3 ==>
            0xE0 <= b[0] <= 0xEF
            && cp == Bits(b[0], 0xE0) * 0x1000 + Bits(b[1], 0x80) * 0x40 + Bits(b[2], 0x80))
      && (|b| == 4 ==>
            0xF0 <= b[0] <= 0xF4
            && cp == Bits(b[0], 0xF0) * 0x4_0000 + Bits(b[1], 0x80) * 0x1000 + Bits(b[2], 0x80) * 0x40
               + Bits(b[3], 0x80))
      && forall i :: 1 <= i < |b| ==> 0x80 <= b[i] <= 0xBF
  {
    SixBits(cp);
  }

  lemma {:induction false} PrintsAgain(p: Parser, cp: nat, n: nat)
    requires Idle(p) && Fits(Print(cp))
    ensures Shows(FeedAll(p, Times(Encode(cp), n)), PutTimes(p.scr, cp, n))
    decreases n
  {
    hide FeedAll, PutChar, Encode;
    if n == 0 {
      FeedOne(p, 0);
    } else {
      PrintsChar(p, cp);
      FeedAppend(p, Encode(cp), Times(Encode(cp), n - 1));
      PrintsAgain(FeedAll(p, Encode(cp)), cp, n - 1);
    }
  }

  /** REP: what n more bytes of the last character printed would do. */
  lemma Repeats(p: Parser, cp: nat, d: seq<Byte>)
    requires Idle(p) && Fits(Print(cp)) && Width.CpWidth(cp) > 0 && Argument(d)
    ensures FeedAll(p, Encode(cp) + Command(d, 'b')).scr
            == FeedAll(p, Encode(cp) + Times(Encode(cp), Amount(d))).scr
  {
    hide FeedAll, PutChar, Encode, Number, Screen.Valid, Width.CpWidth, PutTimes, CsiEdit;
    var q := FeedAll(p, Encode(cp));
    PrintsChar(p, cp);
    FeedChar(p, cp);
    FeedAppend(p, Encode(cp), Command(d, 'b'));
    FeedAppend(p, Encode(cp), Times(Encode(cp), Amount(d)));
    FeedCommand(q, d, 'b');
    NoDigits(d);
    PrintsAgain(q, cp, Amount(d));
  }

  /* ---- widths ---- */

  lemma {:induction false} InOneRange(cp: nat, ranges: seq<(nat, nat)>, i: nat, k: nat)
    requires i <= k < |ranges| && ranges[k].0 <= cp <= ranges[k].1
    ensures Width.InRanges(cp, ranges, i)
    decreases |ranges| - i
  {
    if i < k { InOneRange(cp, ranges, i + 1, k); }
  }

  /** Kana, CJK ideographs, Hangul syllables, fullwidth forms and the faces among the emoji take two columns; what comes
      before U+1100 one; joiners and variation selectors none. */
  lemma Widths(cp: nat)
    ensures (0x3041 <= cp <= 0x3098 || 0x4E00 <= cp <= 0x9FFF || 0xAC00 <= cp <= 0xD7A3 || 0xFF01 <= cp <= 0xFF60
             || 0x1F600 <= cp <= 0x1F64F)
            ==> Width.CpWidth(cp) == 2
    ensures 0x20 <= cp < 0x1100 ==> Width.CpWidth(cp) == 1
    ensures cp == 0x200B || cp == 0x200D || 0xFE00 <= cp <= 0xFE0F ==> Width.CpWidth(cp) == 0
  {
    if 0x3041 <= cp <= 0x3098 { InOneRange(cp, Width.CJK_RANGES, 0, 4); }
    if 0x4E00 <= cp <= 0x9FFF { InOneRange(cp, Width.CJK_RANGES, 0, 5); }
    if 0xAC00 <= cp <= 0xD7A3 { InOneRange(cp, Width.CJK_RANGES, 0, 7); }
    if 0x1F600 <= cp <= 0x1F64F { InOneRange(cp - 0x10000, Width.EMOJI_RANGES, 0, 54); }
  }

  /* ---- line drawing ---- */

  /** The box drawing character of a letter in the DEC special graphics. */
  function BoxOf(c: char): nat {
    match c
    case 'j' => 0x2518 case 'k' => 0x2510 case 'l' => 0x250C case 'm' => 0x2514 case 'n' => 0x253C case 'q' => 0x2500
    case 't' => 0x251C case 'u' => 0x2524 case 'v' => 0x2534 case 'w' => 0x252C case 'x' => 0x2502 case _ => 0
  }

  lemma CharacterSet(p: Parser, c: Byte)
    requires p.Valid() && c in {0x30, 0x42}
    ensures var q := FeedAll(p, [0x1B, 0x28, c]);
      q == CsiClear(p).(state := Ground, escInter := 0x28, g0Dec := c == 0x30)
  {
    hide FeedAll, DispatchEsc, DispatchCsi, HandleC0, FeedUtf8, FeedCsiParam, FeedCsiInter, Screen.Valid;
    FeedOne(p, 0x1B);
    assert [0x1B] + [0x28] == [0x1B, 0x28] && [0x1B, 0x28] + [c] == [0x1B, 0x28, c];
    FeedSnoc(p, [0x1B], 0x28);
    FeedSnoc(p, [0x1B, 0x28], c);
  }

  lemma BoxFed(p: Parser, c: char)
    requires p.Valid() && p.state.Ground? && p.utf8Want == 0 && p.g0Dec && BoxOf(c) > 0
    ensures Feed(p, c as int).scr == PutChar(p.scr, BoxOf(c))
  {
    hide PutChar, Width.EmojiWide, Width.CjkWide, Screen.Valid;
  }

  /** Between ESC ( 0 and ESC ( B a letter draws a box. */
  lemma DrawsBoxes(p: Parser, c: char)
    requires p.Valid() && p.utf8Want == 0 && BoxOf(c) > 0
    ensures FeedAll(p, [0x1B, 0x28, 0x30] + [c as int] + [0x1B, 0x28, 0x42]).scr == PutChar(p.scr, BoxOf(c))
  {
    hide FeedAll, Feed, PutChar, Screen.Valid;
    CharacterSet(p, 0x30);
    FeedSnoc(p, [0x1B, 0x28, 0x30], c as int);
    BoxFed(FeedAll(p, [0x1B, 0x28, 0x30]), c);
    FeedAppend(p, [0x1B, 0x28, 0x30] + [c as int], [0x1B, 0x28, 0x42]);
    CharacterSet(FeedAll(p, [0x1B, 0x28, 0x30] + [c as int]), 0x42);
  }

  /* ---- strings ---- */

  /** Not a byte that ends a string. */
  ghost predicate InString(text: seq<Byte>) {
    forall i :: 0 <= i < |text| ==> text[i] !in {0x07, 0x18, 0x1A, 0x1B, 0x9C}
  }

  lemma {:induction false} StringGoesOn(p: Parser, text: seq<Byte>)
    requires p.Valid() && (p.state.Osc? || p.state.Dcs?) && InString(text)
    ensures var q := FeedAll(p, text); q.state == p.state && q.scr == p.scr
    decreases |text|
  {
    hide DispatchEsc, DispatchCsi, HandleC0, FeedUtf8, FeedEsc, FeedCsiParam, FeedCsiInter, Screen.Valid;
    if |text| > 0 { StringGoesOn(p, text[..|text| - 1]); }
  }

  lemma StringStarts(p: Parser, c: Byte)
    requires p.Valid() && c in {0x5D, 0x50, 0x5E, 0x5F}
    ensures var q := FeedAll(p, [0x1B, c]); (q.state.Osc? || q.state.Dcs?) && q.scr == p.scr
  {
    hide FeedAll, DispatchEsc, DispatchCsi, HandleC0, FeedUtf8, FeedCsiParam, FeedCsiInter, Screen.Valid;
    FeedOne(p, 0x1B);
    assert [0x1B] + [c] == [0x1B, c];
    FeedSnoc(p, [0x1B], c);
  }

  lemma StringEnds(p: Parser, c: Byte)
    requires p.Valid() && (p.state.Osc? || p.state.Dcs?) && c in {0x07, 0x18, 0x1A, 0x9C}
    ensures Feed(p, c) == p.(state := Ground)
  {
    hide DispatchEsc, DispatchCsi, HandleC0, FeedUtf8, FeedEsc, FeedCsiParam, FeedCsiInter, Screen.Valid;
  }

  /** OSC, DCS, PM and APC strings show nothing, and after BEL, ST, CAN or SUB come characters again. */
  lemma StringsShowNothing(p: Parser, c: Byte, text: seq<Byte>, end: Byte)
    requires p.Valid() && c in {0x5D, 0x50, 0x5E, 0x5F} && InString(text) && end in {0x07, 0x18, 0x1A, 0x9C}
    ensures var q := FeedAll(p, [0x1B, c] + text + [end]); q.state.Ground? && q.scr == p.scr
  {
    hide Feed, FeedAll, Screen.Valid;
    StringStarts(p, c);
    StringGoesOn(FeedAll(p, [0x1B, c]), text);
    FeedAppend(p, [0x1B, c], text);
    FeedSnoc(p, [0x1B, c] + text, end);
    StringEnds(FeedAll(p, [0x1B, c] + text), end);
  }

  /** The same with ST written as an escape. */
  lemma StringsShowNothingST(p: Parser, c: Byte, text: seq<Byte>)
    requires p.Valid() && c in {0x5D, 0x50, 0x5E, 0x5F} && InString(text)
    ensures var q := FeedAll(p, [0x1B, c] + text + [0x1B, '\\' as int]); q.state.Ground? && q.scr == p.scr
  {
    hide Feed, FeedAll, Screen.Valid;
    StringStarts(p, c);
    StringGoesOn(FeedAll(p, [0x1B, c]), text);
    FeedAppend(p, [0x1B, c], text);
    FeedAppend(p, [0x1B, c] + text, [0x1B, '\\' as int]);
    FeedEscape(FeedAll(p, [0x1B, c] + text), '\\');
  }

  /* ---- what is dropped ---- */

  /** A byte that continues nothing, or starts no character, is dropped; one that does not continue the character begun
      is dropped with what there was of it. Nothing is shown, and the next byte starts afresh. */
  lemma BadBytes(p: Parser, c: Byte)
    requires p.Valid() && p.state.Ground? && 0x20 <= c != 0x7F
    requires if p.utf8Want == 0 then 0x80 <= c < 0xC0 || c >= 0xF8 else c < 0x80 || c >= 0xC0
    ensures FeedAll(p, [c]) == p.(utf8 := [], utf8Want := 0)
  {
    hide FeedAll, Screen.Valid, HandleC0, FeedEsc, FeedCsiParam, FeedCsiInter;
    FeedOne(p, c);
  }

  /** A control character in a control sequence ends it unread. */
  lemma AbandonedSequence(p: Parser, d: seq<Byte>, c: Byte)
    requires p.Valid() && Argument(d) && c < 0x20 && c != 0x1B
    ensures var q := FeedAll(p, [0x1B, 0x5B] + d + [c]); q.state.Ground? && q.scr == p.scr
  {
    hide Feed, FeedAll, Number, Screen.Valid;
    FeedStart(p);
    FeedDigits(Started(p), d);
    FeedAppend(p, [0x1B, 0x5B], d);
    FeedSnoc(p, [0x1B, 0x5B] + d, c);
    ControlEnds(FeedAll(p, [0x1B, 0x5B] + d), c);
  }

  lemma ControlEnds(p: Parser, c: Byte)
    requires p.Valid() && p.state.CsiParam? && c < 0x20 && c != 0x1B
    ensures Feed(p, c) == p.(state := Ground)
  {
    hide DispatchCsi, DispatchEsc, HandleC0, FeedUtf8, FeedEsc, Screen.Valid;
  }
}
