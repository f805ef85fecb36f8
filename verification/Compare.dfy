/** How sort orders lines: as text or as whole numbers of any length (sort/sort.c). */
module Compare {
  import opened Utf8

  const BLANK_SPACE: Byte := 0x20
  const TAB: Byte := 0x09
  const MINUS: Byte := 0x2D
  const PLUS: Byte := 0x2B
  const ZERO: Byte := 0x30

  /** A line by where it is in the input. */
  datatype Line = Line(off: nat, len: nat)

  datatype Options = Options(reverse: bool, numeric: bool, foldCase: bool, ignoreBlanks: bool, unique: bool)

  ghost predicate LineIn(l: Line, input: seq<Byte>) {
    l.off + l.len <= |input|
  }

  function TextOf(l: Line, input: seq<Byte>): (s: seq<Byte>)
    requires LineIn(l, input)
    ensures |s| == l.len
  {
    input[l.off..l.off + l.len]
  }

  /* ---- what a line is ordered by ---- */

  predicate IsBlank(c: Byte) { c == BLANK_SPACE || c == TAB }
  predicate IsDigit(c: Byte) { 0x30 <= c <= 0x39 }

  function SkipBlanks(s: seq<Byte>, i: nat): (k: nat)
    requires i <= |s|
    ensures i <= k <= |s|
    decreases |s| - i
  {
    if i < |s| && IsBlank(s[i]) then SkipBlanks(s, i + 1) else i
  }

  function DigitsEnd(s: seq<Byte>, i: nat): (k: nat)
    requires i <= |s|
    ensures i <= k <= |s| && forall j :: i <= j < k ==> IsDigit(s[j])
    decreases |s| - i
  {
    if i < |s| && IsDigit(s[i]) then DigitsEnd(s, i + 1) else i
  }

  function Folded(c: Byte, fold: bool): Byte {
    if fold && 0x41 <= c <= 0x5A then c + 32 else c
  }

  /** The characters that count, as they count. */
  function TextKey(s: seq<Byte>, o: Options): (k: seq<Byte>) {
    KeyFrom(s, if o.ignoreBlanks then SkipBlanks(s, 0) else 0, o)
  }

  function KeyFrom(s: seq<Byte>, i: nat, o: Options): (k: seq<Byte>)
    requires i <= |s|
    ensures |k| == |s| - i
  {
    seq<Byte>(|s| - i, j requires 0 <= j < |s| - i => Folded(s[i + j], o.foldCase))
  }

  ghost predicate Digits(d: seq<Byte>) {
    forall i :: 0 <= i < |d| ==> IsDigit(d[i])
  }

  /** The number that decimal digits write. */
  function DigitsValue(d: seq<Byte>): nat
    requires Digits(d)
  {
    if |d| == 0 then 0 else 10 * DigitsValue(d[..|d| - 1]) + (d[|d| - 1] - 0x30)
  }

  /** The integer a line starts with, after blanks and a sign; 0 if there are no digits. */
  function Value(s: seq<Byte>): int {
    var i := SkipBlanks(s, 0);
    var signed := i < |s| && (s[i] == MINUS || s[i] == PLUS);
    var d := if signed then i + 1 else i;
    Signed(signed && s[i] == MINUS, DigitsValue(s[d..DigitsEnd(s, d)]))
  }

  function Signed(neg: bool, v: int): int { if neg then -v else v }

  function Sign(n: int): (r: int)
    ensures -1 <= r <= 1
  {
    if n < 0 then -1 else if n > 0 then 1 else 0
  }

  /** Lexicographic order. */
  function Lex(a: seq<Byte>, b: seq<Byte>): (r: int)
    ensures -1 <= r <= 1
  {
    if |a| == 0 then (if |b| == 0 then 0 else -1)
    else if |b| == 0 then 1
    else if a[0] != b[0] then (if a[0] < b[0] then -1 else 1)
    else Lex(a[1..], b[1..])
  }

  function Order(a: seq<Byte>, b: seq<Byte>, o: Options): (r: int)
    ensures -1 <= r <= 1
  {
    var r := if o.numeric then Sign(Value(a) - Value(b)) else Lex(TextKey(a, o), TextKey(b, o));
    if o.reverse then -r else r
  }

  /* ---- it is a total preorder ---- */

  lemma {:induction false} LexTurns(a: seq<Byte>, b: seq<Byte>)
    ensures Lex(a, b) == -Lex(b, a)
    ensures Lex(a, b) == 0 <==> a == b
    decreases |a|
  {
    if |a| > 0 && |b| > 0 {
      if a[0] == b[0] {
        LexTurns(a[1..], b[1..]);
        assert a == [a[0]] + a[1..] && b == [b[0]] + b[1..];
      }
    }
  }

  lemma {:induction false} LexChains(a: seq<Byte>, b: seq<Byte>, c: seq<Byte>)
    requires Lex(a, b) <= 0 && Lex(b, c) <= 0
    ensures Lex(a, c) <= 0
    decreases |a|
  {
    if |a| > 0 && |b| > 0 && |c| > 0 && a[0] == b[0] == c[0] { LexChains(a[1..], b[1..], c[1..]); }
  }

  /** Any two lines are ordered one way or the other, or count as equal. */
  lemma OrderTurns(a: seq<Byte>, b: seq<Byte>, o: Options)
    ensures Order(a, b, o) == -Order(b, a, o)
  {
    hide Value, TextKey, Lex;
    LexTurns(TextKey(a, o), TextKey(b, o));
  }

  lemma OrderChains(a: seq<Byte>, b: seq<Byte>, c: seq<Byte>, o: Options)
    requires Order(a, b, o) <= 0 && Order(b, c, o) <= 0
    ensures Order(a, c, o) <= 0
  {
    hide Value, TextKey, Lex;
    if !o.numeric {
      if o.reverse {
        LexTurns(TextKey(a, o), TextKey(b, o));
        LexTurns(TextKey(b, o), TextKey(c, o));
        LexTurns(TextKey(a, o), TextKey(c, o));
        LexChains(TextKey(c, o), TextKey(b, o), TextKey(a, o));
      } else {
        LexChains(TextKey(a, o), TextKey(b, o), TextKey(c, o));
      }
    }
  }

  /** Lines count as equal when they write the same number, or the same text up to what is ignored. */
  lemma OrderEqual(a: seq<Byte>, b: seq<Byte>, o: Options)
    ensures Order(a, b, o) == 0 <==> if o.numeric then Value(a) == Value(b) else TextKey(a, o) == TextKey(b, o)
  {
    hide Value, TextKey, Lex;
    LexTurns(TextKey(a, o), TextKey(b, o));
  }

  /* ---- digits ---- */

  lemma {:induction false} Positive(d: seq<Byte>)
    requires Digits(d) && |d| > 0 && d[0] != ZERO
    ensures DigitsValue(d) > 0
    decreases |d|
  {
    if |d| > 1 { Positive(d[..|d| - 1]); }
  }

  /** Without leading zeros, more digits are a larger number. */
  lemma {:induction false} LongerIsLarger(a: seq<Byte>, b: seq<Byte>)
    requires Digits(a) && Digits(b) && |a| < |b| && b[0] != ZERO
    ensures DigitsValue(a) < DigitsValue(b)
    decreases |a|
  {
    if |a| == 0 { Positive(b); } else { LongerIsLarger(a[..|a| - 1], b[..|b| - 1]); }
  }

  /** Of two numbers with as many digits the first digit that differs decides. */
  lemma {:induction false} FirstDifference(a: seq<Byte>, b: seq<Byte>, k: nat)
    requires Digits(a) && Digits(b) && k < |a| == |b| && a[..k] == b[..k] && a[k] < b[k]
    ensures DigitsValue(a) < DigitsValue(b)
    decreases |a|
  {
    var n := |a| - 1;
    if k < n {
      assert a[..n][..k] == a[..k] && b[..n][..k] == b[..k];
      FirstDifference(a[..n], b[..n], k);
    } else {
      assert a[..n] == b[..n];
    }
  }

  lemma {:induction false} LeadingZero(d: seq<Byte>)
    requires Digits(d) && |d| > 0 && d[0] == ZERO
    ensures DigitsValue(d) == DigitsValue(d[1..])
    decreases |d|
  {
    var n := |d| - 1;
    if n > 0 {
      LeadingZero(d[..n]);
      assert d[..n][1..] == d[1..][..n - 1];
    }
  }

  /* ---- what it means: text ---- */

  /** a and b are the same up to k, and there a ends, or has the smaller byte. */
  ghost predicate FirstSmaller(a: seq<Byte>, b: seq<Byte>, k: nat) {
    && k <= |a| && k <= |b| && a[..k] == b[..k]
    && if k == |a| then k < |b| else k < |b| && a[k] < b[k]
  }

  ghost predicate Before(a: seq<Byte>, b: seq<Byte>) {
    exists k: nat :: FirstSmaller(a, b, k)
  }

  lemma {:induction false} LexBefore(a: seq<Byte>, b: seq<Byte>)
    ensures Lex(a, b) < 0 <==> Before(a, b)
    decreases |a|
  {
    forall k: nat | FirstSmaller(a, b, k) && k > 0 ensures |a| > 0 && |b| > 0 && a[0] == b[0] { SameStart(a, b, k); }
    if |a| == 0 || |b| == 0 || a[0] != b[0] {
      assert FirstSmaller(a, b, 0) <==> Lex(a, b) < 0;
    } else {
      LexBefore(a[1..], b[1..]);
      if k: nat :| FirstSmaller(a[1..], b[1..], k) { SmallerLater(a, b, k); }
      if k: nat :| FirstSmaller(a, b, k) { SmallerSooner(a, b, k); }
    }
  }

  lemma SameStart(a: seq<Byte>, b: seq<Byte>, k: nat)
    requires FirstSmaller(a, b, k) && k > 0
    ensures |a| > 0 && |b| > 0 && a[0] == b[0]
  {
    assert a[0] == a[..k][0] && b[0] == b[..k][0];
  }

  lemma SmallerLater(a: seq<Byte>, b: seq<Byte>, k: nat)
    requires |a| > 0 && |b| > 0 && a[0] == b[0] && FirstSmaller(a[1..], b[1..], k)
    ensures FirstSmaller(a, b, k + 1)
  {
    assert a[..k + 1] == [a[0]] + a[1..][..k] && b[..k + 1] == [b[0]] + b[1..][..k];
  }

  lemma SmallerSooner(a: seq<Byte>, b: seq<Byte>, k: nat)
    requires |a| > 0 && |b| > 0 && a[0] == b[0] && FirstSmaller(a, b, k)
    ensures k > 0 && FirstSmaller(a[1..], b[1..], k - 1)
  {
    assert k > 0;
    assert a[1..][..k - 1] == a[..k][1..] && b[1..][..k - 1] == b[..k][1..];
  }

  /** k is what counts of s: all of it, or all from the first byte on that is neither space nor tab; and of capitals, if
      they are folded, the small letter. */
  ghost predicate CountsAs(s: seq<Byte>, k: seq<Byte>, o: Options) {
    exists i: nat :: CountsFrom(s, k, o, i)
  }

  ghost predicate CountsFrom(s: seq<Byte>, k: seq<Byte>, o: Options, i: nat) {
    && i <= |s| && |k| == |s| - i
    && (i > 0 ==> o.ignoreBlanks) && (forall j :: 0 <= j < i ==> s[j] == 0x20 || s[j] == 0x09)
    && (o.ignoreBlanks && i < |s| ==> s[i] != 0x20 && s[i] != 0x09)
    && forall j :: 0 <= j < |k| ==> k[j] == if o.foldCase && 0x41 <= s[i + j] <= 0x5A then s[i + j] + 32 else s[i + j]
  }

  lemma TextKeyCounts(s: seq<Byte>, o: Options)
    ensures CountsAs(s, TextKey(s, o), o)
  {
    var i := if o.ignoreBlanks then SkipBlanks(s, 0) else 0;
    if o.ignoreBlanks { SkippedBlanks(s, 0); }
    var k := TextKey(s, o);
    assert forall j :: 0 <= j < |k| ==> k[j] == Folded(s[i + j], o.foldCase);
    assert CountsFrom(s, k, o, i);
  }

  lemma {:induction false} SkippedBlanks(s: seq<Byte>, i: nat)
    requires i <= |s|
    ensures var k := SkipBlanks(s, i);
      && (forall j :: i <= j < k ==> s[j] == 0x20 || s[j] == 0x09)
      && (k < |s| ==> s[k] != 0x20 && s[k] != 0x09)
    decreases |s| - i
  {
    if i < |s| && IsBlank(s[i]) { SkippedBlanks(s, i + 1); }
  }

  /** Blanks end where they end. */
  lemma SameStop(s: seq<Byte>, i: nat, j: nat, skip: bool)
    requires i <= |s| && j <= |s|
    requires (i > 0 ==> skip) && forall k :: 0 <= k < i ==> s[k] == 0x20 || s[k] == 0x09
    requires (j > 0 ==> skip) && forall k :: 0 <= k < j ==> s[k] == 0x20 || s[k] == 0x09
    requires skip && i < |s| ==> s[i] != 0x20 && s[i] != 0x09
    requires skip && j < |s| ==> s[j] != 0x20 && s[j] != 0x09
    ensures i == j
  {
    var a, b := if i < |s| then s[i] else 0, if j < |s| then s[j] else 0;
  }

  /** There is one such key. */
  lemma CountsAsOne(s: seq<Byte>, k: seq<Byte>, l: seq<Byte>, o: Options)
    requires CountsAs(s, k, o) && CountsAs(s, l, o)
    ensures k == l
  {
    var i: nat :| CountsFrom(s, k, o, i);
    var j: nat :| CountsFrom(s, l, o, j);
    SameStop(s, i, j, o.ignoreBlanks);
  }

  /* ---- what it means: numbers ---- */

  /** Decimal digits read from the left. */
  function ReadOn(v: nat, d: seq<Byte>): int
    decreases |d|
  {
    if |d| == 0 then v else if d[0] < 48 then 0 else ReadOn(10 * v + (d[0] - 48), d[1..])
  }

  lemma {:induction false} ReadsOn(v: nat, d: seq<Byte>, c: Byte)
    requires (forall i :: 0 <= i < |d| ==> 48 <= d[i] <= 57) && 48 <= c <= 57
    ensures ReadOn(v, d + [c]) == 10 * ReadOn(v, d) + (c - 48)
    decreases |d|
  {
    if |d| == 0 {
      assert (d + [c])[1..] == [];
    } else {
      assert (d + [c])[1..] == d[1..] + [c];
      ReadsOn(10 * v + (d[0] - 48), d[1..], c);
    }
  }

  lemma {:induction false} DigitsRead(d: seq<Byte>)
    requires Digits(d)
    ensures DigitsValue(d) == ReadOn(0, d)
    decreases |d|
  {
    if |d| > 0 {
      var front, c := d[..|d| - 1], d[|d| - 1];
      DigitsRead(front);
      assert d == front + [c] && IsDigit(c);
      ReadsOn(0, front, c);
    }
  }

  /** s writes the number v: after spaces and tabs a sign or none, and then decimal digits, which may be none, up to the
      first byte that is not one. */
  ghost predicate Writes(s: seq<Byte>, v: int) {
    exists i: nat, d: nat, e: nat :: WritesAt(s, v, i, d, e)
  }

  ghost predicate WritesAt(s: seq<Byte>, v: int, i: nat, d: nat, e: nat) {
    && i <= d <= e <= |s|
    && (forall j :: 0 <= j < i ==> s[j] == 0x20 || s[j] == 0x09) && (i < |s| ==> s[i] != 0x20 && s[i] != 0x09)
    && (d == if i < |s| && (s[i] == 0x2D || s[i] == 0x2B) then i + 1 else i)
    && (forall j :: d <= j < e ==> 48 <= s[j] <= 57) && (e < |s| ==> s[e] < 48 || 57 < s[e])
    && v == if d == i + 1 && s[i] == 0x2D then -ReadOn(0, s[d..e]) else ReadOn(0, s[d..e])
  }

  lemma {:induction false} DigitsStop(s: seq<Byte>, i: nat)
    requires i <= |s|
    ensures DigitsEnd(s, i) < |s| ==> s[DigitsEnd(s, i)] < 48 || 57 < s[DigitsEnd(s, i)]
    decreases |s| - i
  {
    if i < |s| && IsDigit(s[i]) { DigitsStop(s, i + 1); }
  }

  lemma ValueWritten(s: seq<Byte>)
    ensures Writes(s, Value(s))
  {
    var i := SkipBlanks(s, 0);
    SkippedBlanks(s, 0);
    var d := if i < |s| && (s[i] == MINUS || s[i] == PLUS) then i + 1 else i;
    DigitsStop(s, d);
    var e := DigitsEnd(s, d);
    assert Digits(s[d..e]) by { assert forall k :: 0 <= k < e - d ==> s[d..e][k] == s[d + k]; }
    DigitsRead(s[d..e]);
    assert forall j :: d <= j < e ==> IsDigit(s[j]);
    assert WritesAt(s, Value(s), i, d, e);
  }

  lemma SameEnd(s: seq<Byte>, d: nat, e: nat, f: nat)
    requires d <= e <= |s| && d <= f <= |s|
    requires (forall j :: d <= j < e ==> 48 <= s[j] <= 57) && (e < |s| ==> s[e] < 48 || 57 < s[e])
    requires (forall j :: d <= j < f ==> 48 <= s[j] <= 57) && (f < |s| ==> s[f] < 48 || 57 < s[f])
    ensures e == f
  {
    var a, b := if e < |s| then s[e] else 0, if f < |s| then s[f] else 0;
  }

  /** A line writes one number. */
  lemma WritesOne(s: seq<Byte>, v: int, w: int)
    requires Writes(s, v) && Writes(s, w)
    ensures v == w
  {
    var i: nat, d: nat, e: nat :| WritesAt(s, v, i, d, e);
    var i': nat, d': nat, e': nat :| WritesAt(s, w, i', d', e');
    SameStop(s, i, i', true);
    SameEnd(s, d, e, e');
  }

  /* ---- what it means: the order ---- */

  /** a is less than b: as a number, or as text. */
  ghost predicate Less(a: seq<Byte>, b: seq<Byte>, o: Options) {
    if o.numeric then exists v: int, w: int :: Writes(a, v) && Writes(b, w) && v < w
    else exists k: seq<Byte>, l: seq<Byte> :: CountsAs(a, k, o) && CountsAs(b, l, o) && Before(k, l)
  }

  /** a comes before b: it is less, or greater if the order is reversed. */
  ghost predicate ComesBefore(a: seq<Byte>, b: seq<Byte>, o: Options) {
    if o.reverse then Less(b, a, o) else Less(a, b, o)
  }

  lemma LessIs(a: seq<Byte>, b: seq<Byte>, o: Options)
    ensures Less(a, b, o) <==> if o.numeric then Value(a) < Value(b) else Lex(TextKey(a, o), TextKey(b, o)) < 0
  {
    hide Value, TextKey, Lex, Writes, CountsAs, Before;
    if o.numeric {
      ValueWritten(a);
      ValueWritten(b);
      if v: int, w: int :| Writes(a, v) && Writes(b, w) && v < w {
        WritesOne(a, v, Value(a));
        WritesOne(b, w, Value(b));
      }
    } else {
      TextKeyCounts(a, o);
      TextKeyCounts(b, o);
      LexBefore(TextKey(a, o), TextKey(b, o));
      if k: seq<Byte>, l: seq<Byte> :| CountsAs(a, k, o) && CountsAs(b, l, o) && Before(k, l) {
        CountsAsOne(a, k, TextKey(a, o), o);
        CountsAsOne(b, l, TextKey(b, o), o);
      }
    }
  }

  /** What compare_lines says, in every mode. */
  lemma OrderMeans(a: seq<Byte>, b: seq<Byte>, o: Options)
    ensures Order(a, b, o) < 0 <==> ComesBefore(a, b, o)
    ensures Order(a, b, o) > 0 <==> ComesBefore(b, a, o)
  {
    hide Value, TextKey, Lex, Less;
    LessIs(a, b, o);
    LessIs(b, a, o);
    LexTurns(TextKey(a, o), TextKey(b, o));
  }

  /* ---- the comparisons ---- */

  lemma LexSigns(x: seq<Byte>, y: seq<Byte>)
    ensures Lex(x, y) < 0 <==> Before(x, y)
    ensures Lex(x, y) > 0 <==> Before(y, x)
  {
    hide Lex, Before;
    LexBefore(x, y);
    LexBefore(y, x);
    LexTurns(x, y);
  }

  method CompareText(a: Line, b: Line, input: seq<Byte>, o: Options) returns (r: int)
    requires LineIn(a, input) && LineIn(b, input)
    ensures r == Lex(TextKey(TextOf(a, input), o), TextKey(TextOf(b, input), o))
    ensures r < 0 <==> Before(TextKey(TextOf(a, input), o), TextKey(TextOf(b, input), o))
    ensures r > 0 <==> Before(TextKey(TextOf(b, input), o), TextKey(TextOf(a, input), o))
  {
    hide Before, Folded, LineIn, Lex, KeyFrom;
    var s, t := TextOf(a, input), TextOf(b, input);
    ghost var x, y := TextKey(s, o), TextKey(t, o);
    LexSigns(x, y);
    var i: nat, j: nat := 0, 0;
    if o.ignoreBlanks {
      i := Skip(s);
      j := Skip(t);
    }
    while i < a.len && j < b.len
      invariant i <= |s| && j <= |t|
      invariant Lex(KeyFrom(s, i, o), KeyFrom(t, j, o)) == Lex(x, y)
    {
      LexStep(s, i, t, j, o);
      var ca, cb := Folded(s[i], o.foldCase), Folded(t[j], o.foldCase);
      if ca != cb { return if ca < cb then -1 else 1; }
      i, j := i + 1, j + 1;
    }
    LexEnd(s, i, t, j, o);
    if i != a.len || j != b.len { return if i == a.len then -1 else 1; }
    r := 0;
  }

  /** One more byte of each compared, and then none left of one of them. */
  lemma LexStep(s: seq<Byte>, i: nat, t: seq<Byte>, j: nat, o: Options)
    requires i < |s| && j < |t|
    ensures var ca, cb := Folded(s[i], o.foldCase), Folded(t[j], o.foldCase);
      Lex(KeyFrom(s, i, o), KeyFrom(t, j, o))
      == if ca != cb then (if ca < cb then -1 else 1) else Lex(KeyFrom(s, i + 1, o), KeyFrom(t, j + 1, o))
  {
    hide Folded;
    assert KeyFrom(s, i, o)[1..] == KeyFrom(s, i + 1, o) && KeyFrom(t, j, o)[1..] == KeyFrom(t, j + 1, o);
  }

  lemma LexEnd(s: seq<Byte>, i: nat, t: seq<Byte>, j: nat, o: Options)
    requires i <= |s| && j <= |t| && (i == |s| || j == |t|)
    ensures Lex(KeyFrom(s, i, o), KeyFrom(t, j, o)) == if i == |s| && j == |t| then 0 else if i == |s| then -1 else 1
  {
  }

  method Skip(s: seq<Byte>) returns (i: nat)
    ensures i == SkipBlanks(s, 0)
  {
    i := 0;
    while i < |s| && IsBlank(s[i])
      invariant i <= |s| && SkipBlanks(s, i) == SkipBlanks(s, 0)
    {
      i := i + 1;
    }
  }

  lemma DigitsIn(s: seq<Byte>, i: nat, end: nat)
    requires i <= end <= |s| && forall k :: i <= k < end ==> IsDigit(s[k])
    ensures Digits(s[i..end])
  {
    hide IsDigit;
    assert forall k :: 0 <= k < end - i ==> s[i..end][k] == s[i + k];
  }

  lemma NoDigits()
    ensures DigitsValue([]) == 0
  {
  }

  lemma ZeroLeads(s: seq<Byte>, from: nat, end: nat)
    requires from < end <= |s| && Digits(s[from..end]) && s[from] == ZERO
    ensures Digits(s[from + 1..end]) && DigitsValue(s[from + 1..end]) == DigitsValue(s[from..end])
  {
    hide IsDigit, DigitsValue;
    LeadingZero(s[from..end]);
    assert s[from..end][1..] == s[from + 1..end];
  }

  /** The sign, and where the digits without leading zeros start and end. */
  method ReadNumber(s: seq<Byte>) returns (neg: bool, from: nat, end: nat)
    ensures from <= end <= |s| && Digits(s[from..end])
    ensures from < end ==> s[from] != ZERO
    ensures Value(s) == Signed(neg, DigitsValue(s[from..end]))
    ensures neg ==> from < end
  {
    hide IsDigit, DigitsValue;
    var i := Skip(s);
    neg := false;
    if i < |s| && (s[i] == MINUS || s[i] == PLUS) {
      neg := s[i] == MINUS;
      i := i + 1;
    }
    from, end := i, i;
    while end < |s| && IsDigit(s[end])
      invariant from <= end <= |s| && DigitsEnd(s, end) == DigitsEnd(s, from)
      invariant forall k :: from <= k < end ==> IsDigit(s[k])
    {
      end := end + 1;
    }
    DigitsIn(s, i, end);
    ghost var v := DigitsValue(s[i..end]);
    while from < end && s[from] == ZERO
      invariant i <= from <= end && Digits(s[from..end]) && DigitsValue(s[from..end]) == v
    {
      ZeroLeads(s, from, end);
      from := from + 1;
    }
    if from == end {
      assert s[from..end] == [] && DigitsValue([]) == 0 by { NoDigits(); }
      neg := false;
    }
  }

  /** -1, 0 or 1 as the first number is less than, equal to or greater than the second. */
  method CompareNumber(a: Line, b: Line, input: seq<Byte>) returns (r: int)
    requires LineIn(a, input) && LineIn(b, input)
    ensures r == Sign(Value(TextOf(a, input)) - Value(TextOf(b, input)))
  {
    hide Value, LineIn, DigitsValue;
    var s, t := TextOf(a, input), TextOf(b, input);
    var aneg, as_, ae := ReadNumber(s);
    var bneg, bs, be := ReadNumber(t);
    ghost var x, y := s[as_..ae], t[bs..be];
    if as_ < ae { Positive(x); }
    if bs < be { Positive(y); }
    if aneg != bneg { return if aneg then -1 else 1; }
    if ae - as_ != be - bs {
      if |x| < |y| { LongerIsLarger(x, y); } else { LongerIsLarger(y, x); }
      var result := if ae - as_ < be - bs then -1 else 1;
      return if aneg then -result else result;
    }
    var k := 0;
    while k < ae - as_
      invariant k <= |x| && x[..k] == y[..k]
    {
      if s[as_ + k] != t[bs + k] {
        if x[k] < y[k] { FirstDifference(x, y, k); } else { FirstDifference(y, x, k); }
        var result := if s[as_ + k] < t[bs + k] then -1 else 1;
        return if aneg then -result else result;
      }
      k := k + 1;
    }
    assert x == y;
    r := 0;
  }

  method CompareLines(a: Line, b: Line, input: seq<Byte>, o: Options) returns (r: int)
    requires LineIn(a, input) && LineIn(b, input)
    ensures r == Order(TextOf(a, input), TextOf(b, input), o)
    ensures r < 0 <==> ComesBefore(TextOf(a, input), TextOf(b, input), o)
    ensures r > 0 <==> ComesBefore(TextOf(b, input), TextOf(a, input), o)
  {
    hide Value, TextKey, Lex, ComesBefore;
    if o.numeric { r := CompareNumber(a, b, input); } else { r := CompareText(a, b, input, o); }
    if o.reverse { r := -r; }
    OrderMeans(TextOf(a, input), TextOf(b, input), o);
  }
}
