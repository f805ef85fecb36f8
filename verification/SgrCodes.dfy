/** The SGR parameters the renderer sends, and that the terminal's parser undoes them. */
module SgrCodes {
  import opened Cells
  import opened Vt

  const ATTR_CODES: seq<(Attr, nat)> :=
    [(Bold, 1), (Dim, 2), (Italic, 3), (Underline, 4), (Blink, 5), (Reverse, 7), (Invis, 8), (Strike, 9)]

  /** A colour is a palette index or the default. */
  predicate PenOk(pen: Pen) {
    pen.fg <= COLOR_DEFAULT && pen.bg <= COLOR_DEFAULT
  }

  /** The codes of the attributes in `add`, from the i-th of the table on. */
  function AttrCodes(add: set<Attr>, i: nat): seq<nat>
    requires i <= 8
    decreases 8 - i
  {
    if i == 8 then []
    else (if ATTR_CODES[i].0 in add then [ATTR_CODES[i].1] else []) + AttrCodes(add, i + 1)
  }

  /** A colour's parameters; base is 30 for the foreground and 40 for the background. */
  function ColorCodes(c: nat, base: nat, inc: bool): seq<nat> {
    if c == COLOR_DEFAULT then (if inc then [base + 9] else [])
    else if c < 8 then [base + c]
    else if c < 16 then [base + 60 + c - 8]
    else [base + 8, 5, c]
  }

  /** Nothing for a colour the terminal has already, when only changes are sent. */
  function ColorPart(inc: bool, was: nat, c: nat, base: nat): seq<nat> {
    if inc && c == was then [] else ColorCodes(c, base, inc)
  }

  /** With inc, what differs from cur; without, the whole of target. */
  function Params(inc: bool, cur: Pen, target: Pen): seq<nat> {
    AttrCodes(if inc then target.attrs - cur.attrs else target.attrs, 0)
    + ColorPart(inc, cur.fg, target.fg, 30) + ColorPart(inc, cur.bg, target.bg, 40)
  }

  /** sgr_params' loop over the attributes. */
  method AttrParams(add: set<Attr>) returns (ps: seq<nat>)
    ensures ps == AttrCodes(add, 0)
  {
    ps := [];
    for i := 0 to 8
      invariant ps + AttrCodes(add, i) == AttrCodes(add, 0)
    {
      ghost var rest := AttrCodes(add, i + 1);
      var (a, code) := ATTR_CODES[i];
      if a in add {
        assert ps + ([code] + rest) == (ps + [code]) + rest;
        ps := ps + [code];
      } else {
        assert [] + rest == rest;
      }
    }
  }

  /** sgr_params. */
  method SgrParams(inc: bool, cur: Pen, target: Pen) returns (ps: seq<nat>)
    ensures ps == Params(inc, cur, target)
  {
    hide AttrCodes, ColorCodes;
    ps := AttrParams(if inc then target.attrs - cur.attrs else target.attrs);
    for k := 0 to 2
      invariant k == 0 ==> ps == AttrCodes(if inc then target.attrs - cur.attrs else target.attrs, 0)
      invariant k == 1 ==> ps == AttrCodes(if inc then target.attrs - cur.attrs else target.attrs, 0)
                                 + ColorPart(inc, cur.fg, target.fg, 30)
      invariant k == 2 ==> ps == Params(inc, cur, target)
    {
      var c := if k == 1 then target.bg else target.fg;
      var base := if k == 1 then 40 else 30;
      if !inc || c != (if k == 1 then cur.bg else cur.fg) {
        ps := ps + ColorCodes(c, base, inc);
      }
    }
  }

  /* ---- the parser reads them back ---- */

  /** The attributes of the table from the i-th on that are in `add`. */
  ghost function AttrsFrom(add: set<Attr>, i: nat): set<Attr>
    requires i <= 8
    decreases 8 - i
  {
    if i == 8 then {}
    else (if ATTR_CODES[i].0 in add then {ATTR_CODES[i].0} else {}) + AttrsFrom(add, i + 1)
  }

  lemma AttrsComplete(add: set<Attr>)
    ensures AttrsFrom(add, 0) == add
  {
    assert AttrsFrom(add, 7) == {Strike} * add;
    assert AttrsFrom(add, 6) == {Invis, Strike} * add;
    assert AttrsFrom(add, 5) == {Reverse, Invis, Strike} * add;
    assert AttrsFrom(add, 4) == {Blink, Reverse, Invis, Strike} * add;
    assert AttrsFrom(add, 3) == {Underline, Blink, Reverse, Invis, Strike} * add;
    assert AttrsFrom(add, 2) == {Italic, Underline, Blink, Reverse, Invis, Strike} * add;
    assert AttrsFrom(add, 1) == {Dim, Italic, Underline, Blink, Reverse, Invis, Strike} * add;
    forall a | a in add ensures a in AttrsFrom(add, 0) {
      match a
      case Bold => case Dim => case Italic => case Underline =>
      case Blink => case Reverse => case Invis => case Strike =>
    }
  }

  lemma CodeSetsAttr(pen: Pen, i: nat)
    requires i < 8
    ensures ATTR_CODES[i].1 != 38 && ATTR_CODES[i].1 != 48
    ensures SgrCode(pen, ATTR_CODES[i].1) == pen.(attrs := pen.attrs + {ATTR_CODES[i].0})
  {
    assert i == 0 || i == 1 || i == 2 || i == 3 || i == 4 || i == 5 || i == 6 || i == 7;
  }

  lemma SgrCons(pen: Pen, v: nat, tail: seq<nat>)
    requires v != 38 && v != 48
    ensures SgrList(pen, [v] + tail) == SgrList(SgrCode(pen, v), tail)
  {
    assert ([v] + tail)[1..] == tail;
  }

  lemma {:induction false} AttrCodesRead(pen: Pen, add: set<Attr>, i: nat, tail: seq<nat>)
    requires i <= 8
    ensures SgrList(pen, AttrCodes(add, i) + tail) == SgrList(pen.(attrs := pen.attrs + AttrsFrom(add, i)), tail)
    decreases 8 - i
  {
    if i == 8 {
      assert AttrCodes(add, i) + tail == tail;
      assert pen.attrs + {} == pen.attrs;
    } else if ATTR_CODES[i].0 in add {
      var a, v := ATTR_CODES[i].0, ATTR_CODES[i].1;
      var rest := AttrCodes(add, i + 1);
      CodeSetsAttr(pen, i);
      assert ([v] + rest) + tail == [v] + (rest + tail);
      SgrCons(pen, v, rest + tail);
      AttrCodesRead(SgrCode(pen, v), add, i + 1, tail);
      assert (pen.attrs + {a}) + AttrsFrom(add, i + 1) == pen.attrs + ({a} + AttrsFrom(add, i + 1));
    } else {
      AttrCodesRead(pen, add, i + 1, tail);
      assert [] + AttrCodes(add, i + 1) == AttrCodes(add, i + 1);
      assert {} + AttrsFrom(add, i + 1) == AttrsFrom(add, i + 1);
    }
  }

  lemma FgRead(pen: Pen, c: nat, inc: bool, tail: seq<nat>)
    requires c <= COLOR_DEFAULT && (inc || c != COLOR_DEFAULT || pen.fg == COLOR_DEFAULT)
    ensures SgrList(pen, ColorCodes(c, 30, inc) + tail) == SgrList(pen.(fg := c), tail)
  {
    var ps := ColorCodes(c, 30, inc) + tail;
    if c == COLOR_DEFAULT && !inc {
      assert ps == tail;
    } else if c == COLOR_DEFAULT || c < 16 {
      assert ps[1..] == tail;
    } else {
      assert ps[3..] == tail;
    }
  }

  lemma BgRead(pen: Pen, c: nat, inc: bool, tail: seq<nat>)
    requires c <= COLOR_DEFAULT && (inc || c != COLOR_DEFAULT || pen.bg == COLOR_DEFAULT)
    ensures SgrList(pen, ColorCodes(c, 40, inc) + tail) == SgrList(pen.(bg := c), tail)
  {
    var ps := ColorCodes(c, 40, inc) + tail;
    if c == COLOR_DEFAULT && !inc {
      assert ps == tail;
    } else if c == COLOR_DEFAULT || c < 16 {
      assert ps[1..] == tail;
    } else {
      assert ps[3..] == tail;
    }
  }

  /** The colour part of the parameters, read with the attributes done. */
  lemma ColorsRead(pen: Pen, inc: bool, cur: Pen, target: Pen)
    requires PenOk(target) && pen.attrs == target.attrs
    requires if inc then pen.fg == cur.fg && pen.bg == cur.bg else pen.fg == pen.bg == COLOR_DEFAULT
    ensures SgrList(pen, ColorPart(inc, cur.fg, target.fg, 30) + ColorPart(inc, cur.bg, target.bg, 40)) == target
  {
    var bg := ColorPart(inc, cur.bg, target.bg, 40);
    assert bg + [] == bg;
    if inc && target.fg == cur.fg {
      assert [] + bg == bg;
    } else {
      FgRead(pen, target.fg, inc, bg);
    }
    if !(inc && target.bg == cur.bg) {
      BgRead(pen.(fg := target.fg), target.bg, inc, []);
    }
  }

  /** The parameters' meaning, from the pen they are meant for. */
  lemma ParamsRead(pen: Pen, inc: bool, cur: Pen, target: Pen)
    requires PenOk(target)
    requires if inc then pen == cur && cur.attrs <= target.attrs else pen == DEFAULT_PEN
    ensures SgrList(pen, Params(inc, cur, target)) == target
  {
    hide AttrCodes, ColorCodes, AttrsFrom, SgrList, SgrCode;
    var add := if inc then target.attrs - cur.attrs else target.attrs;
    var fg := ColorPart(inc, cur.fg, target.fg, 30);
    var bg := ColorPart(inc, cur.bg, target.bg, 40);
    assert Params(inc, cur, target) == AttrCodes(add, 0) + (fg + bg);
    AttrCodesRead(pen, add, 0, fg + bg);
    AttrsComplete(add);
    assert pen.attrs + add == target.attrs;
    ColorsRead(pen.(attrs := target.attrs), inc, cur, target);
  }

  /** A reset and the whole state, whatever the terminal's pen was. */
  lemma FullRead(s: Screen, target: Pen)
    requires s.Valid() && PenOk(target)
    ensures var ps := Params(false, s.pen, target);
            Sgr(s, if |ps| == 0 then [] else [0] + ps) == s.(pen := target)
  {
    var ps := Params(false, s.pen, target);
    ParamsRead(DEFAULT_PEN, false, s.pen, target);
    if |ps| > 0 {
      SgrCons(s.pen, 0, ps);
    }
  }

  /** Only the changes, when no attribute has to go. */
  lemma IncRead(s: Screen, target: Pen)
    requires s.Valid() && PenOk(target) && s.pen.attrs <= target.attrs
    requires Params(true, s.pen, target) != []
    ensures Sgr(s, Params(true, s.pen, target)) == s.(pen := target)
  {
    ParamsRead(s.pen, true, s.pen, target);
  }

  lemma {:induction false} AttrCodesCount(add: set<Attr>, i: nat)
    requires i <= 8
    ensures |AttrCodes(add, i)| <= 8 - i
    decreases 8 - i
  {
    if i < 8 { AttrCodesCount(add, i + 1); }
  }

  /** The terminal keeps 16 parameters; a full state with its reset takes at most 15. */
  lemma ParamsFit(inc: bool, cur: Pen, target: Pen)
    ensures |[0] + Params(inc, cur, target)| <= 15
  {
    hide AttrCodes;
    AttrCodesCount(if inc then target.attrs - cur.attrs else target.attrs, 0);
  }

  lemma {:induction false} AttrCodesSmall(add: set<Attr>, i: nat)
    requires i <= 8
    ensures forall k :: 0 <= k < |AttrCodes(add, i)| ==> AttrCodes(add, i)[k] < 10
    decreases 8 - i
  {
    if i < 8 { AttrCodesSmall(add, i + 1); }
  }

  /** None of them is large. */
  lemma ParamsSmall(inc: bool, cur: Pen, target: Pen)
    requires PenOk(target)
    ensures forall k :: 0 <= k < |Params(inc, cur, target)| ==> Params(inc, cur, target)[k] <= COLOR_DEFAULT
  {
    hide AttrCodes;
    AttrCodesSmall(if inc then target.attrs - cur.attrs else target.attrs, 0);
  }
}
