/** The parser of _lib/vt.c with its buffers and its screen, fed byte by byte in place; it does what the one on values
    says (VtParser). */
module Terminal {
  import opened Cells
  import opened Utf8
  import opened Scrollback
  import opened Vt
  import opened VtParser
  import opened Display
  import opened Dispatch
  import opened Grid
  import Width

  /** memset. */
  method Fill<T>(a: array<T>, x: T)
    modifies a
    ensures forall i :: 0 <= i < a.Length ==> a[i] == x
  {
    var i: nat := 0;
    while i < a.Length
      invariant i <= a.Length && forall k :: 0 <= k < i ==> a[k] == x
      modifies a
    {
      a[i] := x;
      i := i + 1;
    }
  }

  /** tabs_reset: a stop in every eighth column. */
  method ResetTabs(t: array<bool>, cols: nat)
    requires t.Length == MAX_TAB_COLS
    modifies t
    ensures TabsOf(t) == DefaultTabs(cols)
  {
    var c: nat := 0;
    while c < MAX_TAB_COLS
      invariant c <= MAX_TAB_COLS
      invariant forall k :: 0 <= k < c ==> t[k] == (k < cols && k % 8 == 0)
      modifies t
    {
      t[c] := c < cols && c % 8 == 0;
      c := c + 1;
    }
  }

  method NewTabs(cols: nat) returns (t: array<bool>)
    ensures fresh(t) && t.Length == MAX_TAB_COLS && TabsOf(t) == DefaultTabs(cols)
  {
    t := new bool[MAX_TAB_COLS](_ => false);
    ResetTabs(t, cols);
  }

  /** Buffers for parameters, intermediates, OSC strings and characters. */
  method NewBuffers() returns (ps: array<nat>, bs: array<Byte>, os: array<Byte>, us: array<Byte>)
    ensures fresh(ps) && fresh(bs) && fresh(os) && fresh(us)
    ensures ps.Length == MAX_PARAMS && bs.Length == MAX_INTER && os.Length == MAX_OSC && us.Length == 4
    ensures us != bs && us != os && ps as object != us && ps as object != bs && ps as object != os
    ensures forall i :: 0 <= i < ps.Length ==> ps[i] == 0
  {
    ps := new nat[MAX_PARAMS](_ => 0);
    bs := new Byte[MAX_INTER](_ => 0);
    os := new Byte[MAX_OSC](_ => 0);
    us := new Byte[4](_ => 0);
  }

  class Terminal {
    var state: State
    const params: array<nat>
    var numParams: nat
    const inter: array<Byte>
    var numInter: nat
    var priv: bool
    const osc: array<Byte>
    var oscLen: nat
    const utf8Buf: array<Byte>
    var utf8Len: nat
    var utf8Want: nat
    const tabstops: array<bool>
    var cprRequested: bool
    var lastGraphic: nat
    var g0Dec: bool
    var escInter: Byte
    const scr: Display

    /** The buffers have their sizes and share nothing, and parameters not begun are 0. */
    ghost predicate Formed()
      reads this, params, scr, scr.Frame()
    {
      && params.Length == MAX_PARAMS && inter.Length == MAX_INTER && osc.Length == MAX_OSC && utf8Buf.Length == 4
      && tabstops.Length == MAX_TAB_COLS
      && utf8Buf != inter && utf8Buf != osc && params as object != utf8Buf && params as object != inter
      && params as object != osc
      && this as object !in scr.Frame() && params as object !in scr.Frame() && utf8Buf as object !in scr.Frame()
      && inter as object !in scr.Frame() && osc as object !in scr.Frame() && tabstops as object !in scr.Frame()
      && scr as object !in scr.Frame()
      && scr.Valid()
      && numParams <= MAX_PARAMS && utf8Len <= 4
      && forall i :: numParams <= i < params.Length ==> params[i] == 0
    }

    ghost function Value(): (p: Parser)
      requires Formed()
      reads this, params, utf8Buf, tabstops, scr, scr.Frame()
    {
      Parser(state, params[..numParams], numInter, priv, oscLen, utf8Buf[..utf8Len], utf8Want, TabsOf(tabstops),
             cprRequested,
             lastGraphic, g0Dec, escInter, scr.Value())
    }

    ghost predicate Valid()
      reads this, params, utf8Buf, tabstops, scr, scr.Frame()
    {
      Formed() && Value().Valid()
    }

    /** vt_init. */
    constructor (nr: nat, nc: nat, h: History)
      requires 1 <= nr && 2 <= nc
      ensures Valid() && Value() == Fresh(nr, nc, h)
      ensures fresh(params) && fresh(inter) && fresh(osc) && fresh(utf8Buf) && fresh(tabstops) && fresh(scr)
              && fresh(scr.Frame())
    {
      hide Display.Value, Display.Formed, Display.Valid, Init, DefaultTabs, TabsOf, Terminal.Formed, Terminal.Value,
           Terminal.Valid, Fresh;
      state, numParams, numInter, priv, oscLen, utf8Len, utf8Want := Ground, 0, 0, false, 0, 0, 0;
      cprRequested, lastGraphic, g0Dec, escInter := false, 0, false, 0;
      var ps, bs, os, us := NewBuffers();
      var t := NewTabs(nc);
      params, inter, osc, utf8Buf, tabstops := ps, bs, os, us, t;
      scr := new Display(nr, nc, h);
      new;
      StartsFormed();
      StartsFresh(nr, nc, h);
    }

    /** The buffers as allocated are as they must be. */
    lemma StartsFormed()
      requires params.Length == MAX_PARAMS && inter.Length == MAX_INTER && osc.Length == MAX_OSC && utf8Buf.Length == 4
               && tabstops.Length == MAX_TAB_COLS
      requires utf8Buf != inter && utf8Buf != osc && params as object != utf8Buf && params as object != inter
               && params as object != osc
      requires this as object !in scr.Frame() && params as object !in scr.Frame() && utf8Buf as object !in scr.Frame()
      requires inter as object !in scr.Frame() && osc as object !in scr.Frame() && tabstops as object !in scr.Frame()
               && scr as object !in scr.Frame()
      requires scr.Valid() && numParams == 0 && utf8Len == 0 && forall i :: 0 <= i < params.Length ==> params[i] == 0
      ensures Formed()
    {
    }

    lemma StartsFresh(nr: nat, nc: nat, h: History)
      requires Formed() && 1 <= nr && 2 <= nc && scr.Value() == Init(nr, nc, h) && TabsOf(tabstops) == DefaultTabs(nc)
      requires state.Ground? && numParams == 0 && numInter == 0 && !priv && oscLen == 0 && utf8Len == 0 && utf8Want == 0
      requires !cprRequested && lastGraphic == 0 && !g0Dec && escInter == 0
      ensures Valid() && Value() == Fresh(nr, nc, h)
    {
      hide Display.Value, Display.Formed, Init, DefaultTabs, TabsOf, Parser.Valid;
      assert params[..0] == [] && utf8Buf[..0] == [];
      assert Value() == Fresh(nr, nc, h);
    }

    /* ---- one thing at a time ---- */

    /** A change of the screen alone. */
    twostate lemma ScreenOnly()
      requires old(Formed()) && scr.Valid() && unchanged(this, params, utf8Buf, tabstops)
               && fresh(scr.Frame() - old(scr.Frame()))
      ensures Formed() && Value() == old(Value()).(scr := scr.Value())
    {
    }

    method SetState(st: State)
      requires Formed()
      modifies this`state
      ensures Formed() && Value() == old(Value()).(state := st)
    {
      hide Display.Value, Display.Formed;
      state := st;
    }

    method SetPriv(on: bool)
      requires Formed()
      modifies this`priv
      ensures Formed() && Value() == old(Value()).(priv := on)
    {
      hide Display.Value, Display.Formed;
      priv := on;
    }

    method SetLast(cp: nat)
      requires Formed()
      modifies this`lastGraphic
      ensures Formed() && Value() == old(Value()).(lastGraphic := cp)
    {
      hide Display.Value, Display.Formed;
      lastGraphic := cp;
    }

    method SetCharset(dec: bool)
      requires Formed()
      modifies this`g0Dec
      ensures Formed() && Value() == old(Value()).(g0Dec := dec)
    {
      hide Display.Value, Display.Formed;
      g0Dec := dec;
    }

    /* ---- parameters ---- */

    method ClearParams()
      requires Formed()
      modifies this`numParams, params
      ensures Formed() && Value() == old(Value()).(params := [])
    {
      hide Display.Value, Display.Formed;
      Fill(params, 0);
      numParams := 0;
      assert params[..0] == [];
    }

    method ClearInter()
      requires Formed()
      modifies this`numInter, inter
      ensures Formed() && Value() == old(Value()).(numInter := 0)
    {
      hide Display.Value, Display.Formed;
      Fill(inter, 0);
      numInter := 0;
    }

    /** csi_clear. */
    method CsiClear()
      requires Formed()
      modifies this`numParams, this`numInter, this`priv, params, inter
      ensures Formed() && Value() == VtParser.CsiClear(old(Value()))
    {
      hide Display.Value, Display.Formed, Terminal.Value, Terminal.Formed;
      ClearParams();
      ClearInter();
      SetPriv(false);
    }

    /** csi_digit. */
    method CsiDigit(digit: nat)
      requires Valid()
      modifies this`numParams, params
      ensures Formed() && Value() == old(Value()).(params := VtParser.CsiDigit(old(Value()).params, digit))
    {
      hide Display.Value, Display.Formed, Screen.Valid;
      ghost var ps := params[..numParams];
      if numParams == 0 { numParams := 1; }
      var k := numParams - 1;
      if params[k] < 16384 { params[k] := params[k] * 10 + digit; }
      assert params[..numParams] == VtParser.CsiDigit(ps, digit);
    }

    /** csi_sep. */
    method CsiSep()
      requires Valid()
      modifies this`numParams
      ensures Formed() && Value() == old(Value()).(params := VtParser.CsiSep(old(Value()).params))
    {
      hide Display.Value, Display.Formed, Screen.Valid;
      ghost var ps := params[..numParams];
      if numParams == 0 { numParams := 1; }
      if numParams < MAX_PARAMS { numParams := numParams + 1; }
      assert params[..numParams] == VtParser.CsiSep(ps);
    }

    /** An intermediate byte, if there is room for it. */
    method AddInter(c: Byte)
      requires Formed() && numInter <= MAX_INTER
      modifies this`numInter, inter
      ensures Formed() && Value()
              == old(Value()).(numInter := if old(numInter) < MAX_INTER then old(numInter) + 1 else old(numInter))
    {
      hide Display.Value, Display.Formed;
      if numInter < MAX_INTER {
        inter[numInter] := c;
        numInter := numInter + 1;
      }
    }

    /** A byte of an OSC string, if there is room for it and the 0 at its end. */
    method AddOsc(c: Byte)
      requires Formed() && oscLen <= MAX_OSC - 1
      modifies this`oscLen, osc
      ensures Formed() && Value()
              == old(Value()).(oscLen := if old(oscLen) < MAX_OSC - 1 then old(oscLen) + 1 else old(oscLen))
    {
      hide Display.Value, Display.Formed;
      if oscLen < MAX_OSC - 1 {
        osc[oscLen] := c;
        oscLen := oscLen + 1;
      }
    }

    /** The end of an OSC string is marked; what it says is not part of the model. */
    method EndOsc()
      requires Formed()
      modifies osc
      ensures Formed() && Value() == old(Value())
    {
      hide Display.Value, Display.Formed;
      osc[if oscLen < MAX_OSC - 1 then oscLen else MAX_OSC - 1] := 0;
    }

    /* ---- characters ---- */

    /** put_char on a character in the character set in use. */
    method PutCode(cp: nat)
      requires Valid()
      modifies this`lastGraphic, scr, scr.Frame()
      ensures Valid() && Value() == VtParser.PutCode(old(Value()), cp) && fresh(scr.Frame() - old(scr.Frame()))
      ensures scr.KeptFrom(old(scr.grid), old(scr.other), old(scr.inAlt))
    {
      hide Display.Value, Display.Formed, Screen.Valid, Vt.PutChar, Width.CpWidth;
      var ch := if g0Dec && 0x60 <= cp <= 0x7e then DEC_GRAPHICS[cp - 0x60] else cp;
      if Width.CpWidth(ch) == 0 { return; }
      SetLast(ch);
      label printing: scr.PutChar(ch);
      ScreenOnly@printing();
    }

    lemma Parts()
      requires Formed()
      ensures var p := Value();
              && p.state == state && numParams <= params.Length && p.params == params[..numParams]
              && p.numInter == numInter && p.priv == priv && p.oscLen == oscLen
              && utf8Len <= 4 == utf8Buf.Length && p.utf8 == utf8Buf[..utf8Len] && p.utf8Want == utf8Want
              && p.lastGraphic == lastGraphic && p.g0Dec == g0Dec
              && p.escInter == escInter && p.scr == scr.Value() && scr.Valid() && p.tabs == TabsOf(tabstops)
              && Beside(tabstops, scr)
    {
      hide Display.Value, Display.Formed;
    }

    /** What there is of a character so far. */
    method SetUtf8(len: nat, want: nat)
      requires Formed() && len <= 4
      modifies this`utf8Len, this`utf8Want
      ensures Formed() && utf8Len == len && utf8Buf.Length == 4
              && Value() == old(Value()).(utf8 := utf8Buf[..len], utf8Want := want)
    {
      hide Display.Value, Display.Formed;
      utf8Len, utf8Want := len, want;
    }

    method StoreByte(c: Byte)
      requires Formed() && utf8Len < 4
      modifies utf8Buf
      ensures Formed() && utf8Buf.Length == 4 && Value() == old(Value())
              && utf8Buf[..utf8Len + 1] == old(utf8Buf[..utf8Len]) + [c]
    {
      hide Display.Value, Display.Formed;
      utf8Buf[utf8Len] := c;
      assert utf8Buf[..utf8Len] == old(utf8Buf[..utf8Len]);
    }

    /** The first byte of a character of more than one. */
    method StartCharacter(c: Byte, want: nat)
      requires Formed()
      modifies this`utf8Len, this`utf8Want, utf8Buf
      ensures Formed() && Value() == old(Value()).(utf8 := [c], utf8Want := want)
    {
      hide Display.Value, Display.Formed, Terminal.Value, Terminal.Formed;
      SetUtf8(0, 0);
      StoreByte(c);
      assert utf8Buf[..1] == [c];
      SetUtf8(1, want);
    }

    /** utf8_feed, and what becomes of its result. */
    method FeedUtf8(c: Byte)
      requires Valid()
      modifies this, utf8Buf, scr, scr.Frame()
      ensures Valid() && Value() == VtParser.FeedUtf8(old(Value()), c) && fresh(scr.Frame() - old(scr.Frame()))
      ensures scr.KeptFrom(old(scr.grid), old(scr.other), old(scr.inAlt))
    {
      hide Display.Value, Display.Formed, Terminal.Value, Terminal.Formed, Screen.Valid, VtParser.PutCode,
           VtParser.Decode;
      Parts();
      if utf8Want == 0 {
        if c < 0x80 { PutCode(c); }
        else if 0xC0 <= c < 0xE0 { StartCharacter(c, 2); }
        else if 0xE0 <= c < 0xF0 { StartCharacter(c, 3); }
        else if 0xF0 <= c < 0xF8 { StartCharacter(c, 4); }
        return;
      }
      FeedContinuation(c);
    }

    method FeedContinuation(c: Byte)
      requires Valid() && utf8Want > 0
      modifies this, utf8Buf, scr, scr.Frame()
      ensures Valid() && Value() == VtParser.FeedUtf8(old(Value()), c) && fresh(scr.Frame() - old(scr.Frame()))
      ensures scr.KeptFrom(old(scr.grid), old(scr.other), old(scr.inAlt))
    {
      hide Display.Value, Display.Formed, Terminal.Value, Terminal.Formed, Screen.Valid, VtParser.PutCode,
           VtParser.Decode;
      Parts();
      if c < 0x80 || c >= 0xC0 {
        SetUtf8(0, 0);
        return;
      }
      AddContinuation(c);
    }

    /** A good continuation byte: kept, or the character is complete. */
    method AddContinuation(c: Byte)
      requires Valid() && utf8Want > 0 && 0x80 <= c < 0xC0
      modifies this, utf8Buf, scr, scr.Frame()
      ensures Valid() && Value() == VtParser.FeedUtf8(old(Value()), c) && fresh(scr.Frame() - old(scr.Frame()))
      ensures scr.KeptFrom(old(scr.grid), old(scr.other), old(scr.inAlt))
    {
      hide Display.Value, Display.Formed, Terminal.Value, Terminal.Formed, Screen.Valid, VtParser.PutCode,
           VtParser.Decode;
      Parts();
      StoreByte(c);
      if utf8Len + 1 < utf8Want {
        SetUtf8(utf8Len + 1, utf8Want);
        return;
      }
      var cp := VtParser.Decode(utf8Buf[..utf8Len + 1]);
      SetUtf8(0, 0);
      PutCode(cp);
    }

    /* ---- what the sequences do ---- */

    /** A change of the screen by control character. */
    method HandleC0(c: Byte)
      requires Valid()
      modifies scr, scr.Frame()
      ensures Valid() && Value() == VtParser.HandleC0(old(Value()), c) && fresh(scr.Frame() - old(scr.Frame()))
      ensures scr.KeptFrom(old(scr.grid), old(scr.other), old(scr.inAlt))
    {
      hide Display.Value, Display.Formed, Screen.Valid, VtParser.Tab, Vt.LineFeed, Vt.CarriageReturn, Vt.Backspace;
      if c == 0x08 { scr.Backspace(); }
      else if c == 0x09 { TabForward(scr, tabstops); }
      else if 0x0A <= c <= 0x0C { scr.LineFeed(); }
      else if c == 0x0D { scr.CarriageReturn(); }
      ScreenOnly();
    }

    /** TBC. */
    method ClearTabs(m: nat)
      requires Valid()
      modifies tabstops
      ensures Valid() && Value() == old(Value()).(
                tabs := if m == 0 then old(Value()).tabs - {old(Value()).scr.curCol} else if m == 3 then {}
                  else old(Value()).tabs)
    {
      hide Display.Value, Display.Formed, Screen.Valid;
      scr.Parts();
      if m == 0 {
        if scr.curCol < MAX_TAB_COLS { tabstops[scr.curCol] := false; }
      } else if m == 3 {
        Fill(tabstops, false);
      }
    }

    /** HTS. */
    method SetTab()
      requires Valid()
      modifies tabstops
      ensures Valid() && Value() == old(Value()).(
                tabs := if old(Value()).scr.curCol < MAX_TAB_COLS then old(Value()).tabs + {old(Value()).scr.curCol}
                  else old(Value()).tabs)
    {
      hide Display.Value, Display.Formed, Screen.Valid;
      scr.Parts();
      if scr.curCol < MAX_TAB_COLS { tabstops[scr.curCol] := true; }
    }

    method AskReport(ask: bool)
      requires Formed()
      modifies this`cprRequested
      ensures Formed() && Value() == old(Value()).(cprRequested := old(Value()).cprRequested || ask)
    {
      hide Display.Value, Display.Formed;
      if ask { cprRequested := true; }
    }

    /** REP. */
    method Repeat(n: nat)
      requires Valid()
      modifies scr, scr.Frame()
      ensures Valid() && fresh(scr.Frame() - old(scr.Frame()))
      ensures scr.KeptFrom(old(scr.grid), old(scr.other), old(scr.inAlt))
      ensures Value() == if old(lastGraphic) == 0 then old(Value())
                         else old(Value()).(scr := VtParser.PutTimes(old(Value()).scr, old(lastGraphic), n))
    {
      hide Display.Value, Display.Formed, Screen.Valid, Vt.PutChar;
      if lastGraphic == 0 { return; }
      ghost var frame := scr.Frame();
      var k := n;
      while k > 0
        invariant 0 <= k <= n && scr.Valid() && fresh(scr.Frame() - frame)
        invariant scr.KeptFrom(old(scr.grid), old(scr.other), old(scr.inAlt))
        invariant VtParser.PutTimes(scr.Value(), lastGraphic, k) == VtParser.PutTimes(old(scr.Value()), lastGraphic, n)
        modifies scr, scr.Frame()
      {
        scr.PutChar(lastGraphic);
        k := k - 1;
      }
      ScreenOnly();
    }

    /** DECSET and DECRST. */
    method DispatchPrivate(final: char)
      requires Valid() && priv
      modifies scr, scr.Frame()
      ensures Valid() && Value() == VtParser.DispatchCsi(old(Value()), final) && fresh(scr.Frame() - old(scr.Frame()))
      ensures scr.KeptFrom(old(scr.grid), old(scr.other), old(scr.inAlt))
    {
      hide Terminal.Value, Terminal.Formed, Screen.Valid, Display.Value, Display.Formed, VtParser.PrivateModes;
      Parts();
      if final == 'h' || final == 'l' {
        Dispatch.PrivateModes(scr, params[..numParams], final == 'h');
        ScreenOnly();
      }
    }

    /** The sequences that change nothing but the screen. */
    method DispatchScreen(final: char)
      requires Valid() && !priv && final !in {'b', 'g', 'n'}
      modifies scr, scr.Frame()
      ensures Valid() && Value() == VtParser.DispatchCsi(old(Value()), final) && fresh(scr.Frame() - old(scr.Frame()))
      ensures scr.KeptFrom(old(scr.grid), old(scr.other), old(scr.inAlt))
    {
      hide Terminal.Value, Terminal.Formed, Screen.Valid, Display.Value, Display.Formed, VtParser.CsiMove,
           VtParser.CsiEdit;
      Parts();
      var ps := params[..numParams];
      if IsMove(final) { Dispatch.CsiMove(scr, tabstops, final, ps); } else { Dispatch.CsiEdit(scr, final, ps); }
      ScreenOnly();
    }

    /** dispatch_csi. */
    method DispatchCsi(final: char)
      requires Valid()
      modifies this`cprRequested, tabstops, scr, scr.Frame()
      ensures Valid() && Value() == VtParser.DispatchCsi(old(Value()), final) && fresh(scr.Frame() - old(scr.Frame()))
      ensures scr.KeptFrom(old(scr.grid), old(scr.other), old(scr.inAlt))
    {
      hide Terminal.Value, Terminal.Formed, Screen.Valid, Display.Value, Display.Formed;
      hide VtParser.CsiMove, VtParser.CsiEdit, VtParser.PrivateModes, VtParser.PutTimes;
      Parts();
      var ps := params[..numParams];
      if priv { DispatchPrivate(final); }
      else if final !in {'b', 'g', 'n'} { DispatchScreen(final); }
      else if final == 'b' { Repeat(P(ps, 0, 1)); }
      else if final == 'g' { ClearTabs(P(ps, 0, 0)); }
      else { AskReport(P(ps, 0, 0) == 6); }
    }

    /** RIS. */
    method FullReset()
      requires Valid()
      modifies this`g0Dec, tabstops, scr
      ensures Valid() && fresh(scr.Frame())
      ensures Value() == old(Value()).(g0Dec := false,
                                       scr := Init(old(Value()).scr.rows, old(Value()).scr.cols, History([])),
                                       tabs := DefaultTabs(old(Value()).scr.cols))
    {
      hide Display.Value, Display.Formed, Screen.Valid, Init, DefaultTabs;
      scr.Parts();
      scr.Inside();
      var nr, nc := scr.rows, scr.cols;
      SetCharset(false);
      ResetTabs(tabstops, nc);
      scr.Reset(nr, nc, History([]));
    }

    /** IND. */
    method DispatchIndex()
      requires Valid()
      modifies scr, scr.Frame()
      ensures Valid() && Value() == VtParser.DispatchEsc(old(Value()), 'D') && fresh(scr.Frame() - old(scr.Frame()))
      ensures scr.KeptFrom(old(scr.grid), old(scr.other), old(scr.inAlt))
    {
      hide Terminal.Value, Terminal.Formed, Screen.Valid, Display.Value, Display.Formed;
      hide Vt.SaveCursor, Vt.RestoreCursor, Vt.LineFeed, Vt.ReverseIndex, Init, DefaultTabs;
      Parts();
      scr.LineFeed();
      ScreenOnly();
    }

    /** RI. */
    method DispatchReverse()
      requires Valid()
      modifies scr, scr.Frame()
      ensures Valid() && Value() == VtParser.DispatchEsc(old(Value()), 'M') && fresh(scr.Frame() - old(scr.Frame()))
      ensures scr.KeptFrom(old(scr.grid), old(scr.other), old(scr.inAlt))
    {
      hide Terminal.Value, Terminal.Formed, Screen.Valid, Display.Value, Display.Formed;
      hide Vt.SaveCursor, Vt.RestoreCursor, Vt.LineFeed, Vt.ReverseIndex, Init, DefaultTabs;
      Parts();
      scr.ReverseIndex();
      ScreenOnly();
    }

    /** NEL. */
    method DispatchNextLine()
      requires Valid()
      modifies scr, scr.Frame()
      ensures Valid() && Value() == VtParser.DispatchEsc(old(Value()), 'E') && fresh(scr.Frame() - old(scr.Frame()))
      ensures scr.KeptFrom(old(scr.grid), old(scr.other), old(scr.inAlt))
    {
      hide Terminal.Value, Terminal.Formed, Screen.Valid, Display.Value, Display.Formed;
      hide Vt.SaveCursor, Vt.RestoreCursor, Vt.LineFeed, Vt.ReverseIndex, Init, DefaultTabs;
      Parts();
      NextLine();
      ScreenOnly();
    }

    /** DECSC and DECRC. */
    method DispatchSaved(final: char)
      requires Valid() && final in {'7', '8'}
      modifies scr
      ensures Valid() && Value() == VtParser.DispatchEsc(old(Value()), final) && scr.Frame() == old(scr.Frame())
      ensures scr.KeptFrom(old(scr.grid), old(scr.other), old(scr.inAlt))
    {
      hide Terminal.Value, Terminal.Formed, Screen.Valid, Display.Value, Display.Formed;
      hide Vt.SaveCursor, Vt.RestoreCursor, Vt.LineFeed, Vt.ReverseIndex, Init, DefaultTabs;
      Parts();
      if final == '7' { scr.SaveCursor(); } else { scr.RestoreCursor(); }
      ScreenOnly();
    }

    /** dispatch_esc. */
    method DispatchEsc(final: char)
      requires Valid()
      modifies this`g0Dec, tabstops, scr, scr.Frame()
      ensures Valid() && Value() == VtParser.DispatchEsc(old(Value()), final) && fresh(scr.Frame() - old(scr.Frame()))
      ensures final != 'c' ==> scr.KeptFrom(old(scr.grid), old(scr.other), old(scr.inAlt))
    {
      hide Terminal.Value, Terminal.Formed, Screen.Valid, Display.Value, Display.Formed;
      hide Vt.SaveCursor, Vt.RestoreCursor, Vt.LineFeed, Vt.ReverseIndex, Init, DefaultTabs;
      Parts();
      if final in {'7', '8'} { DispatchSaved(final); }
      else if final == 'D' { DispatchIndex(); }
      else if final == 'M' { DispatchReverse(); }
      else if final == 'E' { DispatchNextLine(); }
      else if final == 'H' { SetTab(); }
      else if final == 'c' { FullReset(); }
    }

    /** NEL: to the left margin, and then a line feed. */
    method NextLine()
      requires Valid()
      modifies scr, scr.Frame()
      ensures scr.Valid() && scr.Frame() == old(scr.Frame())
      ensures scr.KeptFrom(old(scr.grid), old(scr.other), old(scr.inAlt))
      ensures old(scr.Value()).(curCol := 0).Valid() && scr.Value() == Vt.LineFeed(old(scr.Value()).(curCol := 0))
    {
      hide Display.Value, Display.Formed, Vt.LineFeed;
      scr.Parts();
      scr.MoveTo(scr.curRow, 0, scr.pendingWrap);
      scr.LineFeed();
    }

    /* ---- vt_feed ---- */

    method FeedEsc(c: Byte)
      requires Valid()
      modifies this, params, inter, tabstops, scr, scr.Frame()
      ensures Valid() && Value() == VtParser.FeedEsc(old(Value()), c) && fresh(scr.Frame() - old(scr.Frame()))
      ensures c != 0x63 ==> scr.KeptFrom(old(scr.grid), old(scr.other), old(scr.inAlt))
    {
      hide Display.Value, Display.Formed, Terminal.Value, Terminal.Formed, Screen.Valid, VtParser.DispatchEsc;
      if c == 0x5B {
        CsiClear();
        SetState(CsiParam);
      } else if c == 0x5D {
        StartOsc();
      } else if c == 0x50 || c == 0x5E || c == 0x5F {
        SetState(Dcs);
      } else if 0x20 <= c <= 0x2F {
        StartInter(c);
      } else if 0x30 <= c <= 0x7E {
        DispatchEsc(c as char);
        SetState(Ground);
      } else {
        SetState(Ground);
      }
    }

    method StartOsc()
      requires Formed()
      modifies this`oscLen, this`state
      ensures Formed() && Value() == old(Value()).(oscLen := 0, state := Osc)
    {
      hide Display.Value, Display.Formed;
      oscLen, state := 0, Osc;
    }

    method StartInter(c: Byte)
      requires Formed()
      modifies this`escInter, this`state
      ensures Formed() && Value() == old(Value()).(escInter := c, state := EscInter)
    {
      hide Display.Value, Display.Formed;
      escInter, state := c, EscInter;
    }

    method FeedCsiInter(c: Byte)
      requires Valid()
      modifies this, inter, tabstops, scr, scr.Frame()
      ensures Valid() && Value() == VtParser.FeedCsiInter(old(Value()), c) && fresh(scr.Frame() - old(scr.Frame()))
      ensures scr.KeptFrom(old(scr.grid), old(scr.other), old(scr.inAlt))
    {
      hide Display.Value, Display.Formed, Terminal.Value, Terminal.Formed, Screen.Valid, VtParser.DispatchCsi;
      Parts();
      if 0x20 <= c <= 0x2F {
        AddInter(c);
        SetState(CsiInter);
      } else if 0x40 <= c <= 0x7E {
        DispatchCsi(c as char);
        SetState(Ground);
      } else {
        SetState(Ground);
      }
    }

    method FeedCsiParam(c: Byte)
      requires Valid()
      modifies this, params, inter, tabstops, scr, scr.Frame()
      ensures Valid() && Value() == VtParser.FeedCsiParam(old(Value()), c) && fresh(scr.Frame() - old(scr.Frame()))
      ensures scr.KeptFrom(old(scr.grid), old(scr.other), old(scr.inAlt))
    {
      hide Display.Value, Display.Formed, Terminal.Value, Terminal.Formed, Screen.Valid, VtParser.FeedCsiInter,
           VtParser.CsiDigit, VtParser.CsiSep;
      if 0x30 <= c <= 0x39 { CsiDigit(c - 0x30); }
      else if c == 0x3B { CsiSep(); }
      else if c == 0x3F { SetPriv(true); }
      else if 0x3C <= c <= 0x3E { }
      else { FeedCsiInter(c); }
    }

    method FeedGround(c: Byte)
      requires Valid() && state.Ground?
      modifies this, utf8Buf, scr, scr.Frame()
      ensures Valid() && fresh(scr.Frame() - old(scr.Frame()))
      ensures scr.KeptFrom(old(scr.grid), old(scr.other), old(scr.inAlt))
      ensures Value() == if c < 0x20 then VtParser.HandleC0(old(Value()), c) else if c == 0x7F then old(Value())
              else VtParser.FeedUtf8(old(Value()), c)
    {
      hide Display.Value, Display.Formed, Terminal.Value, Terminal.Formed, Screen.Valid, VtParser.HandleC0,
           VtParser.FeedUtf8;
      if c < 0x20 { HandleC0(c); } else if c != 0x7F { FeedUtf8(c); }
    }

    /** Strings, and charsets. */
    method FeedOther(c: Byte)
      requires Valid() && (state.EscInter? || state.Osc? || state.Dcs?) && c != 0x1B && c != 0x18 && c != 0x1A
      modifies this, osc
      ensures Valid() && Value() == VtParser.Feed(old(Value()), c) && scr.Frame() == old(scr.Frame())
      ensures scr.KeptFrom(old(scr.grid), old(scr.other), old(scr.inAlt))
    {
      hide Display.Value, Display.Formed, Terminal.Value, Terminal.Formed, Screen.Valid;
      Parts();
      if state.EscInter? {
        if 0x30 <= c <= 0x7E {
          if escInter == 0x28 && (c == 0x30 || c == 0x42) { SetCharset(c == 0x30); }
          SetState(Ground);
        }
      } else if state.Osc? {
        if c == 0x07 || c == 0x9C {
          EndOsc();
          SetState(Ground);
        } else {
          AddOsc(c);
        }
      } else if c == 0x07 || c == 0x9C {
        SetState(Ground);
      }
    }

    /** One byte. */
    method Feed(c: Byte)
      requires Valid()
      modifies this, params, inter, osc, utf8Buf, tabstops, scr, scr.Frame()
      ensures Valid() && Value() == VtParser.Feed(old(Value()), c) && fresh(scr.Frame() - old(scr.Frame()))
      ensures !Resets(old(Value()), c) ==> scr.KeptFrom(old(scr.grid), old(scr.other), old(scr.inAlt))
    {
      hide Display.Value, Display.Formed, Terminal.Value, Terminal.Formed, Screen.Valid, VtParser.FeedEsc,
           VtParser.FeedCsiParam, VtParser.FeedCsiInter;
      hide VtParser.HandleC0, VtParser.FeedUtf8;
      Parts();
      if (c == 0x18 || c == 0x1A) && !state.Ground? {
        SetState(Ground);
      } else if c == 0x1B {
        if state.Osc? { EndOsc(); }
        CsiClear();
        SetState(Esc);
      } else {
        match state {
          case Ground => FeedGround(c);
          case Esc => FeedEsc(c);
          case CsiParam => FeedCsiParam(c);
          case CsiInter => FeedCsiInter(c);
          case _ => FeedOther(c);
        }
      }
    }

    twostate lemma RowsKept()
      requires old(Formed()) && Formed()
      ensures scr.KeptFrom(old(scr.grid), old(scr.other), old(scr.inAlt)) ==>
                && multiset(old(scr.grid).Pointers()) == multiset(old(scr.grid.Pointers()))
                && (old(scr.other) != null
                    ==> multiset(old(scr.other).Pointers()) == multiset(old(scr.other.Pointers())))
    {
      hide Display.Formed, Display.Value, Display.KeptFrom;
      if scr.KeptFrom(old(scr.grid), old(scr.other), old(scr.inAlt)) { scr.RowsKept(); }
    }

    /** One byte of several; what of the grids there were once. */
    method FeedNext(c: Byte, ghost g: Grid, ghost o: Grid?, ghost alt: bool, ghost kept: bool)
      returns (ghost still: bool)
      requires Valid() && (kept ==> scr.KeptFrom(g, o, alt))
      modifies this, params, inter, osc, utf8Buf, tabstops, scr, scr.Frame()
      ensures Valid() && Value() == VtParser.Feed(old(Value()), c) && fresh(scr.Frame() - old(scr.Frame()))
      ensures still == (kept && !Resets(old(Value()), c)) && (still ==> scr.KeptFrom(g, o, alt))
    {
      hide Display.Value, Display.Formed, Terminal.Value, Terminal.Formed, Parser.Valid, VtParser.Feed, Resets;
      still := kept && !Resets(Value(), c);
      Feed(c);
    }

    lemma NothingChanged()
      ensures scr.KeptFrom(scr.grid, scr.other, scr.inAlt)
    {
    }

    /** Byte after byte. */
    method FeedEach(data: seq<Byte>)
      requires Valid()
      modifies this, params, inter, osc, utf8Buf, tabstops, scr, scr.Frame()
      ensures Valid() && Value() == FeedAll(old(Value()), data) && fresh(scr.Frame() - old(scr.Frame()))
      ensures NoReset(old(Value()), data) ==> scr.KeptFrom(old(scr.grid), old(scr.other), old(scr.inAlt))
    {
      hide Display.Value, Display.Formed, Display.KeptFrom, Terminal.Value, Terminal.Formed, Parser.Valid,
           VtParser.Feed, FeedAll, NoReset, Resets;
      ghost var p, frame, g, o, alt := Value(), scr.Frame(), scr.grid, scr.other, scr.inAlt;
      ghost var kept := true;
      var i: nat := 0;
      FedNothing(p, data[..0]);
      NothingChanged();
      while i < |data|
        invariant i <= |data| && Valid() && Value() == FeedAll(p, data[..i]) && fresh(scr.Frame() - frame)
        invariant kept == NoReset(p, data[..i]) && (kept ==> scr.KeptFrom(g, o, alt))
      {
        FedOneMore(p, data, i);
        kept := FeedNext(data[i], g, o, alt, kept);
        NoResetStep(p, data, i);
        i := i + 1;
      }
      assert data[..i] == data;
    }

    /** vt_feed: whatever comes in, no index leaves its buffer, and the row pointers stay as they must be. Unless a byte
        resets the terminal, the grids are those there were, each with the row pointers it had, in some order. */
    method FeedBytes(data: seq<Byte>)
      requires Valid()
      modifies this, params, inter, osc, utf8Buf, tabstops, scr, scr.Frame()
      ensures Valid() && Value() == FeedAll(old(Value()), data) && fresh(scr.Frame() - old(scr.Frame()))
      ensures NoReset(old(Value()), data) ==> scr.KeptFrom(old(scr.grid), old(scr.other), old(scr.inAlt))
      ensures NoReset(old(Value()), data) ==> multiset(old(scr.grid).Pointers()) == multiset(old(scr.grid.Pointers()))
      ensures NoReset(old(Value()), data) && old(scr.other) != null ==>
                multiset(old(scr.other).Pointers()) == multiset(old(scr.other.Pointers()))
    {
      hide Display.Value, Display.Formed, Display.KeptFrom, Terminal.Value, Terminal.Formed, Parser.Valid, FeedAll,
           NoReset;
      FeedEach(data);
      RowsKept();
    }
  }

  lemma FedNothing(p: Parser, data: seq<Byte>)
    requires p.Valid() && data == []
    ensures FeedAll(p, data) == p && NoReset(p, data)
  {
  }

  lemma FedOneMore(p: Parser, data: seq<Byte>, i: nat)
    requires p.Valid() && i < |data|
    ensures FeedAll(p, data[..i + 1]) == VtParser.Feed(FeedAll(p, data[..i]), data[i])
  {
    hide VtParser.Feed;
    assert data[..i + 1][..i] == data[..i];
  }

  function Fresh(nr: nat, nc: nat, h: History): (p: Parser)
    requires 1 <= nr && 2 <= nc
    ensures p.Valid()
  {
    Parser(Ground, [], 0, false, 0, [], 0, DefaultTabs(nc), false, 0, false, 0, Init(nr, nc, h))
  }
}
