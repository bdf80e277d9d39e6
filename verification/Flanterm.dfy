/** The escape sequence machine of src/flanterm/flanterm.c on top of the framebuffer backend. */
module Flanterm {
  import opened Words
  import opened Screen
  import S = Screen
  import opened Printing
  import opened Csi
  import opened Parser
  import opened ParserLaws
  import F = FbTerm

  class Terminal {
    const fb: F.FbTerm
    const theme: Theme
    const escValues: array<Dword>
    var tabSize: nat
    var autoflush: bool
    var controlSequence: bool
    var escape: bool
    var osc: bool
    var oscEscape: bool
    var rrr: bool                // digits of a value have been read
    var discardNext: bool
    var bold: bool
    var bgBold: bool
    var reverseVideo: bool
    var decPrivate: bool
    var insertMode: bool
    var csiUnhandled: bool
    var onlcr: bool
    var unicode: Utf8
    var gSelect: nat
    var decSet: seq<bool>        // charsets[i] is CHARSET_DEC_SPECIAL
    var currentCharset: nat
    var escapeOffset: Word
    var escValuesI: nat
    var savedCursorX: Word
    var savedCursorY: Word
    var primary: Shade
    var background: Shade
    var savedBold: bool
    var savedBgBold: bool
    var savedReverse: bool
    var savedCharset: nat
    var savedPrimary: Shade
    var savedBackground: Shade

    /** Every index the parser uses later is in range. */
    ghost predicate ParserOk()
      reads `tabSize, `escValuesI, `rrr, `unicode, `gSelect, `decSet, `currentCharset, `savedCharset
    {
      && ThemeOk(theme) && 0 < tabSize
      && escValues.Length == MAX_VALUES && escValuesI <= MAX_VALUES && (rrr ==> escValuesI < MAX_VALUES)
      && Utf8Ok(unicode) && gSelect <= 2 && |decSet| == 2 && currentCharset <= 1 && savedCharset <= 1
      && escValues as object != fb.queueMap as object
    }

    ghost predicate Valid()
      reads `tabSize, `escValuesI, `rrr, `unicode, `gSelect, `decSet, `currentCharset, `savedCharset
      reads fb, fb.grid, fb.queue, fb.queueMap
    {
      ParserOk() && fb.Valid()
    }

    /** The context as flanterm_fb_init leaves it. */
    constructor (fb: F.FbTerm, theme: Theme)
      requires fb.Valid() && ThemeOk(theme) && fb.top == 0 && fb.bottom == fb.rows && fb.scrollOn && fb.cursorOn
      requires fb.savedFg == 0 && fb.savedBg == 0 && fb.savedX == 0 && fb.savedY == 0
      ensures Valid() && this.fb == fb && this.theme == theme && fb.Abs() == old(fb.Abs())
      ensures State() == AtPowerOn(fb.Abs()) && escValuesI == 0 && !rrr
    {
      hide F.FbTerm.Valid, F.FbTerm.Abs;
      this.fb, this.theme := fb, theme;
      escValues := new Dword[MAX_VALUES](_ => 0);
      tabSize, autoflush := 8, true;
      controlSequence, escape, osc, oscEscape, rrr, discardNext, bold, bgBold := false, false, false, false, false, false, false, false;
      reverseVideo, decPrivate, insertMode, csiUnhandled, onlcr := false, false, false, false, true;
      unicode, gSelect, decSet, currentCharset, escapeOffset, escValuesI := Utf8(0, 0), 0, [false, true], 0, 0, 0;
      savedCursorX, savedCursorY, primary, background := 0, 0, -1, -1;
      savedBold, savedBgBold, savedReverse, savedCharset, savedPrimary, savedBackground := false, false, false, 0, 0, 0;
    }

    ghost function LookNow(): Look
      reads `bold, `bgBold, `reverseVideo, `primary, `background
    {
      Look(bold, bgBold, reverseVideo, primary, background)
    }

    /** The colours in use and the attributes. */
    ghost function Colouring(): Paint
      reads `bold, `bgBold, `reverseVideo, `primary, `background, fb`fg, fb`bg
    {
      Paint(fb.fg, fb.bg, LookNow())
    }

    /** What ESC 7 has saved. */
    ghost function KeptNow(): Kept
      reads `savedBold, `savedBgBold, `savedReverse, `savedCharset, `savedPrimary, `savedBackground
      reads fb`savedFg, fb`savedBg, fb`savedX, fb`savedY
    {
      Kept(Look(savedBold, savedBgBold, savedReverse, savedPrimary, savedBackground), savedCharset,
                fb.savedFg, fb.savedBg, fb.savedX, fb.savedY)
    }

    ghost function ModeNow(): Mode
      reads `escape, `controlSequence, `osc, `oscEscape, `discardNext, `decPrivate, `csiUnhandled, `escapeOffset, `gSelect, `unicode
    {
      Mode(escape, controlSequence, osc, oscEscape, discardNext, decPrivate, csiUnhandled, escapeOffset, gSelect, unicode)
    }

    /** The parameters, which matter only inside a control sequence. */
    ghost function ParamsNow(): Params
      reads `controlSequence, `escValuesI, `rrr, escValues
    {
      if controlSequence then Params(escValues[..], escValuesI, rrr) else NO_PARAMS
    }

    ghost function SetupNow(): Setup
      reads `decSet, `currentCharset, `insertMode, `onlcr, `tabSize, `autoflush, `savedCursorX, `savedCursorY, fb`cursorOn
    {
      Setup(decSet, currentCharset, insertMode, onlcr, tabSize, autoflush, savedCursorX, savedCursorY, fb.cursorOn)
    }

    /** The state as a value. */
    ghost function State(): (t: Term)
      requires Valid()
      reads this, escValues, fb, fb.grid, fb.queue, fb.queueMap
      ensures Fine(t)
    {
      Term(fb.Abs(), LookNow(), KeptNow(), ModeNow(), ParamsNow(), SetupNow())
    }

    // ----- colours -----

    /** set_text_fg and set_text_bg with their bright and default forms. */
    method SetColour(isFg: bool, shade: Shade, bright: bool)
      requires Valid()
      modifies fb`fg, fb`bg
      ensures Valid() && fb.Abs() == old(fb.Abs()).(fg := fb.fg, bg := fb.bg)
      ensures Colouring() == Drawn(old(Colouring()), isFg, if isFg then Foreground(theme, shade, bright) else Background(theme, shade, bright))
    {
      hide F.FbTerm.Valid, F.Overlay, Fine;
      if shade != -1 {
        var c := if bright then theme.bright[shade] else theme.ansi[shade];
        if isFg { fb.SetTextFg(c); } else { fb.SetTextBg(c); }
      } else if isFg {
        fb.SetTextFg(if bright then theme.fgBright else theme.fg);
      } else {
        fb.SetTextBg(if bright then theme.bgBright else 0xFFFF_FFFF);
      }
    }

    method SetRgb(isFg: bool, rgb: bv32)
      requires Valid()
      modifies fb`fg, fb`bg
      ensures Valid() && fb.Abs() == old(fb.Abs()).(fg := fb.fg, bg := fb.bg)
      ensures Colouring() == Drawn(old(Colouring()), isFg, theme.convert(rgb))
    {
      hide F.FbTerm.Valid, F.Overlay, Fine;
      if isFg { fb.SetTextFg(theme.convert(rgb)); } else { fb.SetTextBg(theme.convert(rgb)); }
    }

    method SwapPalette()
      requires Valid()
      modifies fb`fg, fb`bg
      ensures Valid() && fb.Abs() == old(fb.Abs()).(fg := fb.fg, bg := fb.bg)
      ensures Colouring() == Paint(old(fb.bg), old(fb.fg), LookNow())
    {
      hide F.FbTerm.Valid, F.Overlay, Fine, LookNow, ParserOk;
      fb.SwapPalette();
    }

    method SgrReset()
      requires Valid()
      modifies fb`fg, fb`bg, `bold, `bgBold, `reverseVideo, `primary, `background
      ensures Valid() && fb.Abs() == old(fb.Abs()).(fg := fb.fg, bg := fb.bg)
      ensures Colouring() == SgrOne(theme, old(Colouring()), 0)
    {
      hide F.FbTerm.Valid, F.Overlay, Fine, ParserOk, Foreground, Background;
      if reverseVideo {
        reverseVideo := false;
        SwapPalette();
      }
      bold, bgBold, primary, background := false, false, -1, -1;
      SetColour(false, -1, false);
      SetColour(true, -1, false);
    }

    /** 39 and 49: the default colour, set on the unswapped palette. */
    method SetDefault(isFg: bool)
      requires Valid()
      modifies fb`fg, fb`bg, `primary, `background
      ensures Valid() && fb.Abs() == old(fb.Abs()).(fg := fb.fg, bg := fb.bg)
      ensures Colouring() == SgrOne(theme, old(Colouring()), if isFg then 39 else 49)
    {
      hide F.FbTerm.Valid, F.Overlay, Fine, ParserOk, Foreground, Background;
      if isFg { primary := -1; } else { background := -1; }
      if reverseVideo { SwapPalette(); }
      SetColour(isFg, -1, if isFg then bold else bgBold);
      if reverseVideo { SwapPalette(); }
    }

    method SgrPalette(isFg: bool, col: Dword)
      requires Valid()
      modifies fb`fg, fb`bg
      ensures Valid() && fb.Abs() == old(fb.Abs()).(fg := fb.fg, bg := fb.bg)
      ensures Colouring() == if col < 256 then Drawn(old(Colouring()), isFg, Palette(theme, col)) else old(Colouring())
    {
      hide F.FbTerm.Valid, F.Overlay, Fine, Utf8Ok;
      if col < 8 { SetColour(isFg, col, false); }
      else if col < 16 { SetColour(isFg, col - 8, true); }
      else if col < 256 { SetRgb(isFg, theme.col256[col - 16]); }
    }

    method SetTrueColour(isFg: bool, r: Dword, g: Dword, b: Dword)
      requires Valid()
      modifies fb`fg, fb`bg
      ensures Valid() && fb.Abs() == old(fb.Abs()).(fg := fb.fg, bg := fb.bg)
      ensures Colouring() == Drawn(old(Colouring()), isFg, theme.convert(Rgb(r, g, b)))
    {
      hide F.FbTerm.Valid, F.FbTerm.Abs, Fine, ParserOk, LookNow;
      var rgb: bv32 := 0;
      rgb := rgb | (r as bv32 << 16);
      rgb := rgb | (g as bv32 << 8);
      rgb := rgb | (b as bv32);
      SetRgb(isFg, rgb);
    }

    /** 38 and 48: a colour of the 256-colour palette or an RGB value; incomplete ones end the sequence. */
    method SgrExtended(i0: nat) returns (i: nat)
      requires Valid() && i0 < escValuesI && (escValues[i0] == 38 || escValues[i0] == 48)
      modifies fb`fg, fb`bg
      ensures Valid() && fb.Abs() == old(fb.Abs()).(fg := fb.fg, bg := fb.bg)
      ensures (Colouring(), i - i0) == Parser.SgrExtended(theme, old(Colouring()), escValues[i0..escValuesI])
    {
      hide F.FbTerm.Valid, F.Overlay, Fine, Utf8Ok, ThemeOk, Palette, Rgb, LookNow;
      ghost var v := escValues[i0..escValuesI];
      assert v[0] == escValues[i0] && (|v| > 1 ==> v[1] == escValues[i0 + 1]) && (|v| > 2 ==> v[2] == escValues[i0 + 2]);
      assert |v| > 4 ==> v[3] == escValues[i0 + 3] && v[4] == escValues[i0 + 4];
      var isFg := escValues[i0] == 38;
      i := i0 + 1;
      if i >= escValuesI { return; }
      if escValues[i] == 2 {
        if i + 3 >= escValuesI { return escValuesI; }
        SetTrueColour(isFg, escValues[i + 1], escValues[i + 2], escValues[i + 3]);
        return i + 4;
      } else if escValues[i] == 5 {
        if i + 1 >= escValuesI { return escValuesI; }
        SgrPalette(isFg, escValues[i + 1]);
        return i + 2;
      }
      return i + 1;
    }

    /** 1, 5, 22 and 25 */
    method SgrIntensity(v: Dword)
      requires Valid() && (v == 1 || v == 5 || v == 22 || v == 25)
      modifies fb`fg, fb`bg, `bold, `bgBold
      ensures Valid() && fb.Abs() == old(fb.Abs()).(fg := fb.fg, bg := fb.bg)
      ensures Colouring() == SgrOne(theme, old(Colouring()), v)
    {
      hide F.FbTerm.Valid, F.Overlay, Fine, ParserOk, Foreground, Background;
      if v == 1 || v == 22 {
        bold := v == 1;
        SetColour(!reverseVideo, primary, bold);
      } else {
        bgBold := v == 5;
        SetColour(reverseVideo, background, bgBold);
      }
    }

    /** 30-37 and 40-47 use the attributes' brightness, 90-97 and 100-107 the bright colours. */
    method SgrShade(v: Dword)
      requires Valid() && (30 <= v <= 37 || 40 <= v <= 47 || 90 <= v <= 97 || 100 <= v <= 107)
      modifies fb`fg, fb`bg, `primary, `background
      ensures Valid() && fb.Abs() == old(fb.Abs()).(fg := fb.fg, bg := fb.bg)
      ensures Colouring() == SgrOne(theme, old(Colouring()), v)
    {
      hide F.FbTerm.Valid, F.Overlay, Fine, ParserOk, Foreground, Background;
      if v < 40 {
        primary := v - 30;
        SetColour(!reverseVideo, primary, bold);
      } else if v < 50 {
        background := v - 40;
        SetColour(reverseVideo, background, bgBold);
      } else if v < 100 {
        primary := v - 90;
        SetColour(!reverseVideo, primary, true);
      } else {
        background := v - 100;
        SetColour(reverseVideo, background, true);
      }
    }

    /** 7 and 27 */
    method SgrReverse(on: bool)
      requires Valid()
      modifies fb`fg, fb`bg, `reverseVideo
      ensures Valid() && fb.Abs() == old(fb.Abs()).(fg := fb.fg, bg := fb.bg)
      ensures Colouring() == SgrOne(theme, old(Colouring()), if on then 7 else 27)
    {
      hide F.FbTerm.Valid, F.Overlay, Fine, ParserOk, Foreground, Background;
      if reverseVideo != on {
        reverseVideo := on;
        SwapPalette();
      }
    }

    /** One round of the loop of sgr. */
    method SgrValue(i: nat) returns (next: nat)
      requires Valid() && i < escValuesI
      modifies fb`fg, fb`bg, `bold, `bgBold, `reverseVideo, `primary, `background
      ensures Valid() && fb.Abs() == old(fb.Abs()).(fg := fb.fg, bg := fb.bg) && i < next <= escValuesI
      ensures SgrAll(theme, old(Colouring()), escValues[i..escValuesI]) == SgrAll(theme, Colouring(), escValues[next..escValuesI])
    {
      hide F.FbTerm.Valid, F.Overlay, Fine, ThemeOk, Utf8Ok, SgrOne, Parser.SgrExtended;
      ghost var p, vs := Colouring(), escValues[i..escValuesI];
      var v := escValues[i];
      assert vs[0] == v;
      next := i + 1;
      if v == 0 { SgrReset(); }
      else if v == 1 || v == 5 || v == 22 || v == 25 { SgrIntensity(v); }
      else if 30 <= v <= 37 || 40 <= v <= 47 || 90 <= v <= 97 || 100 <= v <= 107 { SgrShade(v); }
      else if v == 39 { SetDefault(true); }
      else if v == 49 { SetDefault(false); }
      else if v == 7 { SgrReverse(true); }
      else if v == 27 { SgrReverse(false); }
      else if v == 38 || v == 48 { next := SgrExtended(i); }
      else { SgrNothing(theme, p, v); }
      assert escValues[next..escValuesI] == vs[next - i..];
    }

    /** sgr */
    method Sgr()
      requires Valid()
      modifies fb`fg, fb`bg, `bold, `bgBold, `reverseVideo, `primary, `background
      ensures Valid() && fb.Abs() == old(fb.Abs()).(fg := fb.fg, bg := fb.bg)
      ensures Colouring() == SgrAll(theme, old(Colouring()), if escValuesI == 0 then [0] else escValues[..escValuesI])
    {
      hide F.FbTerm.Valid, F.Overlay, Fine, ThemeOk, Utf8Ok, SgrOne;
      ghost var p := Colouring();
      if escValuesI == 0 {
        SgrReset();
        SgrSingle(theme, p, 0);
        return;
      }
      var i := 0;
      assert escValues[0..escValuesI] == escValues[..escValuesI];
      while i < escValuesI
        invariant i <= escValuesI && Valid() && fb.Abs() == old(fb.Abs()).(fg := fb.fg, bg := fb.bg)
        invariant SgrAll(theme, Colouring(), escValues[i..escValuesI]) == SgrAll(theme, p, escValues[..escValuesI])
        decreases escValuesI - i
      {
        i := SgrValue(i);
      }
    }

    // ----- control sequences; (x, y) is where the cursor is reported -----

    ghost predicate Here(x: Word, y: Word)
      requires fb.Valid()
      reads fb, fb.grid, fb.queue, fb.queueMap
    {
      x < fb.cols && y < fb.rows && y == GetY(fb.Abs()) && x == GetX(fb.Abs())
    }

    lemma Where()
      requires Valid()
      ensures var s := fb.Abs();
              && Ok(s) && s.cols == fb.cols < TWO64 && s.rows == fb.rows < TWO64 && s.x == fb.cursorX && s.y == fb.cursorY
              && s.top == fb.top && s.bottom == fb.bottom && s.scrollOn == fb.scrollOn && s.fg == fb.fg && s.bg == fb.bg
              && GetX(s) < fb.cols && GetY(s) < fb.rows
      ensures 0 < fb.cols && 0 < fb.rows && ThemeOk(theme) && escValues.Length == MAX_VALUES
    {
      hide F.FbTerm.Valid, F.Overlay;
      fb.Sizes();
    }

    lemma Flags()
      requires Valid()
      ensures State().mode == Mode(escape, controlSequence, osc, oscEscape, discardNext, decPrivate, csiUnhandled, escapeOffset, gSelect, unicode)
    {
      hide F.FbTerm.Valid, F.FbTerm.Abs, Fine;
    }

    lemma Pars()
      requires Valid() && controlSequence
      ensures State().pars == Params(escValues[..], escValuesI, rrr)
      ensures escValues.Length == MAX_VALUES && escValuesI <= MAX_VALUES && (rrr ==> escValuesI < MAX_VALUES)
    {
      hide F.FbTerm.Valid, F.FbTerm.Abs, Fine, ThemeOk, Utf8Ok;
    }

    /** set_cursor_pos inside the screen. */
    method GoTo(x: Word, y: Word)
      requires Valid() && x < fb.cols && y < fb.rows
      modifies fb`cursorX, fb`cursorY
      ensures x < old(fb.Abs()).cols && y < old(fb.Abs()).rows
      ensures Valid() && fb.Abs() == MoveTo(old(fb.Abs()), x, y)
    {
      hide F.FbTerm.Valid, F.FbTerm.Abs, Ok;
      Where();
      fb.SetCursorPos(x, y);
    }

    method CursorUp(x: Word, y: Word)
      requires Valid() && x < fb.cols && y < fb.rows
      modifies escValues, fb`cursorX, fb`cursorY
      ensures x < old(fb.Abs()).cols && UpRow(old(fb.Abs()), y, old(escValues[0])) < old(fb.Abs()).rows
      ensures Valid() && fb.Abs() == MoveTo(old(fb.Abs()), x, UpRow(old(fb.Abs()), y, old(escValues[0])))
    {
      hide F.FbTerm.Valid, F.FbTerm.Abs, SetCursor, MoveTo;
      Where();
      if escValues[0] > y { escValues[0] := y; }
      var destY := y - escValues[0];
      var inRegion := (destY <= fb.top <= y) || (destY <= fb.bottom <= y);
      if inRegion && destY < fb.top { destY := fb.top; }
      GoTo(x, destY);
    }

    method CursorDown(x: Word, y: Word)
      requires Valid() && x < fb.cols && y < fb.rows
      modifies escValues, fb`cursorX, fb`cursorY
      ensures x < old(fb.Abs()).cols && DownRow(old(fb.Abs()), y, old(escValues[0])) < old(fb.Abs()).rows
      ensures Valid() && fb.Abs() == MoveTo(old(fb.Abs()), x, DownRow(old(fb.Abs()), y, old(escValues[0])))
    {
      hide F.FbTerm.Valid, F.FbTerm.Abs, SetCursor, MoveTo;
      Where();
      if y + escValues[0] > fb.rows - 1 { escValues[0] := fb.rows - 1 - y; }
      var destY := y + escValues[0];
      var inRegion := (y <= fb.top <= destY) || (y <= fb.bottom <= destY);
      if inRegion && destY >= fb.bottom { destY := fb.bottom - 1; }
      GoTo(x, destY);
    }

    method CursorSideways(right: bool, x: Word, y: Word)
      requires Valid() && x < fb.cols && y < fb.rows
      modifies escValues, fb`cursorX, fb`cursorY
      ensures x < old(fb.Abs()).cols && y < old(fb.Abs()).rows
      ensures Valid() && fb.Abs() == MoveTo(old(fb.Abs()), if right then Min(x + old(escValues[0]), fb.cols - 1) else x - Min(old(escValues[0]), x), y)
    {
      hide F.FbTerm.Valid, F.FbTerm.Abs, SetCursor, MoveTo;
      Where();
      if right {
        if x + escValues[0] > fb.cols - 1 { escValues[0] := fb.cols - 1 - x; }
        GoTo(x + escValues[0], y);
      } else {
        if escValues[0] > x { escValues[0] := x; }
        GoTo(x - escValues[0], y);
      }
    }

    /** CSI d and CSI G: 0 wraps around in 32 bits and is then cut. */
    method CursorTo(row: bool, x: Word, y: Word)
      requires Valid() && x < fb.cols && y < fb.rows
      modifies escValues, fb`cursorX, fb`cursorY
      ensures Valid()
      ensures var s, n := old(fb.Abs()), old(escValues[0]);
              && x < s.cols && y < s.rows && Ok(s) && s.rows == fb.rows && s.cols == fb.cols
              && fb.Abs() == if row then MoveTo(s, x, OneBased(n, s.rows, Min(0xFFFF_FFFF, s.rows - 1)))
                             else MoveTo(s, OneBased(n, s.cols, Min(0xFFFF_FFFF, s.cols - 1)), y)
    {
      hide F.FbTerm.Valid, F.FbTerm.Abs, SetCursor, MoveTo;
      Where();
      var limit := if row then fb.rows else fb.cols;
      var n: Dword := if escValues[0] == 0 then 0xFFFF_FFFF else escValues[0] - 1;
      escValues[0] := n;
      if escValues[0] >= limit { escValues[0] := limit - 1; }
      if row { GoTo(x, escValues[0]); } else { GoTo(escValues[0], y); }
    }

    /** CSI H puts the cursor at one-based coordinates, 0 counting as 1, cut to the screen. */
    method CursorPosition()
      requires Valid()
      modifies escValues, fb`cursorX, fb`cursorY
      ensures Valid()
      ensures var s := old(fb.Abs());
              && Ok(s) && s.rows == fb.rows && s.cols == fb.cols
              && fb.Abs() == MoveTo(s, OneBased(old(escValues[1]), s.cols, 0), OneBased(old(escValues[0]), s.rows, 0))
    {
      hide F.FbTerm.Valid, F.FbTerm.Abs, SetCursor, MoveTo;
      Where();
      if escValues[0] != 0 { escValues[0] := escValues[0] - 1; }
      if escValues[1] != 0 { escValues[1] := escValues[1] - 1; }
      if escValues[1] >= fb.cols { escValues[1] := fb.cols - 1; }
      if escValues[0] >= fb.rows { escValues[0] := fb.rows - 1; }
      GoTo(escValues[1], escValues[0]);
    }

    method ScrollLines()
      requires Valid()
      modifies fb`queueI, fb.queue, fb.queueMap
      ensures Valid() && fb.Abs() == Scrolled(old(fb.Abs()), Min(escValues[0], fb.rows))
    {
      hide F.FbTerm.Valid, F.FbTerm.Abs, Scroll;
      ghost var s := fb.Abs();
      var count := if escValues[0] > fb.rows then fb.rows else escValues[0];
      for i := 0 to count
        invariant Valid() && fb.Abs() == Scrolled(s, i)
      {
        fb.Scroll();
      }
    }

    /** CSI L: revscroll with the top margin at the cursor. */
    method InsertLines(y: Word)
      requires Valid() && y < fb.rows
      modifies fb`queueI, fb.queue, fb.queueMap
      ensures y < old(fb.Abs()).rows
      ensures Valid() && fb.Abs() == RevScrolled(old(fb.Abs()), y, Min(escValues[0], fb.rows))
    {
      hide F.FbTerm.Valid, F.FbTerm.Abs, RevScrollFrom, Ok;
      Where();
      ghost var s := fb.Abs();
      var count := if escValues[0] > fb.rows then fb.rows else escValues[0];
      for i := 0 to count
        invariant Valid() && fb.Abs() == RevScrolled(s, y, i)
      {
        fb.RevScrollFrom(y);
      }
    }

    /** n blanks at the cursor. */
    method PutBlanks(n: nat)
      requires Valid()
      modifies fb`queueI, fb`cursorX, fb`cursorY, fb.queue, fb.queueMap
      ensures Valid() && fb.Abs() == RawBlanks(old(fb.Abs()), n)
    {
      hide F.FbTerm.Valid, F.FbTerm.Abs, RawPut;
      for i := 0 to n
        invariant Valid() && fb.Abs() == RawBlanks(old(fb.Abs()), i)
      {
        fb.RawPutchar(0x20);
      }
    }

    /** CSI J */
    method EraseDisplay(x: Word, y: Word)
      requires Valid() && Here(x, y)
      modifies fb`queueI, fb`cursorX, fb`cursorY, fb.queue, fb.queueMap
      ensures Valid() && fb.Abs() == DisplayErased(old(fb.Abs()), escValues[0])
    {
      hide F.FbTerm.Valid, F.FbTerm.Abs, RawPut, RawBlanks, SetCursor, Clear, GetX, GetY;
      Where();
      if escValues[0] == 0 {
        PutBlanks(Cells(fb.rows - (y + 1), fb.cols) + (fb.cols - (x + 1)) + 1);
        fb.SetCursorPos(x, y);
      } else if escValues[0] == 1 {
        EraseToCursor(x, y);
      } else if escValues[0] == 2 || escValues[0] == 3 {
        fb.Clear(false);
      }
    }

    /** Blanks from the top left corner up to and including (x, y). */
    method EraseToCursor(x: Word, y: Word)
      requires Valid() && x < fb.cols && y < fb.rows
      modifies fb`queueI, fb`cursorX, fb`cursorY, fb.queue, fb.queueMap
      ensures Valid() && fb.Abs() == SetCursor(RawBlanks(SetCursor(old(fb.Abs()), 0, 0), Cells(y, fb.cols) + x + 1), x, y)
    {
      hide F.FbTerm.Valid, F.FbTerm.Abs, RawPut, SetCursor, Cells;
      fb.SetCursorPos(0, 0);
      ghost var s := fb.Abs();
      var b, yc := false, 0;
      CellsStep(0, fb.cols);
      while yc < fb.rows && !b
        invariant Valid() && yc <= fb.rows && (b || yc <= y)
        invariant fb.Abs() == if b then SetCursor(RawBlanks(s, Cells(y, fb.cols) + x + 1), x, y) else RawBlanks(s, Cells(yc, fb.cols))
        decreases fb.rows - yc
      {
        var xc := 0;
        while xc < fb.cols && !b
          invariant Valid() && xc <= fb.cols && (b || yc < y || xc <= x)
          invariant fb.Abs() == if b then SetCursor(RawBlanks(s, Cells(y, fb.cols) + x + 1), x, y) else RawBlanks(s, Cells(yc, fb.cols) + xc)
          decreases fb.cols - xc
        {
          fb.RawPutchar(0x20);
          if xc == x && yc == y {
            fb.SetCursorPos(x, y);
            b := true;
          }
          xc := xc + 1;
        }
        CellsStep(yc, fb.cols);
        yc := yc + 1;
      }
    }

    /** CSI @ */
    method InsertBlanks(x: Word, y: Word)
      requires Valid() && x < fb.cols && y < fb.rows
      modifies fb`queueI, fb`cursorX, fb`cursorY, fb.queue, fb.queueMap
      ensures x < old(fb.Abs()).cols && y < old(fb.Abs()).rows
      ensures Valid() && fb.Abs() == CharsInserted(old(fb.Abs()), x, y, escValues[0]).(x := x, y := y)
    {
      hide F.FbTerm.Valid, F.FbTerm.Abs, RawPut, SetCursor, MoveCell, Opened, CharsInserted, MoveTo, Ok;
      Where();
      ghost var s := fb.Abs();
      var i := fb.cols - 1;
      OpenedNothing(s, y, escValues[0]);
      while true
        invariant Valid() && x <= i < fb.cols && Around(s, y)
        invariant fb.Abs() == Opened(s, i + 1, y, escValues[0]).(x := fb.cursorX, y := fb.cursorY)
        decreases i
      {
        OpenedStep(s, i, y, escValues[0], fb.cursorX, fb.cursorY);
        fb.MoveCharacter(i + escValues[0], y, i, y);
        fb.SetCursorPos(i, y);
        fb.RawPutchar(0x20);
        Where();
        if i == x { break; }
        i := i - 1;
      }
      OpenedAll(s, x, y, escValues[0], fb.cursorX, fb.cursorY);
      fb.SetCursorPos(x, y);
    }

    ghost predicate Around(s: Screen, y: nat) {
      Ok(s) && s.cols == fb.cols && s.rows == fb.rows && y < s.rows
    }

    /** CSI X */
    method EraseChars(x: Word, y: Word)
      requires Valid()
      modifies fb`queueI, fb`cursorX, fb`cursorY, fb.queue, fb.queueMap
      ensures Valid() && fb.Abs() == CharsErased(old(fb.Abs()), escValues[0], x, y)
    {
      hide F.FbTerm.Valid, F.FbTerm.Abs, RawPut, RawBlanks, SetCursor, Ok;
      Where();
      PutBlanks(if escValues[0] > fb.cols then fb.cols else escValues[0]);
      fb.SetCursorPos(x, y);
    }

    /** CSI P */
    method DeleteChars(x: Word, y: Word)
      requires Valid() && x < fb.cols && y < fb.rows
      modifies fb`queueI, fb`cursorX, fb`cursorY, fb.queue, fb.queueMap
      ensures x < old(fb.Abs()).cols && y < old(fb.Abs()).rows
      ensures Valid()
      ensures var s, n := old(fb.Abs()), escValues[0];
              Ok(s) && fb.Abs() == if x + n <= s.cols then CharsDeleted(s, x, y, n).(x := x, y := y)
                                   else CharsErased(SetCursor(s, (s.cols - n) % TWO64, y), n, x, y)
    {
      hide F.FbTerm.Valid, F.FbTerm.Abs, RawPut, SetCursor, MoveCell, Pulled, CharsDeleted, CharsErased, Ok;
      Where();
      ghost var s, n := fb.Abs(), escValues[0];
      if x + n <= s.cols { PulledNothing(s, x, y, n); }
      var i: nat := x + escValues[0];
      while i < fb.cols
        invariant Valid() && i >= x + n && Around(s, y) && (x + n <= fb.cols ==> i <= fb.cols)
        invariant fb.Abs() == if x + n <= fb.cols then Pulled(s, x, y, n, i) else s
      {
        PulledStep(s, x, y, n, i);
        fb.MoveCharacter(i - escValues[0], y, i, y);
        i := i + 1;
      }
      if x + n <= s.cols { PulledAll(s, x, y, n); }
      fb.SetCursorPos((fb.cols - escValues[0]) % TWO64, y);
      EraseChars(x, y);
    }

    /** CSI K blanks the row behind, before or around the cursor and leaves the cursor where it is. */
    method EraseLine(x: Word, y: Word)
      requires Valid() && Here(x, y)
      modifies fb`queueI, fb`cursorX, fb`cursorY, fb.queue, fb.queueMap
      ensures Valid() && fb.Abs() == LineErased(old(fb.Abs()), escValues[0])
    {
      hide F.FbTerm.Valid, F.FbTerm.Abs, RawPut, RawBlanks, SetCursor, RowBlanked, GetX, GetY, Ok;
      ghost var s := fb.Abs();
      Where();
      ErasedRow(s, x, y);
      LineErasedIs(s);
      if escValues[0] == 0 {
        PutBlanks(fb.cols - x);
        fb.SetCursorPos(x, y);
      } else if escValues[0] == 1 {
        fb.SetCursorPos(0, y);
        PutBlanks(x);
      } else if escValues[0] == 2 {
        fb.SetCursorPos(0, y);
        PutBlanks(fb.cols);
        fb.SetCursorPos(x, y);
      }
    }

    /** CSI r: margins of at least two rows inside the screen, or else the whole screen. */
    method SetScrollRegion()
      requires Valid()
      modifies escValues, fb`top, fb`bottom, fb`cursorX, fb`cursorY
      ensures Valid() && fb.Abs() == Region(old(fb.Abs()), old(escValues[0]), old(escValues[1]), escValuesI)
    {
      hide F.FbTerm.Valid, F.FbTerm.Abs, ThemeOk, Utf8Ok, GetX, GetY, Ok;
      Where();
      if escValues[0] == 0 { escValues[0] := 1; }
      if escValues[1] == 0 { escValues[1] := 1; }
      var t: nat, b: nat := 0, fb.rows;
      if escValuesI > 0 { t := escValues[0] - 1; }
      if escValuesI > 1 { b := escValues[1]; }
      if t >= fb.rows || b > fb.rows || t >= b - 1 { t, b := 0, fb.rows; }
      fb.SetMargins(t, b);
      GoTo(0, 0);
    }

    // ----- the parser -----

    /** dec_private_parse, and the end of the sequence. */
    method DecPrivateParse(c: Byte)
      requires Valid() && controlSequence
      modifies `decPrivate, `controlSequence, `escape, fb`cursorOn
      ensures Valid() && State() == PrivateEnds(old(State()), c)
    {
      hide F.FbTerm.Valid, F.FbTerm.Abs, Fine, LookNow, KeptNow, ModeNow, ParamsNow, SetupNow, ParserOk, PrivateEnds, Ended;
      Pars();
      PrivateSteps(State(), c);
      SetPrivate(false);
      if escValuesI != 0 && (c == B('h') || c == B('l')) && escValues[0] == 25 {
        SwitchCursor(c == B('h'));
      }
      EndSequence();
    }

    method SwitchCursor(on: bool)
      requires Valid()
      modifies fb`cursorOn
      ensures Valid() && State() == old(State()).(setup := old(State()).setup.(cursorOn := on))
    {
      hide F.FbTerm.Valid, F.FbTerm.Abs, ThemeOk, Utf8Ok, Fine, LookNow, KeptNow, ModeNow, ParamsNow;
      fb.SetCursorOn(on);
    }

    method SetPrivate(on: bool)
      requires Valid()
      modifies `decPrivate
      ensures Valid() && State() == old(State()).(mode := old(State()).mode.(private := on))
    {
      hide F.FbTerm.Valid, F.FbTerm.Abs, Fine, LookNow, KeptNow, ParamsNow, SetupNow, ParserOk;
      decPrivate := on;
    }

    method ModeToggle(c: Byte)
      requires Valid()
      modifies `insertMode
      ensures Valid()
      ensures var t, on := old(State()), if escValuesI > 0 && escValues[0] == 4 && (c == B('h') || c == B('l')) then c == B('h') else old(insertMode);
              State() == t.(setup := t.setup.(insert := on)) && old(insertMode) == t.setup.insert
    {
      hide F.FbTerm.Valid, F.FbTerm.Abs, ThemeOk, Utf8Ok, Fine, LookNow, KeptNow, ModeNow, ParamsNow;
      if escValuesI == 0 || (c != B('h') && c != B('l')) { return; }
      if escValues[0] == 4 { insertMode := c == B('h'); }
    }

    /** The switch over final bytes; callbacks have no effect here.  False for a byte that is not in it. */
    method Dispatch(c: Byte, x: Word, y: Word) returns (known: bool)
      requires Valid() && Here(x, y) && controlSequence && !rrr && !fb.scrollOn
      modifies escValues, `insertMode, `savedCursorX, `savedCursorY, `bold, `bgBold, `reverseVideo, `primary, `background
      modifies fb`queueI, fb`cursorX, fb`cursorY, fb`fg, fb`bg, fb`top, fb`bottom, fb.queue, fb.queueMap
      ensures Valid() && known == IsKnown(c)
      ensures if known then State().(pars := NO_PARAMS) == Performed(theme, old(State()), c).(pars := NO_PARAMS) else State() == old(State())
    {
      hide F.FbTerm.Valid, F.FbTerm.Abs, ThemeOk, Utf8Ok, Fine, LookNow, KeptNow, ModeNow, GetX, GetY, Ok, Moved, Edited, Performed;
      Where();
      ghost var t := State();
      known := DispatchMove(c, x, y);
      if !known { known := DispatchEdit(c, x, y); }
      Where();
      if known {
        PerformedIs(theme, t, c);
      } else {
        known := DispatchRest(c, x, y);
      }
    }

    /** The cases that leave cells, cursor and margins alone. */
    method DispatchRest(c: Byte, x: Word, y: Word) returns (known: bool)
      requires Valid() && Here(x, y) && controlSequence && !rrr && !fb.scrollOn && !IsMove(c) && !IsEdit(c)
      modifies `insertMode, `savedCursorX, `savedCursorY, `bold, `bgBold, `reverseVideo, `primary, `background, fb`fg, fb`bg
      ensures Valid() && known == IsKnown(c)
      ensures if known then State() == Performed(theme, old(State()), c) else State() == old(State())
    {
      hide F.FbTerm.Valid, F.FbTerm.Abs, Fine, LookNow, KeptNow, ModeNow, ParamsNow, SetupNow, ParserOk, GetX, GetY, Ok, SgrAll, Effect;
      Pars();
      Where();
      known := true;
      if c == B('m') {
        SetColours();
      } else if c == B('s') { SaveCursor(); }
      else if c == B('l') || c == B('h') { ModeToggle(c); }
      else if c == B(']') || c == B('c') || c == B('n') || c == B('q') { PerformedNothing(theme, State(), c); }
      else { known := false; }
    }

    /** CSI m */
    method SetColours()
      requires Valid() && controlSequence
      modifies `bold, `bgBold, `reverseVideo, `primary, `background, fb`fg, fb`bg
      ensures Valid()
      ensures var t := old(State());
              State() == Painted(t, SgrAll(theme, PaintOf(t), if t.pars.index == 0 then [0] else t.pars.vals[..t.pars.index]))
    {
      hide F.FbTerm.Valid, F.FbTerm.Abs, ThemeOk, Utf8Ok, Fine, KeptNow, ModeNow, SetupNow, SgrAll;
      Where();
      assert escValues[..][..escValuesI] == escValues[..escValuesI];
      Sgr();
      Where();
    }

    /** The cases that move the cursor or set the margins. */
    method DispatchMove(c: Byte, x0: Word, y: Word) returns (known: bool)
      requires Valid() && Here(x0, y)
      modifies escValues, fb`cursorX, fb`cursorY, fb`top, fb`bottom
      ensures Valid() && known == IsMove(c)
      ensures known ==> fb.Abs() == Moved(old(fb.Abs()), c, old(escValues[0]), old(escValues[1]), escValuesI, savedCursorX, savedCursorY)
      ensures !known ==> fb.Abs() == old(fb.Abs()) && escValues[..] == old(escValues[..])
    {
      hide F.FbTerm.Valid, F.FbTerm.Abs, GetX, GetY, Ok, MoveTo, UpRow, DownRow, OneBased, Region, SetCursor, ThemeOk, Utf8Ok;
      Where();
      known := true;
      var x := if c == B('F') || c == B('E') then 0 else x0;
      if c == B('F') || c == B('A') { CursorUp(x, y); }
      else if c == B('E') || c == B('e') || c == B('B') { CursorDown(x, y); }
      else if c == B('a') || c == B('C') { CursorSideways(true, x, y); }
      else if c == B('D') { CursorSideways(false, x, y); }
      else { known := DispatchAbsolute(c, x, y); }
    }

    method DispatchAbsolute(c: Byte, x: Word, y: Word) returns (known: bool)
      requires Valid() && Here(x, y) && !(B('A') <= c <= B('F') || c == B('a') || c == B('e'))
      modifies escValues, fb`cursorX, fb`cursorY, fb`top, fb`bottom
      ensures Valid() && known == IsMove(c)
      ensures known ==> fb.Abs() == Moved(old(fb.Abs()), c, old(escValues[0]), old(escValues[1]), escValuesI, savedCursorX, savedCursorY)
      ensures !known ==> fb.Abs() == old(fb.Abs()) && escValues[..] == old(escValues[..])
    {
      hide F.FbTerm.Valid, F.FbTerm.Abs, GetX, GetY, Ok, MoveTo, UpRow, DownRow, OneBased, Region, SetCursor, ThemeOk, Utf8Ok;
      Where();
      known := true;
      if c == B('d') { CursorTo(true, x, y); }
      else if c == B('G') || c == B('`') { CursorTo(false, x, y); }
      else if c == B('H') || c == B('f') { CursorPosition(); }
      else if c == B('u') { RestoreCursor(); }
      else if c == B('r') { SetScrollRegion(); }
      else { known := false; }
    }

    /** The cases that change cells. */
    method DispatchEdit(c: Byte, x: Word, y: Word) returns (known: bool)
      requires Valid() && Here(x, y)
      modifies fb`queueI, fb`cursorX, fb`cursorY, fb.queue, fb.queueMap
      ensures Valid() && known == IsEdit(c)
      ensures fb.Abs() == if known then Edited(old(fb.Abs()), c, escValues[0]) else old(fb.Abs())
    {
      hide F.FbTerm.Valid, F.FbTerm.Abs, GetX, GetY, Ok, Scrolled, RevScrolled, DisplayErased, LineErased,
           CharsInserted, CharsDeleted, CharsErased, SetCursor, ThemeOk, Utf8Ok;
      Where();
      known := true;
      if c == B('M') { ScrollLines(); }
      else if c == B('L') { InsertLines(y); }
      else if c == B('J') { EraseDisplay(x, y); }
      else if c == B('@') { InsertBlanks(x, y); }
      else if c == B('P') { DeleteChars(x, y); }
      else if c == B('X') { EraseChars(x, y); }
      else if c == B('K') { EraseLine(x, y); }
      else { known := false; }
    }

    /** CSI s */
    method SaveCursor()
      requires Valid()
      modifies `savedCursorX, `savedCursorY
      ensures Valid() && Ok(old(fb.Abs())) && GetX(old(fb.Abs())) < TWO64 && GetY(old(fb.Abs())) < TWO64
      ensures var t := old(State()); State() == t.(setup := t.setup.(cx := GetX(t.s), cy := GetY(t.s)))
    {
      hide F.FbTerm.Valid, F.FbTerm.Abs, GetX, GetY, Fine, LookNow, KeptNow, ModeNow, ParamsNow, Ok, ParserOk;
      Where();
      var x, y := fb.GetCursorPos();
      savedCursorX, savedCursorY := x, y;
    }

    /** CSI u */
    method RestoreCursor()
      requires Valid()
      modifies fb`cursorX, fb`cursorY
      ensures Valid() && fb.Abs() == SetCursor(old(fb.Abs()), savedCursorX, savedCursorY)
    {
      hide F.FbTerm.Valid, F.FbTerm.Abs, SetCursor, ThemeOk, Utf8Ok;
      fb.SetCursorPos(savedCursorX, savedCursorY);
    }

    /** Collects parameters; true when c is the final byte of a sequence, which then has a value in every place. */
    method Parameters(c: Byte) returns (final: bool)
      requires Valid() && controlSequence
      modifies `rrr, `escValuesI, escValues
      ensures Valid() && final == !IsParameterByte(c) && (final ==> !rrr)
      ensures State() == old(State()).(pars := if IsParameterByte(c) then Fed(old(State()).pars, c) else Closed(old(State()).pars, c))
    {
      hide F.FbTerm.Valid, F.FbTerm.Abs, Fine, LookNow, KeptNow, ModeNow, ParamsNow, SetupNow, ParserOk, WithDefaults;
      Pars();
      if B('0') <= c <= B('9') {
        if escValuesI == MAX_VALUES { return false; }
        SetValue((escValues[escValuesI] * 10 + (c - B('0'))) % 0x1_0000_0000);
        SetReading(escValuesI, true);
        return false;
      }
      if rrr {
        SetReading(escValuesI + 1, false);
        if c == B(';') { return false; }
      } else if c == B(';') {
        if escValuesI == MAX_VALUES { return false; }
        SetValue(0);
        SetReading(escValuesI + 1, false);
        return false;
      }
      Pars();
      FillValues(c);
      return true;
    }

    /** The present value of the sequence. */
    method SetValue(v: Dword)
      requires Valid() && controlSequence && escValuesI < MAX_VALUES
      modifies escValues
      ensures Valid()
      ensures var t := old(State()); escValuesI < |t.pars.vals| && State() == t.(pars := t.pars.(vals := t.pars.vals[escValuesI := v]))
    {
      hide F.FbTerm.Valid, F.FbTerm.Abs, ThemeOk, Utf8Ok, Fine, LookNow, KeptNow, ModeNow, SetupNow;
      escValues[escValuesI] := v;
    }

    method SetReading(i: nat, digits: bool)
      requires Valid() && controlSequence && i <= MAX_VALUES && (digits ==> i < MAX_VALUES)
      modifies `rrr, `escValuesI
      ensures Valid() && rrr == digits && escValuesI == i
      ensures var t := old(State()); State() == t.(pars := t.pars.(index := i, open := digits))
    {
      hide F.FbTerm.Valid, F.FbTerm.Abs, ThemeOk, Utf8Ok, Fine, LookNow, KeptNow, ModeNow, SetupNow;
      escValuesI, rrr := i, digits;
    }

    /** A default in every place that was not given. */
    method FillValues(c: Byte)
      requires Valid() && controlSequence
      modifies escValues
      ensures Valid()
      ensures var t := old(State()); State() == t.(pars := t.pars.(vals := WithDefaults(t.pars.vals, t.pars.index, c)))
    {
      hide F.FbTerm.Valid, F.FbTerm.Abs, ThemeOk, Utf8Ok, Fine, LookNow, KeptNow, ModeNow, SetupNow, WithDefaults;
      var missing := if c == B('J') || c == B('K') || c == B('q') then 0 else 1;
      forall i | escValuesI <= i < MAX_VALUES { escValues[i] := missing; }
      assert escValues[..] == WithDefaults(old(escValues[..]), escValuesI, c);
    }

    /** The second half of control_sequence_parse, for a final byte without "?". */
    method RunSequence(c: Byte)
      requires Valid() && controlSequence && !rrr
      modifies escValues, `insertMode, `savedCursorX, `savedCursorY, `bold, `bgBold, `reverseVideo, `primary, `background
      modifies `csiUnhandled, `controlSequence, `escape
      modifies fb`queueI, fb`cursorX, fb`cursorY, fb`fg, fb`bg, fb`top, fb`bottom, fb`scrollOn, fb.queue, fb.queueMap
      ensures Valid() && State() == Parser.SequenceEnds(theme, old(State()), c)
    {
      hide F.FbTerm.Valid, F.FbTerm.Abs, Fine, LookNow, KeptNow, ModeNow, ParamsNow, SetupNow, ParserOk, GetX, GetY, IsKnown, Performed,
           Ok, Parser.SequenceEnds, Ended;
      Where();
      Flags();
      ghost var t := State();
      var r := fb.scrollOn;
      Scrolling(false);
      if csiUnhandled {
        QuietSkip(theme, t, c);
        SkipByte(c);
      } else if c == 0x1B {
        EscapeInside(theme, t, c);
      } else {
        var handled := RunQuietly(c);
        if handled {
          Handled(theme, t, c, State());
          Scrolling(r);
          EndSequence();
        } else {
          Unhandled(theme, t, c);
        }
      }
    }

    method Scrolling(on: bool)
      requires Valid()
      modifies fb`scrollOn
      ensures Valid() && State() == old(State()).(s := old(State()).s.(scrollOn := on)) && fb.scrollOn == on
    {
      hide F.FbTerm.Valid, F.FbTerm.Abs, Fine, LookNow, KeptNow, ModeNow, ParamsNow, SetupNow, ParserOk;
      fb.SetScrolling(on);
    }

    /** The switch, with scrolling off. */
    method RunQuietly(c: Byte) returns (handled: bool)
      requires Valid() && controlSequence && !rrr && !fb.scrollOn
      modifies escValues, `insertMode, `savedCursorX, `savedCursorY, `bold, `bgBold, `reverseVideo, `primary, `background, `csiUnhandled
      modifies fb`queueI, fb`cursorX, fb`cursorY, fb`fg, fb`bg, fb`top, fb`bottom, fb.queue, fb.queueMap
      ensures Valid() && handled == IsKnown(c)
      ensures if handled then State().(pars := NO_PARAMS) == Performed(theme, old(State()), c).(pars := NO_PARAMS)
              else State() == old(State()).(mode := old(State()).mode.(unhandled := true))
    {
      hide F.FbTerm.Valid, F.FbTerm.Abs, ThemeOk, Utf8Ok, Fine, LookNow, KeptNow, SetupNow, ModeNow, ParamsNow, GetX, GetY, IsKnown, Performed, Ok, ParserOk;
      Where();
      var x, y := fb.GetCursorPos();
      handled := Dispatch(c, x, y);
      if !handled { SetUnhandled(true); }
    }

    /** A byte behind one that was not handled. */
    method SkipByte(c: Byte)
      requires Valid() && controlSequence && csiUnhandled && !fb.scrollOn
      modifies `csiUnhandled, `controlSequence, `escape
      ensures Valid() && State() == Parser.SequenceEnds(theme, old(State()), c)
    {
      hide F.FbTerm.Valid, F.FbTerm.Abs, ThemeOk, Utf8Ok, Fine, LookNow, KeptNow, SetupNow, Performed, Ok;
      Where();
      if 0x40 <= c <= 0x7E {
        SetUnhandled(false);
        EndSequence();
      }
    }

    method SetUnhandled(on: bool)
      requires Valid()
      modifies `csiUnhandled
      ensures Valid() && State() == old(State()).(mode := old(State()).mode.(unhandled := on))
    {
      hide F.FbTerm.Valid, F.FbTerm.Abs, Fine, LookNow, KeptNow, ParamsNow, SetupNow, ParserOk;
      csiUnhandled := on;
    }

    /** The label cleanup. */
    method EndSequence()
      requires Valid()
      modifies `controlSequence, `escape
      ensures Valid() && State() == Ended(old(State()))
    {
      hide F.FbTerm.Valid, F.FbTerm.Abs, ThemeOk, Utf8Ok, Fine, LookNow, KeptNow, SetupNow, ParserOk;
      controlSequence, escape := false, false;
    }

    /** control_sequence_parse */
    method ControlSequenceParse(c: Byte)
      requires Valid() && controlSequence
      modifies escValues, `insertMode, `savedCursorX, `savedCursorY, `bold, `bgBold, `reverseVideo, `primary, `background
      modifies `discardNext, `decPrivate, `rrr, `escValuesI, `csiUnhandled, `controlSequence, `escape
      modifies fb`queueI, fb`cursorX, fb`cursorY, fb`fg, fb`bg, fb`top, fb`bottom, fb`scrollOn, fb`cursorOn, fb.queue, fb.queueMap
      ensures Valid() && State() == ControlStep(theme, old(State()), c)
    {
      hide F.FbTerm.Valid, F.FbTerm.Abs, Fine, LookNow, KeptNow, ModeNow, ParamsNow, SetupNow, ParserOk, Fed, Closed, Parser.SequenceEnds, PrivateEnds, Ok;
      ParserTheme();
      Flags();
      if escapeOffset == 2 && c == B('[') {
        SetDiscard(true);
        EndSequence();
        return;
      }
      if escapeOffset == 2 && c == B('?') {
        SetPrivate(true);
        return;
      }
      var final := Parameters(c);
      if !final { return; }
      if decPrivate {
        DecPrivateParse(c);
        return;
      }
      RunSequence(c);
    }

    /** osc_parse: true when the byte has been consumed. */
    method OscParse(c: Byte) returns (consumed: bool)
      requires Valid() && osc
      modifies `osc, `oscEscape, `escape
      ensures Valid() && consumed == (!old(oscEscape) || c == B('\\'))
      ensures var t := old(State());
              State() == t.(mode := if consumed then Quoted(t.mode, c) else t.mode.(osc := false, oscEscape := false))
    {
      hide F.FbTerm.Valid, F.FbTerm.Abs, Fine, LookNow, KeptNow, ModeNow, ParamsNow, SetupNow, ParserOk;
      Flags();
      if oscEscape {
        AbortString();
        if c == B('\\') {
          LeaveEscape();
          return true;
        }
        return false;
      }
      if c == 0x1B {
        QuoteEscape();
      } else if c == 7 {
        AbortString();
        LeaveEscape();
      }
      return true;
    }

    method QuoteEscape()
      requires Valid()
      modifies `oscEscape
      ensures Valid() && State() == old(State()).(mode := old(State()).mode.(oscEscape := true))
    {
      hide F.FbTerm.Valid, F.FbTerm.Abs, Fine, LookNow, KeptNow, ParamsNow, SetupNow, ParserOk;
      oscEscape := true;
    }

    /** flanterm_context_reinit */
    method Reinit()
      requires Valid()
      modifies this, fb`cursorOn, fb`scrollOn, fb`top, fb`bottom
      ensures Valid() && fb.Abs() == old(fb.Abs()).(top := 0, bottom := fb.rows, scrollOn := true)
      ensures State() == Restarted(old(State())).(s := fb.Abs())
    {
      hide F.FbTerm.Valid, F.FbTerm.Abs, Fresh, ParserOk, KeptNow, Fine, Utf8Ok, Ok;
      Where();
      fb.SetCursorOn(true);
      fb.SetScrolling(true);
      fb.SetMargins(0, fb.rows);
      ResetParser();
    }

    method ResetParser()
      requires ParserOk()
      modifies this
      ensures ParserOk() && KeptNow() == old(KeptNow())
      ensures NumbersReset() && FlagsReset() && ModesReset() && unicode == old(unicode).(remaining := 0)
    {
      hide ThemeOk, Utf8Ok;
      ResetFlags();
      AbandonedOk(unicode);
      ResetNumbers();
    }

    ghost predicate NumbersReset()
      reads this
    {
      && tabSize == 8 && gSelect == 0 && decSet == [false, true] && currentCharset == 0 && escapeOffset == 0 && escValuesI == 0
      && savedCursorX == 0 && savedCursorY == 0 && primary == -1 && background == -1
    }

    ghost predicate FlagsReset()
      reads this
    {
      autoflush && !controlSequence && !escape && !osc && !oscEscape && !rrr && !discardNext
    }

    ghost predicate ModesReset()
      reads this
    {
      onlcr && !bold && !bgBold && !reverseVideo && !decPrivate && !insertMode && !csiUnhandled
    }

    method ResetNumbers()
      requires Utf8Ok(unicode.(remaining := 0))
      modifies `tabSize, `unicode, `gSelect, `decSet, `currentCharset, `escapeOffset, `escValuesI, `savedCursorX, `savedCursorY, `primary, `background
      ensures NumbersReset() && unicode == old(unicode).(remaining := 0)
    {
      tabSize, unicode, gSelect, decSet, currentCharset := 8, unicode.(remaining := 0), 0, [false, true], 0;
      escapeOffset, escValuesI := 0, 0;
      savedCursorX, savedCursorY, primary, background := 0, 0, -1, -1;
    }

    method ResetFlags()
      modifies `autoflush, `controlSequence, `escape, `osc, `oscEscape, `rrr, `discardNext, `bold, `bgBold
      modifies `reverseVideo, `decPrivate, `insertMode, `csiUnhandled, `onlcr
      ensures FlagsReset() && ModesReset()
    {
      autoflush, controlSequence, escape, osc, oscEscape, rrr, discardNext := true, false, false, false, false, false, false;
      ResetModes();
    }

    method ResetModes()
      modifies `bold, `bgBold, `reverseVideo, `decPrivate, `insertMode, `csiUnhandled, `onlcr
      ensures ModesReset()
    {
      bold, bgBold, reverseVideo, decPrivate, insertMode, csiUnhandled, onlcr := false, false, false, false, false, false, true;
    }

    /** ESC 7 */
    method SaveState()
      requires Valid()
      modifies `savedBold, `savedBgBold, `savedReverse, `savedCharset, `savedPrimary, `savedBackground
      modifies fb`savedFg, fb`savedBg, fb`savedX, fb`savedY
      ensures Valid()
      ensures var t := old(State()); State() == t.(kept := Kept(t.look, t.setup.charset, t.s.fg, t.s.bg, t.s.x, t.s.y))
    {
      hide F.FbTerm.Valid, F.FbTerm.Abs, Fine, LookNow, KeptNow, ModeNow, ParamsNow, SetupNow, ParserOk;
      SaveScreen();
      SaveAttributes();
    }

    method SaveScreen()
      requires Valid()
      modifies fb`savedFg, fb`savedBg, fb`savedX, fb`savedY
      ensures Valid()
      ensures var t := old(State()); State() == t.(kept := Kept(t.kept.look, t.kept.charset, t.s.fg, t.s.bg, t.s.x, t.s.y))
    {
      hide F.FbTerm.Valid, F.FbTerm.Abs, Fine, LookNow, ModeNow, ParamsNow, SetupNow, ParserOk;
      Where();
      fb.SaveState();
    }

    method SaveAttributes()
      requires Valid()
      modifies `savedBold, `savedBgBold, `savedReverse, `savedCharset, `savedPrimary, `savedBackground
      ensures Valid()
      ensures var t := old(State()); State() == t.(kept := t.kept.(look := t.look, charset := t.setup.charset))
    {
      hide F.FbTerm.Valid, F.FbTerm.Abs, Fine, ThemeOk, Utf8Ok, ModeNow, ParamsNow;
      StoreAttributes();
    }

    method StoreAttributes()
      modifies `savedBold, `savedBgBold, `savedReverse, `savedCharset, `savedPrimary, `savedBackground
      ensures savedBold == bold && savedBgBold == bgBold && savedReverse == reverseVideo
      ensures savedCharset == currentCharset && savedPrimary == primary && savedBackground == background
    {
      savedBold, savedBgBold, savedReverse := bold, bgBold, reverseVideo;
      savedCharset, savedPrimary, savedBackground := currentCharset, primary, background;
    }

    /** ESC 8 */
    method RestoreState()
      requires Valid()
      modifies `bold, `bgBold, `reverseVideo, `currentCharset, `primary, `background
      modifies fb`fg, fb`bg, fb`cursorX, fb`cursorY
      ensures Valid()
      ensures var t := old(State());
              State() == t.(look := t.kept.look, setup := t.setup.(charset := t.kept.charset),
                            s := t.s.(fg := t.kept.fg, bg := t.kept.bg, x := t.kept.x, y := t.kept.y))
    {
      hide F.FbTerm.Valid, F.FbTerm.Abs, Fine, LookNow, KeptNow, ModeNow, ParamsNow, SetupNow, ParserOk;
      RestoreAttributes();
      RestoreScreen();
    }

    method RestoreScreen()
      requires Valid()
      modifies fb`fg, fb`bg, fb`cursorX, fb`cursorY
      ensures Valid()
      ensures var t := old(State()); State() == t.(s := t.s.(fg := t.kept.fg, bg := t.kept.bg, x := t.kept.x, y := t.kept.y))
    {
      hide F.FbTerm.Valid, F.FbTerm.Abs, Fine, LookNow, ModeNow, ParamsNow, SetupNow, ParserOk;
      fb.RestoreState();
    }

    method RestoreAttributes()
      requires Valid()
      modifies `bold, `bgBold, `reverseVideo, `currentCharset, `primary, `background
      ensures Valid()
      ensures var t := old(State()); State() == t.(look := t.kept.look, setup := t.setup.(charset := t.kept.charset))
    {
      hide F.FbTerm.Valid, F.FbTerm.Abs, Fine, ThemeOk, Utf8Ok, ModeNow, ParamsNow;
      LoadAttributes();
    }

    method LoadAttributes()
      modifies `bold, `bgBold, `reverseVideo, `currentCharset, `primary, `background
      ensures bold == savedBold && bgBold == savedBgBold && reverseVideo == savedReverse
      ensures currentCharset == savedCharset && primary == savedPrimary && background == savedBackground
    {
      bold, bgBold, reverseVideo := savedBold, savedBgBold, savedReverse;
      currentCharset, primary, background := savedCharset, savedPrimary, savedBackground;
    }

    /** A line feed; the cursor column becomes x. */
    method LineFeed(x: Word, y: Word)
      requires Valid() && y == GetY(fb.Abs())
      modifies fb`queueI, fb`cursorX, fb`cursorY, fb.queue, fb.queueMap
      ensures Valid() && y < old(fb.Abs()).rows && fb.Abs() == FedLine(old(fb.Abs()), x, y)
    {
      hide F.FbTerm.Valid, Scroll, SetCursor, F.Overlay;
      Where();
      if y == fb.bottom - 1 {
        fb.Scroll();
        fb.SetCursorPos(x, y);
      } else {
        fb.SetCursorPos(x, y + 1);
      }
    }

    /** ESC M */
    method ReverseLineFeed(y: Word)
      requires Valid() && y == GetY(fb.Abs())
      modifies fb`queueI, fb`cursorX, fb`cursorY, fb.queue, fb.queueMap
      ensures Valid() && fb.Abs() == FedBack(old(fb.Abs()))
    {
      hide F.FbTerm.Valid, F.FbTerm.Abs, RevScroll, SetCursor, MoveTo, Ok, GetY, ThemeOk, Utf8Ok;
      Where();
      if y == fb.top {
        fb.RevScroll();
        GoTo(0, y);
      } else {
        CursorAbove(fb.Abs(), y);
        fb.SetCursorPos(0, (y - 1) % TWO64);
      }
    }

    /** escape_parse */
    method EscapeParse(c: Byte)
      requires Valid()
      modifies this, escValues, fb`queueI, fb`cursorX, fb`cursorY, fb`fg, fb`bg, fb`top, fb`bottom, fb`scrollOn, fb`cursorOn
      modifies fb`savedFg, fb`savedBg, fb`savedX, fb`savedY, fb.queue, fb.queueMap
      ensures Valid() && State() == EscapeStep(theme, old(State()), c)
    {
      hide F.FbTerm.Valid, F.FbTerm.Abs, Fine, LookNow, KeptNow, ModeNow, ParamsNow, SetupNow, ParserOk, ControlStep, EscapeEnds;
      Flags();
      StepOffset();
      if osc {
        var consumed := OscParse(c);
        if consumed { return; }
      }
      if controlSequence {
        ControlSequenceParse(c);
        return;
      }
      SingleEscape(c);
    }

    method StepOffset()
      requires Valid()
      modifies `escapeOffset
      ensures Valid() && State() == old(State()).(mode := old(State()).mode.(offset := (old(State()).mode.offset + 1) % TWO64))
    {
      hide F.FbTerm.Valid, F.FbTerm.Abs, Fine, LookNow, KeptNow, ParamsNow, SetupNow, ParserOk;
      escapeOffset := (escapeOffset + 1) % TWO64;
    }

    /** ESC [ */
    method StartSequence()
      requires Valid() && !controlSequence
      modifies escValues, `escValuesI, `rrr, `csiUnhandled, `controlSequence
      ensures Valid() && State() == old(State()).(mode := old(State()).mode.(control := true, unhandled := false))
    {
      hide F.FbTerm.Valid, F.FbTerm.Abs, Fine, LookNow, KeptNow, ModeNow, ParamsNow, SetupNow, ParserOk;
      ClearValues();
      ClearIndex();
      SetUnhandled(false);
      EnterSequence();
    }

    method ClearValues()
      requires Valid() && !controlSequence
      modifies escValues
      ensures Valid() && State() == old(State()) && escValues[..] == NO_PARAMS.vals
    {
      hide F.FbTerm.Valid, F.FbTerm.Abs, ThemeOk, Utf8Ok, Fine, LookNow, KeptNow, ModeNow, SetupNow;
      forall i | 0 <= i < MAX_VALUES { escValues[i] := 0; }
    }

    method ClearIndex()
      requires Valid() && !controlSequence
      modifies `escValuesI, `rrr
      ensures Valid() && State() == old(State()) && escValuesI == 0 && !rrr
    {
      hide F.FbTerm.Valid, F.FbTerm.Abs, ThemeOk, Utf8Ok, Fine, LookNow, KeptNow, ModeNow, SetupNow;
      escValuesI, rrr := 0, false;
    }

    method EnterSequence()
      requires Valid() && !controlSequence && escValues[..] == NO_PARAMS.vals && escValuesI == 0 && !rrr
      modifies `controlSequence
      ensures Valid() && State() == old(State()).(mode := old(State()).mode.(control := true))
    {
      hide F.FbTerm.Valid, F.FbTerm.Abs, ThemeOk, Utf8Ok, Fine, LookNow, KeptNow, SetupNow, ParserOk;
      controlSequence := true;
    }

    /** ESC c */
    method FullReset()
      requires Valid()
      modifies this, fb`queueI, fb`cursorX, fb`cursorY, fb`cursorOn, fb`scrollOn, fb`top, fb`bottom, fb.queue, fb.queueMap
      ensures Valid() && State() == Restarted(old(State()))
    {
      hide F.FbTerm.Valid, F.FbTerm.Abs, Clear, Ok, ParserOk;
      Where();
      Reinit();
      fb.Clear(true);
      escape := false;
    }

    /** The switch of escape_parse. */
    method SingleEscape(c: Byte)
      requires Valid() && !controlSequence
      modifies this, escValues, fb`queueI, fb`cursorX, fb`cursorY, fb`fg, fb`bg, fb`top, fb`bottom, fb`scrollOn, fb`cursorOn
      modifies fb`savedFg, fb`savedBg, fb`savedX, fb`savedY, fb.queue, fb.queueMap
      ensures Valid() && State() == EscapeEnds(old(State()), c)
    {
      hide F.FbTerm.Valid, F.FbTerm.Abs, ThemeOk, Utf8Ok, Fine, GetX, GetY, Scroll, SetCursor, FedLine, FedBack, MoveTo, Restarted, Ok, LookNow, KeptNow, ModeNow, SetupNow, ParserOk;
      Where();
      var x, y := fb.GetCursorPos();
      if c == B(']') {
        StartString();
        return;
      }
      if c == B('[') {
        StartSequence();
        return;
      }
      if c == B('c') {
        FullReset();
        return;
      }
      if c == B('(') || c == B(')') { AwaitCharset(c - 0x27); }
      else { ScreenEscape(c, x, y); }
      LeaveEscape();
    }

    /** ESC ] */
    method StartString()
      requires Valid()
      modifies `osc, `oscEscape
      ensures Valid() && State() == old(State()).(mode := old(State()).mode.(osc := true, oscEscape := false))
    {
      hide F.FbTerm.Valid, F.FbTerm.Abs, Fine, LookNow, KeptNow, ParamsNow, SetupNow, ParserOk;
      oscEscape, osc := false, true;
    }

    /** ESC ( and ESC ) */
    method AwaitCharset(n: nat)
      requires Valid() && n <= 2
      modifies `gSelect
      ensures Valid() && State() == old(State()).(mode := old(State()).mode.(gSelect := n))
    {
      hide F.FbTerm.Valid, F.FbTerm.Abs, ThemeOk, Utf8Ok, Fine, LookNow, KeptNow, ParamsNow, SetupNow;
      gSelect := n;
    }

    method LeaveEscape()
      requires Valid()
      modifies `escape
      ensures Valid() && State() == old(State()).(mode := old(State()).mode.(escape := false))
    {
      hide F.FbTerm.Valid, F.FbTerm.Abs, Fine, LookNow, KeptNow, ParamsNow, SetupNow, ParserOk;
      escape := false;
    }

    method EnterEscape()
      requires Valid()
      modifies `escape, `escapeOffset
      ensures Valid() && State() == old(State()).(mode := old(State()).mode.(escape := true, offset := 0))
    {
      hide F.FbTerm.Valid, F.FbTerm.Abs, Fine, LookNow, KeptNow, ParamsNow, SetupNow, ParserOk;
      escapeOffset, escape := 0, true;
    }

    /** SO and SI */
    method UseCharset(n: nat)
      requires Valid() && n <= 1
      modifies `currentCharset
      ensures Valid() && State() == old(State()).(setup := old(State()).setup.(charset := n))
    {
      hide F.FbTerm.Valid, F.FbTerm.Abs, ThemeOk, Utf8Ok, Fine, LookNow, KeptNow, ParamsNow, ModeNow;
      currentCharset := n;
    }

    /** ESC 7, ESC 8, ESC D, ESC E and ESC M. */
    method ScreenEscape(c: Byte, x: Word, y: Word)
      requires Valid() && Here(x, y) && !controlSequence && c !in {B(']'), B('['), B('c'), B('('), B(')')}
      modifies `savedBold, `savedBgBold, `savedReverse, `savedCharset, `savedPrimary, `savedBackground
      modifies `bold, `bgBold, `reverseVideo, `currentCharset, `primary, `background
      modifies fb`savedFg, fb`savedBg, fb`savedX, fb`savedY
      modifies fb`queueI, fb`cursorX, fb`cursorY, fb`fg, fb`bg, fb.queue, fb.queueMap
      ensures Valid() && State().(mode := State().mode.(escape := false)) == EscapeEnds(old(State()), c) && State().mode == old(State()).mode
    {
      hide F.FbTerm.Valid, F.FbTerm.Abs, ThemeOk, Utf8Ok, Fine, GetX, GetY, Scroll, SetCursor, FedLine, FedBack, MoveTo, Restarted, Ok, LookNow, KeptNow, ModeNow, ParamsNow, SetupNow, ParserOk;
      Where();
      if c == B('7') { SaveState(); }
      else if c == B('8') { RestoreState(); }
      else if c == B('D') { LineFeed(x, y); }
      else if c == B('E') { LineFeed(0, y); }
      else if c == B('M') { ReverseLineFeed(y); }
    }

    /** A continuation byte; the last one prints the character. */
    method ContinueChar(c: Byte)
      requires Valid() && 0 < unicode.remaining && IsContinuation(c)
      modifies `unicode, fb`queueI, fb`cursorX, fb`cursorY, fb.queue, fb.queueMap
      ensures Valid() && State() == Continued(theme, old(State()), c)
    {
      hide F.FbTerm.Valid, F.FbTerm.Abs, ThemeOk, Utf8Ok, Fine, LookNow, KeptNow, ParamsNow, SetupNow, RawPut, RawBlanks, Continue;
      ContinueOk(unicode, c);
      unicode := Continue(unicode, c);
      if unicode.remaining != 0 { return; }
      var g := theme.cp437(unicode.codePoint);
      if g.Some? {
        fb.RawPutchar(g.value);
      } else {
        var width := theme.wcwidth(unicode.codePoint) % TWO64;
        if width > 0 {
          fb.RawPutchar(0xFE);
          PutBlanks(width - 1);
        }
      }
    }

    /** The byte behind ESC ( or ESC ). */
    method SelectCharset(c: Byte)
      requires Valid() && 0 < gSelect
      modifies `gSelect, `decSet
      ensures Valid() && State() == CharsetStep(old(State()), c)
    {
      hide F.FbTerm.Valid, F.FbTerm.Abs, Fine, LookNow, KeptNow, ModeNow, ParamsNow, SetupNow, ParserOk;
      Flags();
      Sets();
      if c == B('B') { SetCharset(gSelect - 1, false); }
      else if c == B('0') { SetCharset(gSelect - 1, true); }
      AwaitCharset(0);
    }

    method SetCharset(i: nat, special: bool)
      requires Valid() && i < 2
      modifies `decSet
      ensures Valid()
      ensures var t := old(State()); i < |t.setup.sets| && State() == t.(setup := t.setup.(sets := t.setup.sets[i := special]))
    {
      hide F.FbTerm.Valid, F.FbTerm.Abs, ThemeOk, Utf8Ok, Fine, LookNow, KeptNow, ModeNow, ParamsNow;
      decSet := decSet[i := special];
    }

    lemma Sets()
      requires Valid()
      ensures State().setup.sets == decSet && |decSet| == 2 && State().setup.charset == currentCharset <= 1 && gSelect <= 2
    {
      hide F.FbTerm.Valid, F.FbTerm.Abs, Fine, ThemeOk, Utf8Ok;
    }

    /** Insert mode: the rest of the row moves right by one. */
    method MakeRoom(x: Word, y: Word)
      requires Valid() && x < fb.cols && y < fb.rows
      modifies fb`queueI, fb.queue, fb.queueMap
      ensures x < old(fb.Abs()).cols && y < old(fb.Abs()).rows
      ensures Valid() && fb.Abs() == Shoved(old(fb.Abs()), x, y)
    {
      hide F.FbTerm.Valid, F.FbTerm.Abs, MoveCell, Shoved, Ok;
      Where();
      ghost var s := fb.Abs();
      ShovedNothing(s, y);
      var i := fb.cols - 1;
      while true
        invariant Valid() && x <= i < fb.cols && Around(s, y)
        invariant fb.Abs() == Shoved(s, Min(i + 1, fb.cols - 1), y)
        decreases i
      {
        ShovedStep(s, i, y);
        fb.MoveCharacter(i + 1, y, i, y);
        if i == x { break; }
        i := i - 1;
      }
    }

    /** The control characters other than ESC, SO and SI. */
    method PutControl(c: Byte, x: Word, y: Word)
      requires Valid() && IsControl(c) && c !in {0x1B, 14, 15} && Here(x, y)
      modifies fb`queueI, fb`cursorX, fb`cursorY, fb.queue, fb.queueMap
      ensures Valid() && fb.Abs() == Controlled(old(State()), c)
    {
      hide F.FbTerm.Valid, F.FbTerm.Abs, GetX, GetY, FedLine, SetCursor, Ok, MoveTo, ThemeOk, Utf8Ok;
      Where();
      if c == 9 {
        var column := x / tabSize + 1;
        if column >= fb.cols { GoTo(fb.cols - 1, y); } else { fb.SetCursorPos(column * tabSize % TWO64, y); }
      } else if c == 11 || c == 12 || c == 10 {
        LineFeed(if onlcr then 0 else x, y);
      } else if c == 8 {
        CursorLeft(fb.Abs(), x, y);
        fb.SetCursorPos((x - 1) % TWO64, y);
      } else if c == 13 {
        GoTo(0, y);
      }
    }

    /** dec_special_print */
    method DecSpecialPrint(c: Byte) returns (printed: bool)
      requires Valid()
      modifies fb`queueI, fb`cursorX, fb`cursorY, fb.queue, fb.queueMap
      ensures Valid() && printed == (c as char in DEC_SPECIAL)
      ensures fb.Abs() == if printed then RawPut(old(fb.Abs()), DEC_SPECIAL[c as char]) else old(fb.Abs())
    {
      hide F.FbTerm.Valid, F.FbTerm.Abs, RawPut, ThemeOk, Utf8Ok;
      var g := DecSpecial(c);
      printed := g.Some?;
      if printed { fb.RawPutchar(g.value); }
    }

    /** flanterm_putchar outside of escape sequences and multi-byte characters. */
    method PutGround(c: Byte)
      requires Valid() && !escape && gSelect == 0
      modifies `escapeOffset, `escape, `currentCharset, fb`queueI, fb`cursorX, fb`cursorY, fb.queue, fb.queueMap
      ensures Valid() && State() == GroundStep(old(State()), c)
    {
      hide F.FbTerm.Valid, F.FbTerm.Abs, ThemeOk, Utf8Ok, Fine, LookNow, KeptNow, ParamsNow, GetX, GetY, Controlled, Typed, Ok, SetupNow, ParserOk;
      Where();
      var x, y := fb.GetCursorPos();
      if c == 0 || c == 0x7F { ControlNone(State(), c); return; }
      if c == 0x1B { EnterEscape(); return; }
      if c == 14 { UseCharset(1); return; }
      if c == 15 { UseCharset(0); return; }
      if 7 <= c <= 13 {
        PutControl(c, x, y);
        return;
      }
      PutGlyph(c, x, y);
    }

    /** The end of flanterm_putchar. */
    method PutGlyph(c: Byte, x: Word, y: Word)
      requires Valid() && Here(x, y)
      modifies fb`queueI, fb`cursorX, fb`cursorY, fb.queue, fb.queueMap
      ensures Valid() && fb.Abs() == Typed(old(State()), c)
    {
      hide F.FbTerm.Valid, F.FbTerm.Abs, ThemeOk, Utf8Ok, Fine, LookNow, KeptNow, ModeNow, ParamsNow, GetX, GetY, RawPut, Ok, Shoved, DEC_SPECIAL;
      Where();
      if insertMode { MakeRoom(x, y); }
      if decSet[currentCharset] {
        var printed := DecSpecialPrint(c);
        if printed { return; }
      }
      if 0x20 <= c <= 0x7E { fb.RawPutchar(c); } else { fb.RawPutchar(0xFE); }
    }

    method Abort()
      requires Valid()
      modifies `discardNext, `escape, `controlSequence, `osc, `oscEscape, `unicode, `gSelect
      ensures Valid() && State() == Aborted(old(State()))
    {
      hide F.FbTerm.Valid, F.FbTerm.Abs, ThemeOk, Utf8Ok, Fine, LookNow, KeptNow, SetupNow, ModeNow, ParamsNow, ParserOk;
      AbortCharacter();
      AbortString();
      EndSequence();
    }

    method AbortCharacter()
      requires Valid()
      modifies `discardNext, `unicode, `gSelect
      ensures Valid()
      ensures var t := old(State()); State() == t.(mode := t.mode.(discard := false, gSelect := 0, utf := t.mode.utf.(remaining := 0)))
    {
      hide F.FbTerm.Valid, F.FbTerm.Abs, Fine, LookNow, KeptNow, ModeNow, ParamsNow, SetupNow, ParserOk;
      SetDiscard(false);
      DropCharacter();
      AwaitCharset(0);
    }

    method SetDiscard(on: bool)
      requires Valid()
      modifies `discardNext
      ensures Valid() && State() == old(State()).(mode := old(State()).mode.(discard := on))
    {
      hide F.FbTerm.Valid, F.FbTerm.Abs, Fine, LookNow, KeptNow, ParamsNow, SetupNow, ParserOk;
      discardNext := on;
    }

    /** A multi-byte character is given up. */
    method DropCharacter()
      requires Valid()
      modifies `unicode
      ensures Valid() && State() == old(State()).(mode := old(State()).mode.(utf := old(State()).mode.utf.(remaining := 0)))
    {
      hide F.FbTerm.Valid, F.FbTerm.Abs, ThemeOk, Utf8Ok, Fine, LookNow, KeptNow, ParamsNow, SetupNow;
      AbandonedOk(unicode);
      unicode := unicode.(remaining := 0);
    }

    method StartCharacter(c: Byte)
      requires Valid() && IsLead(c)
      modifies `unicode
      ensures Valid() && State() == old(State()).(mode := old(State()).mode.(utf := Lead(c)))
    {
      hide F.FbTerm.Valid, F.FbTerm.Abs, ThemeOk, Utf8Ok, Fine, LookNow, KeptNow, ParamsNow, SetupNow, Lead;
      LeadOk(c);
      unicode := FirstByte(c);
    }

    method AbortString()
      requires Valid()
      modifies `osc, `oscEscape
      ensures Valid()
      ensures var t := old(State()); State() == t.(mode := t.mode.(osc := false, oscEscape := false))
    {
      hide F.FbTerm.Valid, F.FbTerm.Abs, ThemeOk, Utf8Ok, Fine, LookNow, KeptNow, SetupNow, ParamsNow, ParserOk;
      osc, oscEscape := false, false;
    }

    /** flanterm_putchar, for every byte in every state. */
    method Putchar(c: Byte)
      requires Valid()
      modifies this, escValues, fb`queueI, fb`cursorX, fb`cursorY, fb`fg, fb`bg, fb`top, fb`bottom, fb`scrollOn, fb`cursorOn
      modifies fb`savedFg, fb`savedBg, fb`savedX, fb`savedY, fb.queue, fb.queueMap
      ensures Valid() && State() == OneByte(theme, old(State()), c)
    {
      hide F.FbTerm.Valid, F.FbTerm.Abs, Fine, LookNow, KeptNow, ModeNow, ParamsNow, SetupNow, ParserOk, Continued, EscapeStep, CharsetStep, GroundStep,
           Aborted, Lead;
      ParserTheme();
      Flags();
      if discardNext || c == 0x18 || c == 0x1A {
        Abort();
        return;
      }
      if unicode.remaining != 0 {
        if 0x80 <= c <= 0xBF {
          ContinueChar(c);
          return;
        }
        DropCharacter();
      }
      if 0xC0 <= c <= 0xF7 {
        StartCharacter(c);
        return;
      }
      if escape { EscapeParse(c); }
      else if gSelect != 0 { SelectCharset(c); }
      else { PutGround(c); }
    }

    /** flanterm_putchar for every byte of a text. */
    method Feed(bytes: seq<Byte>)
      requires Valid()
      modifies this, escValues, fb`queueI, fb`cursorX, fb`cursorY, fb`fg, fb`bg, fb`top, fb`bottom, fb`scrollOn, fb`cursorOn
      modifies fb`savedFg, fb`savedBg, fb`savedX, fb`savedY, fb.queue, fb.queueMap
      ensures Valid() && State() == AfterBytes(theme, old(State()), bytes)
    {
      hide F.FbTerm.Valid, F.FbTerm.Abs, ThemeOk, Utf8Ok, Fine, OneByte;
      ghost var t := State();
      var i := 0;
      assert bytes[..0] == [];
      while i < |bytes|
        invariant i <= |bytes| && Valid() && State() == AfterBytes(theme, t, bytes[..i])
      {
        assert bytes[..i + 1][..i] == bytes[..i];
        Putchar(bytes[i]);
        i := i + 1;
      }
      assert bytes[..i] == bytes;
    }

    /** flanterm_write: afterwards, unless flushing is left to the caller, the display shows the screen. */
    method Write(bytes: seq<Byte>)
      requires Valid()
      modifies this, escValues, fb, fb.grid, fb.queue, fb.queueMap
      ensures Valid() && State() == AfterBytes(theme, old(State()), bytes)
      ensures autoflush ==> fb.displayed == F.Picture(fb.rows, fb.cols, fb.Abs().view, fb.cursorOn, fb.cursorX, fb.cursorY)
    {
      hide F.FbTerm.Valid, F.FbTerm.Abs, F.Picture, ParserOk, AfterBytes;
      Feed(bytes);
      if autoflush { fb.Flush(); }
    }

    /** CAN ESC c, from any state. */
    method StartOver()
      requires Valid()
      modifies this, escValues, fb`queueI, fb`cursorX, fb`cursorY, fb`fg, fb`bg, fb`top, fb`bottom, fb`scrollOn, fb`cursorOn
      modifies fb`savedFg, fb`savedBg, fb`savedX, fb`savedY, fb.queue, fb.queueMap
      ensures Valid() && State() == Restarted(old(State()))
    {
      hide F.FbTerm.Valid, F.FbTerm.Abs, Utf8Ok, ThemeOk, Restarted, AfterBytes, State;
      ParserTheme();
      StartOverBytes(theme, State());
      Feed([0x18, 0x1B, B('c')]);
    }

    lemma ParserTheme()
      requires Valid()
      ensures ThemeOk(theme)
    {
    }

    /**
     * Whatever state the terminal is in, CAN ESC c and a text put the layout of the
     * text on the display, with the cursor behind it.
     */
    method PrintPage(text: seq<Byte>)
      requires Valid() && fb.rows <= fb.cols && IsText(text)
      modifies this, escValues, fb, fb.grid, fb.queue, fb.queueMap
      ensures Valid()
      ensures var page := Shown(Fresh(old(fb.Abs())), Layout(fb.cols, text));
              && State() == Restarted(old(State())).(s := page)
              && fb.displayed == F.Picture(fb.rows, fb.cols, page.view, true, page.x, page.y)
    {
      hide F.FbTerm.Valid, F.FbTerm.Abs, Utf8Ok, ThemeOk, F.Picture, AfterBytes, Shown, Layout, Fresh, ModeNow, ParamsNow, LookNow, KeptNow;
      ParserTheme();
      Where();
      PageBytes(theme, State(), text);
      Write([0x18, 0x1B, B('c')] + text);
      Where();
    }

    /** The UTF-8 encoding of a character prints that character, even inside an escape sequence. */
    method PutCharacter(cp: nat)
      requires Valid() && 0x80 <= cp < 0x11_0000 && !discardNext && unicode.remaining == 0
      modifies this, escValues, fb`queueI, fb`cursorX, fb`cursorY, fb`fg, fb`bg, fb`top, fb`bottom, fb`scrollOn, fb`cursorOn
      modifies fb`savedFg, fb`savedBg, fb`savedX, fb`savedY, fb.queue, fb.queueMap
      ensures Valid()
      ensures var t := old(State()); State() == t.(s := PutUnicode(t.s, theme, cp), mode := t.mode.(utf := Utf8(0, cp)))
    {
      hide F.FbTerm.Valid, F.FbTerm.Abs, Utf8Ok, ThemeOk, AfterBytes, PutUnicode, Encode;
      ParserTheme();
      CharacterBytes(theme, State(), cp);
      Feed(Encode(cp));
    }

    /** A control sequence written out: ESC [ v1 ; v2 ; ... c */
    method SendSequence(values: seq<Dword>, c: Byte)
      requires Valid() && Idle(State()) && |values| <= MAX_VALUES && IsFinal(c)
      modifies this, escValues, fb`queueI, fb`cursorX, fb`cursorY, fb`fg, fb`bg, fb`top, fb`bottom, fb`scrollOn, fb`cursorOn
      modifies fb`savedFg, fb`savedBg, fb`savedX, fb`savedY, fb.queue, fb.queueMap
      ensures Valid() && State() == Finished(theme, old(State()), values, c)
    {
      hide F.FbTerm.Valid, F.FbTerm.Abs, Utf8Ok, ThemeOk, AfterBytes, Finished, SequenceText, State;
      ParserTheme();
      SequenceBytes(theme, State(), values, c);
      Feed(SequenceText(values, c));
    }
  }

  /** The special characters as the code has them. */
  method DecSpecial(c: Byte) returns (g: Option<Byte>)
    ensures g == if c as char in DEC_SPECIAL then Some(DEC_SPECIAL[c as char]) else None
  {
    g := None;
    match c as char
    case '`' => g := Some(0x04); case '0' => g := Some(0xDB); case '-' => g := Some(0x18); case ',' => g := Some(0x1B);
    case '.' => g := Some(0x19); case 'a' => g := Some(0xB1); case 'f' => g := Some(0xF8); case 'g' => g := Some(0xF1);
    case 'h' => g := Some(0xB0); case 'j' => g := Some(0xD9); case 'k' => g := Some(0xBF); case 'l' => g := Some(0xDA);
    case 'm' => g := Some(0xC0); case 'n' => g := Some(0xC5); case 'q' => g := Some(0xC4); case 's' => g := Some(0x5F);
    case 't' => g := Some(0xC3); case 'u' => g := Some(0xB4); case 'v' => g := Some(0xC1); case 'w' => g := Some(0xC2);
    case 'x' => g := Some(0xB3); case 'y' => g := Some(0xF3); case 'z' => g := Some(0xF2); case '~' => g := Some(0xFA);
    case '_' => g := Some(0xFF); case '+' => g := Some(0x1A); case '{' => g := Some(0xE3); case '}' => g := Some(0x9C);
    case _ =>
  }

  /** The state machine's start on a lead byte: unicode_remaining and code_point. */
  function FirstByte(c: Byte): (u: Utf8)
    requires 0xC0 <= c <= 0xF7
    ensures u == Lead(c)
  {
    if c <= 0xDF then Utf8(1, c % 0x20 * 0x40)
    else if c <= 0xEF then Utf8(2, c % 0x10 * 0x1000)
    else Utf8(3, c % 0x08 * 0x4_0000)
  }

  lemma CursorLeft(s: Screen, x: Word, y: Word)
    requires Ok(s) && x < s.cols && y < s.rows
    ensures SetCursor(s, (x - 1) % TWO64, y) == MoveTo(s, if x == 0 then 0 else x - 1, y)
  {
    Sides(s);
  }

  /** y - 1 wraps around for the first row, and is then taken for a negative number. */
  lemma CursorAbove(s: Screen, y: Word)
    requires Ok(s) && y < s.rows
    ensures SetCursor(s, 0, (y - 1) % TWO64) == MoveTo(s, 0, if y == 0 then 0 else y - 1)
  {
    Sides(s);
  }

  lemma CellsStep(rows: nat, cols: nat)
    ensures Cells(0, cols) == 0 && Cells(rows + 1, cols) == Cells(rows, cols) + cols
  {
  }
}
