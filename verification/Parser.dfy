/**
 * What every byte means to the terminal of src/flanterm/flanterm.c: its state as a
 * value, and the state after one more byte.
 */
module Parser {
  import opened Words
  import opened Screen
  import S = Screen
  import opened Printing
  import opened Csi

  const MAX_VALUES := 16     // FLANTERM_MAX_ESC_VALUES

  // ----- colours -----

  /** A colour number 0..7, or (size_t)-1 for the default colour. */
  type Shade = c: int | -1 <= c < 8

  /** Colour and character tables. */
  datatype Theme = Theme(ansi: seq<Colour>, bright: seq<Colour>, col256: seq<bv32>, convert: bv32 -> Colour,
                         fg: Colour, fgBright: Colour, bgBright: Colour, cp437: nat -> Option<Byte>, wcwidth: nat -> int)

  predicate ThemeOk(t: Theme) {
    |t.ansi| == 8 && |t.bright| == 8 && |t.col256| == 240
  }

  const NO_BG: Colour := 0xFFFF_FFFF

  function Foreground(t: Theme, shade: Shade, bright: bool): Colour
    requires ThemeOk(t)
  {
    if shade == -1 then (if bright then t.fgBright else t.fg) else if bright then t.bright[shade] else t.ansi[shade]
  }

  function Background(t: Theme, shade: Shade, bright: bool): Colour
    requires ThemeOk(t)
  {
    if shade == -1 then (if bright then t.bgBright else NO_BG) else if bright then t.bright[shade] else t.ansi[shade]
  }

  /** Three parameters as one RGB value; bits beyond a component's eight run into its neighbours. */
  function Rgb(r: Dword, g: Dword, b: Dword): bv32 {
    ((r as bv32) << 16) | ((g as bv32) << 8) | (b as bv32)
  }

  /** The 256-colour palette. */
  function Palette(t: Theme, col: nat): Colour
    requires ThemeOk(t) && col < 256
  {
    if col < 8 then t.ansi[col] else if col < 16 then t.bright[col - 8] else t.convert(t.col256[col - 16])
  }

  /** The attributes of text. */
  datatype Look = Look(bold: bool, bgBold: bool, reverse: bool, primary: Shade, background: Shade)

  const PLAIN := Look(false, false, false, -1, -1)

  /** The colours in use, and the attributes. */
  datatype Paint = Paint(fg: Colour, bg: Colour, look: Look)

  /** The colours that belong to the attributes: exchanged under reverse video. */
  function Rendered(t: Theme, look: Look): Paint
    requires ThemeOk(t)
  {
    var f, b := Foreground(t, look.primary, look.bold), Background(t, look.background, look.bgBold);
    if look.reverse then Paint(b, f, look) else Paint(f, b, look)
  }

  predicate Coherent(t: Theme, p: Paint)
    requires ThemeOk(t)
  {
    p == Rendered(t, p.look)
  }

  /** The colour of the text, or of the ground behind it, is set anew; under reverse video the two have changed places. */
  function Repaint(t: Theme, p: Paint, ground: bool, bright: bool): Paint
    requires ThemeOk(t)
  {
    var shade := if ground then p.look.background else p.look.primary;
    if ground == p.look.reverse then p.(fg := Foreground(t, shade, bright)) else p.(bg := Background(t, shade, bright))
  }

  /** CSI m with a single value. */
  function SgrOne(t: Theme, p: Paint, v: Dword): Paint
    requires ThemeOk(t)
  {
    var l := p.look;
    if v == 0 then Rendered(t, PLAIN)
    else if v == 1 then Repaint(t, p.(look := l.(bold := true)), false, true)
    else if v == 5 then Repaint(t, p.(look := l.(bgBold := true)), true, true)
    else if v == 7 then (if l.reverse then p else Paint(p.bg, p.fg, l.(reverse := true)))
    else if v == 22 then Repaint(t, p.(look := l.(bold := false)), false, false)
    else if v == 25 then Repaint(t, p.(look := l.(bgBold := false)), true, false)
    else if v == 27 then (if l.reverse then Paint(p.bg, p.fg, l.(reverse := false)) else p)
    else if 30 <= v <= 37 then Repaint(t, p.(look := l.(primary := v - 30)), false, l.bold)
    else if v == 39 then Side(p.(look := l.(primary := -1)), false, Foreground(t, -1, l.bold))
    else if 40 <= v <= 47 then Repaint(t, p.(look := l.(background := v - 40)), true, l.bgBold)
    else if v == 49 then Side(p.(look := l.(background := -1)), true, Background(t, -1, l.bgBold))
    else if 90 <= v <= 97 then Repaint(t, p.(look := l.(primary := v - 90)), false, true)
    else if 100 <= v <= 107 then Repaint(t, p.(look := l.(background := v - 100)), true, true)
    else p
  }

  /** The colour of the text, or of the ground, becomes c. */
  function Side(p: Paint, ground: bool, c: Colour): Paint {
    if ground == p.look.reverse then p.(fg := c) else p.(bg := c)
  }

  /** 38 and 48: a colour of the 256-colour palette or an RGB value, and how many values they take; incomplete ones end the sequence. */
  function SgrExtended(t: Theme, p: Paint, v: seq<Dword>): (r: (Paint, nat))
    requires ThemeOk(t) && v != []
    ensures 0 < r.1 <= |v|
  {
    if |v| == 1 then (p, 1)
    else if v[1] == 2 then
      (if |v| < 5 then (p, |v|) else (Drawn(p, v[0] == 38, t.convert(Rgb(v[2], v[3], v[4]))), 5))
    else if v[1] == 5 then
      (if |v| < 3 then (p, |v|) else (if v[2] < 256 then Drawn(p, v[0] == 38, Palette(t, v[2])) else p, 3))
    else (p, 2)
  }

  /** These set the colour as drawn, reverse video or not. */
  function Drawn(p: Paint, isFg: bool, c: Colour): Paint {
    if isFg then p.(fg := c) else p.(bg := c)
  }

  /** CSI m with these values. */
  function SgrAll(t: Theme, p: Paint, v: seq<Dword>): Paint
    requires ThemeOk(t)
    decreases |v|
  {
    if v == [] then p else
    var (q, n) := if v[0] == 38 || v[0] == 48 then SgrExtended(t, p, v) else (SgrOne(t, p, v[0]), 1);
    SgrAll(t, q, v[n..])
  }

  // ----- UTF-8 -----

  /** Bytes still expected, and the code point so far. */
  datatype Utf8 = Utf8(remaining: nat, codePoint: nat)

  /** Weight of the lowest bit above n pending bytes. */
  function Weight(n: nat): (w: nat)
    requires n <= 3
    ensures 0 < w
  {
    if n == 0 then 1 else if n == 1 then 64 else if n == 2 then 4096 else 0x4_0000
  }

  /** The bits of the bytes still expected are zero, so or-ing them in is adding them. */
  predicate Utf8Ok(u: Utf8) {
    u.remaining <= 3 && u.codePoint < 0x20_0000 && u.codePoint % Weight(u.remaining) == 0
  }

  predicate IsLead(c: Byte) {
    0xC0 <= c <= 0xF7
  }

  predicate IsContinuation(c: Byte) {
    0x80 <= c < 0xC0
  }

  function Lead(c: Byte): (u: Utf8)
    requires IsLead(c)
  {
    if c <= 0xDF then Utf8(1, c % 0x20 * 64)
    else if c <= 0xEF then Utf8(2, c % 0x10 * 4096)
    else Utf8(3, c % 8 * 0x4_0000)
  }

  function Continue(u: Utf8, c: Byte): Utf8
    requires 0 < u.remaining <= 3
  {
    Utf8(u.remaining - 1, u.codePoint + c % 64 * Weight(u.remaining - 1))
  }

  lemma LeadOk(c: Byte)
    requires IsLead(c)
    ensures Utf8Ok(Lead(c))
  {
  }

  lemma ContinueOk(u: Utf8, c: Byte)
    requires Utf8Ok(u) && 0 < u.remaining
    ensures u.remaining <= 3 && Utf8Ok(Continue(u, c))
  {
    var n := u.remaining;
    if n == 1 { MoreBits(u.codePoint / 64, c % 64, 1); }
    else if n == 2 { MoreBits(u.codePoint / 4096, c % 64, 64); }
    else { MoreBits(u.codePoint / 0x4_0000, c % 64, 4096); }
  }

  /** Six more bits below a multiple of 64 * w, for the three weights w in use. */
  lemma MoreBits(k: nat, d: nat, w: nat)
    requires d < 64 && (w == 1 || w == 64 || w == 4096)
    requires k * (64 * w) < 0x20_0000
    ensures (k * (64 * w) + d * w) % w == 0 && k * (64 * w) + d * w < 0x20_0000
  {
    if w == 1 { } else if w == 64 { } else { }
  }

  /** Section 3 of RFC 3629. */
  function Encode(cp: nat): (s: seq<Byte>)
    requires 0x80 <= cp < 0x11_0000
    ensures 2 <= |s| <= 4 && IsLead(s[0]) && forall i :: 1 <= i < |s| ==> IsContinuation(s[i])
  {
    if cp < 0x800 then [0xC0 + cp / 64, 0x80 + cp % 64]
    else if cp < 0x1_0000 then [0xE0 + cp / 4096, 0x80 + cp / 64 % 64, 0x80 + cp % 64]
    else [0xF0 + cp / 0x4_0000, 0x80 + cp / 4096 % 64, 0x80 + cp / 64 % 64, 0x80 + cp % 64]
  }

  /** The state of the decoder after the first n bytes. */
  function Decode(s: seq<Byte>, n: nat): (u: Utf8)
    requires 0 < n <= |s| && IsLead(s[0]) && n <= Lead(s[0]).remaining + 1 <= 4
    ensures u.remaining == Lead(s[0]).remaining + 1 - n
  {
    if n == 1 then Lead(s[0]) else Continue(Decode(s, n - 1), s[n - 1])
  }

  /** Decoding inverts encoding, and not a byte earlier. */
  lemma DecodeInvertsEncode(cp: nat)
    requires 0x80 <= cp < 0x11_0000
    ensures Lead(Encode(cp)[0]).remaining == |Encode(cp)| - 1
    ensures Decode(Encode(cp), |Encode(cp)|) == Utf8(0, cp)
  {
    var s := Encode(cp);
    assert Decode(s, 1) == Lead(s[0]);
    assert Decode(s, 2) == Continue(Lead(s[0]), s[1]);
    if cp < 0x800 {
      assert s[0] % 0x20 == cp / 64 && s[1] % 64 == cp % 64;
    } else if cp < 0x1_0000 {
      Split3(cp);
      assert Decode(s, 3) == Continue(Decode(s, 2), s[2]);
    } else {
      Split4(cp);
      assert Decode(s, 3) == Continue(Decode(s, 2), s[2]);
      assert Decode(s, 4) == Continue(Decode(s, 3), s[3]);
    }
  }

  lemma Split3(cp: nat)
    requires cp < 0x1_0000
    ensures (0xE0 + cp / 4096) % 0x10 == cp / 4096 && 0xE0 + cp / 4096 <= 0xEF
    ensures (0x80 + cp / 64 % 64) % 64 == cp / 64 % 64 && (0x80 + cp % 64) % 64 == cp % 64
    ensures cp == cp / 4096 * 4096 + cp / 64 % 64 * 64 + cp % 64
  {
    assert cp / 4096 == cp / 64 / 64;
  }

  lemma Split4(cp: nat)
    requires cp < 0x11_0000
    ensures (0xF0 + cp / 0x4_0000) % 8 == cp / 0x4_0000 && 0xF0 + cp / 0x4_0000 <= 0xF4
    ensures (0x80 + cp / 4096 % 64) % 64 == cp / 4096 % 64
    ensures (0x80 + cp / 64 % 64) % 64 == cp / 64 % 64 && (0x80 + cp % 64) % 64 == cp % 64
    ensures cp == cp / 0x4_0000 * 0x4_0000 + cp / 4096 % 64 * 4096 + cp / 64 % 64 * 64 + cp % 64
  {
    assert cp / 4096 == cp / 64 / 64 && cp / 0x4_0000 == cp / 4096 / 64;
  }

  /** Giving up on a character leaves its code point behind. */
  lemma AbandonedOk(u: Utf8)
    requires Utf8Ok(u)
    ensures Utf8Ok(u.(remaining := 0))
  {
  }

  /** Columns a character without a glyph takes; a negative width wraps around. */
  function Columns(t: Theme, cp: nat): Word {
    t.wcwidth(cp) % TWO64
  }

  /** A decoded character: its glyph, or a box and blanks. */
  function PutUnicode(s: Screen, t: Theme, cp: nat): (r: Screen)
    requires Ok(s)
    ensures Ok(r)
  {
    match t.cp437(cp)
    case Some(g) => RawPut(s, g)
    case None => if Columns(t, cp) == 0 then s else RawBlanks(RawPut(s, 0xFE), Columns(t, cp) - 1)
  }

  predicate IsDigit(c: Byte) {
    B('0') <= c <= B('9')
  }

  /** The DEC special graphics set: box drawing and the like, in code page 437. */
  const DEC_SPECIAL: map<char, Byte> := map[
    '+' := 0x1A, ',' := 0x1B, '-' := 0x18, '.' := 0x19, '0' := 0xDB, '_' := 0xFF, '`' := 0x04,
    'a' := 0xB1, 'f' := 0xF8, 'g' := 0xF1, 'h' := 0xB0, 'j' := 0xD9, 'k' := 0xBF, 'l' := 0xDA,
    'm' := 0xC0, 'n' := 0xC5, 'q' := 0xC4, 's' := 0x5F, 't' := 0xC3, 'u' := 0xB4, 'v' := 0xC1,
    'w' := 0xC2, 'x' := 0xB3, 'y' := 0xF3, 'z' := 0xF2, '{' := 0xE3, '}' := 0x9C, '~' := 0xFA]

  /** The code page 437 glyph for a byte. */
  function GlyphOf(c: Byte, dec: bool): Byte {
    if dec && c as char in DEC_SPECIAL then DEC_SPECIAL[c as char] else if 0x20 <= c <= 0x7E then c else 0xFE
  }

  predicate IsControl(c: Byte) {
    c == 0 || c == 0x7F || 7 <= c <= 15 || c == 0x1B
  }

  // ----- control sequences -----

  /** What a missing parameter counts as. */
  function DefaultOf(c: Byte): Dword {
    if c == B('J') || c == B('K') || c == B('q') then 0 else 1
  }

  function ParamOf(vals: seq<Dword>, count: nat, k: nat, c: Byte): Dword
    requires k < |vals|
  {
    if k < count then vals[k] else DefaultOf(c)
  }

  /** The parameters so far: the values, the place of the next digit, whether that value has digits already. */
  datatype Params = Params(vals: seq<Dword>, index: nat, open: bool)

  const NO_PARAMS := Params([0, 0, 0, 0, 0, 0, 0, 0, 0, 0, 0, 0, 0, 0, 0, 0], 0, false)

  predicate ParamsOk(p: Params) {
    |p.vals| == MAX_VALUES && p.index <= MAX_VALUES && (p.open ==> p.index < MAX_VALUES)
  }

  predicate IsParameterByte(c: Byte) {
    IsDigit(c) || c == B(';')
  }

  /** A byte that ends a sequence, if it is not the first: section 5.4 of ECMA-48, without the "[" that the code treats apart. */
  predicate IsFinal(c: Byte) {
    0x40 <= c <= 0x7E && c != B('[')
  }

  /** A digit or a separator.  An empty parameter counts as 0, and nothing is kept beyond the last place. */
  function Fed(p: Params, c: Byte): (r: Params)
    requires ParamsOk(p) && IsParameterByte(c)
    ensures ParamsOk(r)
  {
    if p.index == MAX_VALUES then p
    else if IsDigit(c) then p.(vals := p.vals[p.index := (p.vals[p.index] * 10 + (c - B('0'))) % 0x1_0000_0000], open := true)
    else if p.open then p.(index := p.index + 1, open := false)
    else p.(vals := p.vals[p.index := 0], index := p.index + 1)
  }

  /** Values given so far. */
  function Count(p: Params): nat {
    if p.open then p.index + 1 else p.index
  }

  function WithDefaults(vals: seq<Dword>, count: nat, c: Byte): (r: seq<Dword>)
    ensures |r| == |vals| && forall k :: 0 <= k < |vals| ==> r[k] == ParamOf(vals, count, k, c)
  {
    if vals == [] then []
    else WithDefaults(vals[..|vals| - 1], count, c) + [ParamOf(vals, count, |vals| - 1, c)]
  }

  /** The values before final byte c, with its default in the places that were not given. */
  function Closed(p: Params, c: Byte): (r: Params)
    requires ParamsOk(p)
    ensures ParamsOk(r) && !r.open
  {
    Params(WithDefaults(p.vals, Count(p), c), Count(p), false)
  }

  // ----- the state -----

  /** What ESC 7 saves. */
  datatype Kept = Kept(look: Look, charset: nat, fg: Colour, bg: Colour, x: Word, y: Word)

  /** How far an escape sequence or a multi-byte character has been read. */
  datatype Mode = Mode(escape: bool, control: bool, osc: bool, oscEscape: bool, discard: bool, private: bool, unhandled: bool,
                       offset: Word, gSelect: nat, utf: Utf8)

  /** sets[i] says whether set i is the special one; (cx, cy) was saved by CSI s. */
  datatype Setup = Setup(sets: seq<bool>, charset: nat, insert: bool, onlcr: bool, tab: nat, autoflush: bool, cx: Word, cy: Word,
                         cursorOn: bool)

  datatype Term = Term(s: Screen, look: Look, kept: Kept, mode: Mode, pars: Params, setup: Setup)

  predicate Fine(t: Term) {
    && Ok(t.s) && ParamsOk(t.pars) && t.mode.gSelect <= 2 && Utf8Ok(t.mode.utf)
    && |t.setup.sets| == 2 && t.setup.charset <= 1 && t.kept.charset <= 1 && 0 < t.setup.tab
  }

  function PaintOf(t: Term): Paint {
    Paint(t.s.fg, t.s.bg, t.look)
  }

  function Painted(t: Term, p: Paint): Term {
    t.(s := t.s.(fg := p.fg, bg := p.bg), look := p.look)
  }

  // ----- one byte -----

  /** A control sequence, escape sequence or multi-byte character is given up or over. */
  function Ended(t: Term): Term {
    t.(mode := t.mode.(escape := false, control := false), pars := NO_PARAMS)
  }

  function Aborted(t: Term): (r: Term)
    requires Fine(t)
    ensures Fine(r)
  {
    AbandonedOk(t.mode.utf);
    Ended(t).(mode := t.mode.(escape := false, control := false, osc := false, oscEscape := false, discard := false, gSelect := 0,
                              utf := t.mode.utf.(remaining := 0)))
  }

  function OneByte(th: Theme, t: Term, c: Byte): (r: Term)
    requires ThemeOk(th) && Fine(t)
    ensures Fine(r)
  {
    hide Utf8Ok, Ok, ThemeOk;
    if t.mode.discard || c == 0x18 || c == 0x1A then Aborted(t)
    else if t.mode.utf.remaining > 0 && IsContinuation(c) then Continued(th, t, c)
    else if IsLead(c) then
      LeadOk(c);
      t.(mode := t.mode.(utf := Lead(c)))
    else
      AbandonedOk(t.mode.utf);
      var t1 := t.(mode := t.mode.(utf := t.mode.utf.(remaining := 0)));
      if t.mode.escape then EscapeStep(th, t1, c) else if t.mode.gSelect > 0 then CharsetStep(t1, c) else GroundStep(t1, c)
  }

  /** A continuation byte; the last one prints the character. */
  function Continued(th: Theme, t: Term, c: Byte): (r: Term)
    requires Fine(t) && t.mode.utf.remaining > 0
    ensures Fine(r)
  {
    ContinueOk(t.mode.utf, c);
    var u := Continue(t.mode.utf, c);
    t.(mode := t.mode.(utf := u), s := if u.remaining == 0 then PutUnicode(t.s, th, u.codePoint) else t.s)
  }

  /** The byte behind ESC ( or ESC ) chooses character set 0 or 1. */
  function CharsetStep(t: Term, c: Byte): (r: Term)
    requires Fine(t) && t.mode.gSelect > 0
    ensures Fine(r)
  {
    var sets := if c == B('B') || c == B('0') then t.setup.sets[t.mode.gSelect - 1 := c == B('0')] else t.setup.sets;
    t.(mode := t.mode.(gSelect := 0), setup := t.setup.(sets := sets))
  }

  /** Text and control characters. */
  function GroundStep(t: Term, c: Byte): (r: Term)
    requires Fine(t)
    ensures Fine(r)
  {
    if c == 0x1B then t.(mode := t.mode.(escape := true, offset := 0))
    else if c == 14 || c == 15 then t.(setup := t.setup.(charset := if c == 14 then 1 else 0))
    else t.(s := if IsControl(c) then Controlled(t, c) else Typed(t, c))
  }

  /** A character at the cursor; in insert mode the rest of the row makes room first. */
  function Typed(t: Term, c: Byte): (r: Screen)
    requires Fine(t)
    ensures Ok(r)
  {
    var glyph := GlyphOf(c, t.setup.sets[t.setup.charset]);
    RawPut(if t.setup.insert then Shoved(t.s, GetX(t.s), GetY(t.s)) else t.s, glyph)
  }

  function Controlled(t: Term, c: Byte): (r: Screen)
    requires Fine(t)
    ensures Ok(r)
  {
    var x, y := GetX(t.s), GetY(t.s);
    Sides(t.s);
    match c
    case 8 => MoveTo(t.s, if x == 0 then 0 else x - 1, y)
    case 9 => Tabbed(t.s, t.setup.tab)
    case 10 => FedLine(t.s, if t.setup.onlcr then 0 else x, y)
    case 11 => FedLine(t.s, if t.setup.onlcr then 0 else x, y)
    case 12 => FedLine(t.s, if t.setup.onlcr then 0 else x, y)
    case 13 => MoveTo(t.s, 0, y)
    case _ => t.s
  }

  /** The next tab stop, or the last column. */
  function Tabbed(s: Screen, tab: nat): (r: Screen)
    requires Ok(s) && 0 < tab
    ensures Ok(r)
  {
    var x, y := GetX(s), GetY(s);
    Sides(s);
    if x / tab + 1 >= s.cols then MoveTo(s, s.cols - 1, y) else SetCursor(s, (x / tab + 1) * tab % TWO64, y)
  }

  /** ESC M; above row 0 it stays there. */
  function FedBack(s: Screen): (r: Screen)
    requires Ok(s)
    ensures Ok(r)
  {
    if GetY(s) == s.top then MoveTo(RevScroll(s), 0, GetY(s)) else MoveTo(s, 0, if GetY(s) == 0 then 0 else GetY(s) - 1)
  }

  // ----- behind ESC -----

  function EscapeStep(th: Theme, t: Term, c: Byte): (r: Term)
    requires ThemeOk(th) && Fine(t)
    ensures Fine(r)
  {
    var t1 := t.(mode := t.mode.(offset := (t.mode.offset + 1) % TWO64));
    if t.mode.osc && (!t.mode.oscEscape || c == B('\\')) then t1.(mode := Quoted(t1.mode, c))
    else
      var t2 := if t.mode.osc then t1.(mode := t1.mode.(osc := false, oscEscape := false)) else t1;
      if t.mode.control then ControlStep(th, t2, c) else EscapeEnds(t2, c)
  }

  /** A byte of an OSC string, which BEL ends, or ESC and a backslash. */
  function Quoted(m: Mode, c: Byte): Mode {
    if m.oscEscape || c == 7 then m.(osc := false, oscEscape := false, escape := false)
    else m.(oscEscape := c == 0x1B)
  }

  /** The byte that says what the escape sequence is. */
  function EscapeEnds(t: Term, c: Byte): (r: Term)
    requires Fine(t)
    ensures Fine(r)
  {
    var over := t.(mode := t.mode.(escape := false));
    match c as char
    case ']' => t.(mode := t.mode.(osc := true, oscEscape := false))
    case '[' => t.(mode := t.mode.(control := true, unhandled := false), pars := NO_PARAMS)
    case '(' => over.(mode := over.mode.(gSelect := 1))
    case ')' => over.(mode := over.mode.(gSelect := 2))
    case 'c' => Restarted(t)
    case '7' => over.(kept := Kept(t.look, t.setup.charset, t.s.fg, t.s.bg, t.s.x, t.s.y))
    case '8' => over.(look := t.kept.look, setup := t.setup.(charset := t.kept.charset),
                      s := t.s.(fg := t.kept.fg, bg := t.kept.bg, x := t.kept.x, y := t.kept.y))
    case 'D' => over.(s := FedLine(t.s, GetX(t.s), GetY(t.s)))
    case 'E' => over.(s := FedLine(t.s, 0, GetY(t.s)))
    case 'M' => over.(s := FedBack(t.s))
    case _ => over
  }

  /** ESC c: everything as at start-up but the colours in use and what ESC 7 saved. */
  function Restarted(t: Term): (r: Term)
    requires Fine(t)
    ensures Fine(r)
  {
    AbandonedOk(t.mode.utf);
    Term(Fresh(t.s), PLAIN, t.kept, START(t.mode.utf), NO_PARAMS, Setup([false, true], 0, false, true, 8, true, 0, 0, true))
  }

  function START(utf: Utf8): Mode {
    Mode(false, false, false, false, false, false, false, 0, 0, utf.(remaining := 0))
  }

  /** The screen after ESC c: cleared in the current colours, the margins around all of it. */
  function Fresh(s: Screen): (r: Screen)
    requires Ok(s)
    ensures Plain(r)
  {
    Clear(s.(top := 0, bottom := s.rows, scrollOn := true), true)
  }

  // ----- behind ESC [ -----

  function ControlStep(th: Theme, t: Term, c: Byte): (r: Term)
    requires ThemeOk(th) && Fine(t)
    ensures Fine(r)
  {
    if t.mode.offset == 2 && c == B('[') then Ended(t).(mode := Ended(t).mode.(discard := true))
    else if t.mode.offset == 2 && c == B('?') then t.(mode := t.mode.(private := true))
    else if IsParameterByte(c) then t.(pars := Fed(t.pars, c))
    else if t.mode.private then PrivateEnds(t.(pars := Closed(t.pars, c)), c)
    else SequenceEnds(th, t.(pars := Closed(t.pars, c)), c)
  }

  /** CSI ? 25 h and l switch the cursor on and off; no private sequence has any other effect. */
  function PrivateEnds(t: Term, c: Byte): (r: Term)
    requires Fine(t)
    ensures Fine(r)
  {
    var on := if t.pars.index > 0 && t.pars.vals[0] == 25 && (c == B('h') || c == B('l')) then c == B('h') else t.setup.cursorOn;
    var over := Ended(t);
    over.(mode := over.mode.(private := false), setup := t.setup.(cursorOn := on))
  }

  /** The byte behind the parameters. */
  function SequenceEnds(th: Theme, t: Term, c: Byte): (r: Term)
    requires ThemeOk(th) && Fine(t)
    ensures Fine(r)
  {
    var still := t.(s := t.s.(scrollOn := false));
    if t.mode.unhandled then
      (if 0x40 <= c <= 0x7E then Ended(still).(mode := Ended(still).mode.(unhandled := false)) else still)
    else if c == 0x1B then still
    else if !IsKnown(c) then still.(mode := t.mode.(unhandled := true))
    else Ended(Performed(th, t, c))
  }

  /** A control sequence takes effect; it runs with scrolling off. */
  function Performed(th: Theme, t: Term, c: Byte): (r: Term)
    requires ThemeOk(th) && Fine(t)
    ensures Fine(r)
  {
    var n := t.pars.index;
    Sides(t.s);
    match c as char
    case 'm' => Painted(t, SgrAll(th, PaintOf(t), if n == 0 then [0] else t.pars.vals[..n]))
    case 's' => t.(setup := t.setup.(cx := GetX(t.s), cy := GetY(t.s)))
    case 'h' => t.(setup := t.setup.(insert := t.setup.insert || (n > 0 && t.pars.vals[0] == 4)))
    case 'l' => t.(setup := t.setup.(insert := t.setup.insert && !(n > 0 && t.pars.vals[0] == 4)))
    case _ => t.(s := Effect(t.s.(scrollOn := false), c, t.pars.vals[0], t.pars.vals[1], n, t.setup.cx, t.setup.cy).(scrollOn := t.s.scrollOn))
  }

  // ----- any bytes -----

  function AfterBytes(th: Theme, t: Term, bytes: seq<Byte>): (r: Term)
    requires ThemeOk(th) && Fine(t)
    ensures Fine(r)
  {
    if bytes == [] then t else OneByte(th, AfterBytes(th, t, bytes[..|bytes| - 1]), bytes[|bytes| - 1])
  }

  /** The terminal as flanterm_fb_init leaves it: what ESC 7 would save is zero. */
  function AtPowerOn(s: Screen): Term {
    Term(s, PLAIN, Kept(Look(false, false, false, 0, 0), 0, 0, 0, 0, 0), START(Utf8(0, 0)), NO_PARAMS, Setup([false, true], 0, false, true, 8, true, 0, 0, true))
  }

  // ----- steps of the code -----

  lemma SgrSingle(t: Theme, p: Paint, v: Dword)
    requires ThemeOk(t) && v != 38 && v != 48
    ensures SgrAll(t, p, [v]) == SgrOne(t, p, v)
  {
    hide SgrOne;
    assert [v][1..] == [];
    assert SgrAll(t, SgrOne(t, p, v), []) == SgrOne(t, p, v);
  }

  /** Codes that CSI m ignores. */
  lemma SgrNothing(t: Theme, p: Paint, v: Dword)
    requires ThemeOk(t) && v !in {0, 1, 5, 7, 22, 25, 27, 39, 49}
    requires !(30 <= v <= 37 || 40 <= v <= 47 || 90 <= v <= 97 || 100 <= v <= 107)
    ensures SgrOne(t, p, v) == p
  {
  }

  lemma FinalBytes()
    ensures forall c: Byte :: IsKnown(c) ==> !IsParameterByte(c) && IsFinal(c) && c != 0x1B
  {
  }

  /** What ends a private sequence, in the order of the code. */
  lemma PrivateSteps(t: Term, c: Byte)
    requires Fine(t)
    ensures var t1 := t.(mode := t.mode.(private := false));
            PrivateEnds(t, c) == Ended(if t.pars.index > 0 && (c == B('h') || c == B('l')) && t.pars.vals[0] == 25
                                       then t1.(setup := t1.setup.(cursorOn := c == B('h'))) else t1)
  {
    hide Ok, Utf8Ok;
  }

  /** That scrolling is off while a sequence runs makes no difference to the rest. */
  lemma PerformedQuietly(th: Theme, t: Term, c: Byte)
    requires ThemeOk(th) && Fine(t)
    ensures var q := Performed(th, t.(s := t.s.(scrollOn := false)), c);
            Performed(th, t, c) == q.(s := q.s.(scrollOn := t.s.scrollOn))
  {
    hide SgrAll, Effect, Ok, Utf8Ok;
  }

  lemma QuietSkip(th: Theme, t: Term, c: Byte)
    requires ThemeOk(th) && Fine(t) && t.mode.unhandled
    ensures SequenceEnds(th, t, c) == SequenceEnds(th, t.(s := t.s.(scrollOn := false)), c)
  {
    hide Ok, Utf8Ok, Performed;
  }

  /** An escape character inside a sequence leaves scrolling off. */
  lemma EscapeInside(th: Theme, t: Term, c: Byte)
    requires ThemeOk(th) && Fine(t) && !t.mode.unhandled && c == 0x1B
    ensures SequenceEnds(th, t, c) == t.(s := t.s.(scrollOn := false))
  {
    hide Ok, Utf8Ok, Performed;
  }

  lemma Unhandled(th: Theme, t: Term, c: Byte)
    requires ThemeOk(th) && Fine(t) && !t.mode.unhandled && c != 0x1B && !IsKnown(c)
    ensures SequenceEnds(th, t, c) == t.(s := t.s.(scrollOn := false), mode := t.mode.(unhandled := true))
  {
    hide Ok, Utf8Ok, Performed, IsKnown;
  }

  /** q is where the sequence led with scrolling off. */
  lemma Handled(th: Theme, t: Term, c: Byte, q: Term)
    requires ThemeOk(th) && Fine(t) && !t.mode.unhandled && c != 0x1B && IsKnown(c)
    requires q.(pars := NO_PARAMS) == Performed(th, t.(s := t.s.(scrollOn := false)), c).(pars := NO_PARAMS)
    ensures SequenceEnds(th, t, c) == Ended(q.(s := q.s.(scrollOn := t.s.scrollOn)))
  {
    hide Ok, Utf8Ok, Performed, IsKnown;
    PerformedQuietly(th, t, c);
  }

  /** The sequences that move the cursor or change cells. */
  lemma PerformedIs(th: Theme, t: Term, c: Byte)
    requires ThemeOk(th) && Fine(t) && !t.s.scrollOn && (IsMove(c) || IsEdit(c))
    ensures var e := Effect(t.s, c, t.pars.vals[0], t.pars.vals[1], t.pars.index, t.setup.cx, t.setup.cy);
            Performed(th, t, c) == t.(s := e.(scrollOn := false))
  {
    hide SgrAll, Effect, Ok, Utf8Ok;
    assert t.s.(scrollOn := false) == t.s;
  }

  /** The sequences that only call back. */
  lemma PerformedNothing(th: Theme, t: Term, c: Byte)
    requires ThemeOk(th) && Fine(t) && !t.s.scrollOn && c in {B(']'), B('c'), B('n'), B('q')}
    ensures Performed(th, t, c) == t
  {
    hide SgrAll, Ok, Utf8Ok, Moved, Edited;
    assert t.s.(scrollOn := false) == t.s;
  }

  lemma ControlNone(t: Term, c: Byte)
    requires Fine(t) && (c == 0 || c == 0x7F)
    ensures Controlled(t, c) == t.s
  {
  }
}
