/**
 * Plain text on the screen: flanterm_putchar of src/flanterm/flanterm.c for
 * printable ASCII and newline against a layout of lines that knows nothing of
 * cursors and scrolling.
 */
module Printing {
  import opened Words
  import opened Screen

  const NEWLINE: Byte := 10

  predicate Printable(c: Byte) {
    0x20 <= c <= 0x7E || c == NEWLINE
  }

  predicate IsText(text: seq<Byte>) {
    forall i :: 0 <= i < |text| ==> Printable(text[i])
  }

  /** A line feed on row y; the cursor goes to column x. */
  function FedLine(s: Screen, x: Word, y: nat): (r: Screen)
    requires Ok(s) && y < s.rows
    ensures Ok(r)
  {
    Sides(s);
    if y == s.bottom - 1 then SetCursor(Scroll(s), x, y) else SetCursor(s, x, y + 1)
  }

  /** flanterm_putchar outside escape sequences, with ONLCR set, insert mode off and the default character set. */
  function PutText(s: Screen, c: Byte): (r: Screen)
    requires Ok(s)
    ensures Ok(r)
  {
    if c != NEWLINE then RawPut(s, c) else FedLine(s, 0, GetY(s))
  }

  function PutAll(s: Screen, text: seq<Byte>): (r: Screen)
    requires Ok(s)
    ensures Ok(r)
  {
    if text == [] then s else PutText(PutAll(s, text[..|text| - 1]), text[|text| - 1])
  }

  // ----- the layout -----

  type Line = seq<Byte>

  function Last(lines: seq<Line>): Line
    requires lines != []
  {
    lines[|lines| - 1]
  }

  predicate Fits(cols: nat, lines: seq<Line>) {
    lines != [] && forall k :: 0 <= k < |lines| ==> |lines[k]| <= cols
  }

  /** A full line is continued on a new one, but only when another character follows. */
  function Extend(cols: nat, lines: seq<Line>, c: Byte): (r: seq<Line>)
    requires lines != []
    ensures |lines| <= |r|
    ensures 0 < cols && Fits(cols, lines) ==> Fits(cols, r)
  {
    if c == NEWLINE then lines + [[]]
    else if |Last(lines)| >= cols then lines + [[c]]
    else lines[|lines| - 1 := Last(lines) + [c]]
  }

  function Layout(cols: nat, text: seq<Byte>): (r: seq<Line>)
    ensures r != [] && (0 < cols ==> Fits(cols, r))
  {
    if text == [] then [[]] else Extend(cols, Layout(cols, text[..|text| - 1]), text[|text| - 1])
  }

  /** Lines that have left the screen at the top. */
  function Hidden(rows: nat, lines: seq<Line>): nat {
    if |lines| > rows then |lines| - rows else 0
  }

  /** What is at column x of line k. */
  function Glyph(lines: seq<Line>, k: nat, x: nat, fg: Colour, bg: Colour): Cell {
    if k < |lines| && x < |lines[k]| then Cell(lines[k][x], fg, bg) else Cell(0x20, fg, bg)
  }

  function Row(cols: nat, i: nat): nat
    requires 0 < cols
  {
    i / cols
  }

  function Col(cols: nat, i: nat): nat
    requires 0 < cols
  {
    i % cols
  }

  /** The first n cells of a picture of the lines from number h on. */
  function Page(n: nat, cols: nat, lines: seq<Line>, h: nat, fg: Colour, bg: Colour): (v: seq<Cell>)
    requires 0 < cols
    ensures |v| == n && forall i: nat :: i < n ==> v[i] == Glyph(lines, h + Row(cols, i), Col(cols, i), fg, bg)
  {
    seq(n, i requires 0 <= i < n => Glyph(lines, h + Row(cols, i), Col(cols, i), fg, bg))
  }

  /** The screen showing the last `rows` lines, the cursor behind the last character. */
  function Shown(s: Screen, lines: seq<Line>): (r: Screen)
    requires Ok(s) && Fits(s.cols, lines)
    ensures Ok(r)
  {
    Sides(s);
    var h := Hidden(s.rows, lines);
    s.(view := Page(s.rows * s.cols, s.cols, lines, h, s.fg, s.bg), x := |Last(lines)|, y := |lines| - 1 - h)
  }

  /** The situation at the start: margins around the whole screen, scrolling on. */
  predicate Plain(s: Screen) {
    Ok(s) && s.top == 0 && s.bottom == s.rows && s.scrollOn
  }

  lemma RowBelow(cols: nat, i: nat)
    requires 0 < cols
    ensures Row(cols, i + cols) == Row(cols, i) + 1 && Col(cols, i + cols) == Col(cols, i)
  {
    var q, r := i / cols, i % cols;
    assert i + cols == (q + 1) * cols + r;
    DivMod(cols, r, q + 1);
  }

  lemma LastRow(rows: nat, cols: nat, i: nat)
    requires 0 < rows && 0 < cols && rows * cols - cols <= i < rows * cols
    ensures Row(cols, i) == rows - 1
  {
    assert rows * cols == (rows - 1) * cols + cols;
    var x := i - (rows - 1) * cols;
    DivMod(cols, x, rows - 1);
  }

  /** An empty line at the end shows as blanks. */
  lemma GlyphAppend(lines: seq<Line>, k: nat, x: nat, fg: Colour, bg: Colour)
    ensures Glyph(lines + [[]], k, x, fg, bg) == if k < |lines| then Glyph(lines, k, x, fg, bg) else Cell(0x20, fg, bg)
  {
  }

  /** With an empty line more and one line fewer on top, the picture moves up by a row. */
  lemma PageScrolls(n: nat, rows: nat, cols: nat, lines: seq<Line>, h: nat, fg: Colour, bg: Colour)
    requires 0 < rows && 0 < cols <= n && n == rows * cols && h + rows == |lines|
    ensures Page(n, cols, lines + [[]], h + 1, fg, bg) == ShiftUp(Page(n, cols, lines, h, fg, bg), 0, n, cols, Cell(0x20, fg, bg))
  {
    hide Glyph, Row, Col, Page, ShiftUp;
    var lines', blank := lines + [[]], Cell(0x20, fg, bg);
    var a, b := Page(n, cols, lines', h + 1, fg, bg), Page(n, cols, lines, h, fg, bg);
    forall i: nat | i < n ensures a[i] == if i < n - cols then b[i + cols] else blank {
      GlyphAppend(lines, h + 1 + Row(cols, i), Col(cols, i), fg, bg);
      if i < n - cols { RowBelow(cols, i); InsideRows(rows, cols, i + cols); } else { LastRow(rows, cols, i); }
    }
    ShiftUpAll(a, b, cols, blank);
  }

  lemma ShiftUpAll(a: seq<Cell>, b: seq<Cell>, cols: nat, blank: Cell)
    requires |a| == |b| && cols <= |b|
    requires forall i: nat :: i < |a| ==> a[i] == if i < |a| - cols then b[i + cols] else blank
    ensures a == ShiftUp(b, 0, |b|, cols, blank)
  {
  }

  lemma InsideRows(rows: nat, cols: nat, i: nat)
    requires 0 < cols && i < rows * cols
    ensures Row(cols, i) < rows && Col(cols, i) < cols && At(cols, Col(cols, i), Row(cols, i)) == i
  {
    AtOfIndex(rows, cols, i);
  }

  /** While it fits on the screen, an empty line at the end is invisible. */
  lemma PageStays(rows: nat, cols: nat, lines: seq<Line>, fg: Colour, bg: Colour)
    requires 0 < cols
    ensures Page(rows * cols, cols, lines + [[]], 0, fg, bg) == Page(rows * cols, cols, lines, 0, fg, bg)
  {
  }

  /** One more character on the last line changes the cell behind it. */
  lemma PageChar(rows: nat, cols: nat, lines: seq<Line>, h: nat, c: Byte, fg: Colour, bg: Colour)
    requires lines != [] && |Last(lines)| < cols && h < |lines| <= h + rows
    ensures var i := At(cols, |Last(lines)|, |lines| - 1 - h);
            i < rows * cols &&
            Page(rows * cols, cols, lines[|lines| - 1 := Last(lines) + [c]], h, fg, bg) == Page(rows * cols, cols, lines, h, fg, bg)[i := Cell(c, fg, bg)]
  {
    hide At, Row, Col;
    var n, lines', x, y := rows * cols, lines[|lines| - 1 := Last(lines) + [c]], |Last(lines)|, |lines| - 1 - h;
    AtInside(rows, cols, x, y);
    RowColAt(rows, cols, x, y);
    forall i: nat | i < n
      ensures Page(n, cols, lines', h, fg, bg)[i] == if i == At(cols, x, y) then Cell(c, fg, bg) else Page(n, cols, lines, h, fg, bg)[i]
    {
      InsideRows(rows, cols, i);
    }
  }

  lemma RowColAt(rows: nat, cols: nat, x: nat, y: nat)
    requires x < cols && y < rows
    ensures Row(cols, At(cols, x, y)) == y && Col(cols, At(cols, x, y)) == x
  {
    AtInside(rows, cols, x, y);
  }

  /** A character that fits on its line. */
  lemma CharFits(s: Screen, lines: seq<Line>, c: Byte)
    requires Plain(s) && Fits(s.cols, lines) && |Last(lines)| < s.cols && c != NEWLINE
    ensures Fits(s.cols, Extend(s.cols, lines, c))
    ensures PutText(Shown(s, lines), c) == Shown(s, Extend(s.cols, lines, c))
  {
    hide At, Page;
    Sides(s);
    PageChar(s.rows, s.cols, lines, Hidden(s.rows, lines), c, s.fg, s.bg);
  }

  /** What a new line does to the picture and the cursor, whether typed or by a wrap. */
  lemma NewLineShown(s: Screen, lines: seq<Line>)
    requires Plain(s) && Fits(s.cols, lines)
    ensures Fits(s.cols, lines + [[]])
    ensures var t := Shown(s, lines);
            Shown(s, lines + [[]]) == if |lines| >= s.rows then Scroll(t).(x := 0) else t.(x := 0, y := |lines|)
    ensures var t := Shown(s, lines);
            t.y < s.rows && (t.y == s.rows - 1 <==> |lines| >= s.rows) && (|lines| < s.rows ==> t.y == |lines| - 1)
  {
    hide ShiftUp, Page;
    Sides(s);
    RowRange(s.rows, s.cols, 0, s.rows);
    if |lines| >= s.rows {
      PageScrolls(s.rows * s.cols, s.rows, s.cols, lines, |lines| - s.rows, s.fg, s.bg);
    } else {
      PageStays(s.rows, s.cols, lines, s.fg, s.bg);
    }
  }

  lemma NewLine(s: Screen, lines: seq<Line>)
    requires Plain(s) && Fits(s.cols, lines)
    ensures Fits(s.cols, lines + [[]])
    ensures PutText(Shown(s, lines), NEWLINE) == Shown(s, lines + [[]])
  {
    hide ShiftUp, Page, Scroll;
    Sides(s);
    NewLineShown(s, lines);
    ScrollKeeps(Shown(s, lines));
  }

  lemma ScrollKeeps(s: Screen)
    requires Ok(s)
    ensures Scroll(s) == s.(view := Scroll(s).view)
    ensures forall x, y :: Scroll(s.(x := x, y := y)) == Scroll(s).(x := x, y := y)
  {
  }

  lemma WrapIs(t: Screen)
    requires Plain(t) && t.x == t.cols && t.y < t.rows
    requires (if t.y == t.rows - 1 then t.rows - 1 else t.y + 1) < t.cols
    ensures Wrap(t) == if t.y == t.rows - 1 then Scroll(t).(x := 0) else t.(x := 0, y := t.y + 1)
  {
    hide Scroll, Ok;
    Sides(t);
    ScrollMoved(t, 0, t.y);
  }

  lemma ScrollMoved(s: Screen, x: Word, y: Word)
    requires Ok(s)
    ensures Scroll(s.(x := x, y := y)) == Scroll(s).(x := x, y := y) && Scroll(s).y == s.y
  {
    hide ShiftUp;
  }

  /** The deferred wrap is a new line as long as the number of the next row is below the number of columns. */
  lemma WrapFits(s: Screen, lines: seq<Line>)
    requires Plain(s) && Fits(s.cols, lines) && |Last(lines)| == s.cols
    requires |lines| < s.cols || s.rows <= s.cols
    ensures Fits(s.cols, lines + [[]])
    ensures Wrap(Shown(s, lines)) == Shown(s, lines + [[]])
  {
    hide Page, Scroll, Wrap;
    NewLineShown(s, lines);
    WrapIs(Shown(s, lines));
  }

  lemma Step(s: Screen, lines: seq<Line>, c: Byte)
    requires Plain(s) && Fits(s.cols, lines)
    requires c == NEWLINE || |Last(lines)| < s.cols || |lines| < s.cols || s.rows <= s.cols
    ensures Fits(s.cols, Extend(s.cols, lines, c))
    ensures PutText(Shown(s, lines), c) == Shown(s, Extend(s.cols, lines, c))
  {
    hide Shown, Wrap, Plot;
    if c == NEWLINE {
      NewLine(s, lines);
    } else if |Last(lines)| < s.cols {
      CharFits(s, lines, c);
    } else {
      WrapFits(s, lines);
      CharFits(s, lines + [[]], c);
      NoWrap(s, lines + [[]]);
      assert [] + [c] == [c] && (lines + [[]])[|lines| := [c]] == lines + [[c]];
      assert Extend(s.cols, lines + [[]], c) == Extend(s.cols, lines, c);
      assert RawPut(Shown(s, lines), c) == RawPut(Shown(s, lines + [[]]), c);
    }
  }

  lemma NoWrap(s: Screen, lines: seq<Line>)
    requires Plain(s) && Fits(s.cols, lines) && |Last(lines)| < s.cols
    ensures Wrap(Shown(s, lines)) == Shown(s, lines)
  {
    hide Page;
  }

  lemma Home(s: Screen)
    requires Plain(s)
    ensures Fits(s.cols, [[]]) && Clear(s, true) == Shown(s, [[]])
  {
    assert Clear(s, true).view == Shown(s, [[]]).view;
  }

  /** Text from a cleared screen is laid out in lines, of which the last `rows` stay visible. */
  lemma {:induction false} PrintingIsLayout(s: Screen, text: seq<Byte>)
    requires Plain(s) && (s.rows <= s.cols || |Layout(s.cols, text)| <= s.cols)
    ensures PutAll(Clear(s, true), text) == Shown(s, Layout(s.cols, text))
  {
    hide Shown, Clear, PutText;
    if text == [] {
      Home(s);
    } else {
      PrintingIsLayout(s, text[..|text| - 1]);
      Step(s, Layout(s.cols, text[..|text| - 1]), text[|text| - 1]);
    }
  }

  // ----- a screen with more rows than columns -----

  function Times(n: nat, c: Byte): (t: seq<Byte>)
    ensures |t| == n
  {
    seq(n, _ => c)
  }

  lemma {:induction false} LayoutNewlines(cols: nat, n: nat)
    ensures |Layout(cols, Times(n, NEWLINE))| == n + 1 && Last(Layout(cols, Times(n, NEWLINE))) == []
  {
    if n > 0 {
      assert Times(n, NEWLINE)[..n - 1] == Times(n - 1, NEWLINE);
      LayoutNewlines(cols, n - 1);
    }
  }

  lemma {:induction false} LayoutRun(cols: nat, text: seq<Byte>, n: nat, c: Byte)
    requires n <= cols && c != NEWLINE && Last(Layout(cols, text)) == []
    ensures |Layout(cols, text + Times(n, c))| == |Layout(cols, text)| && Last(Layout(cols, text + Times(n, c))) == Times(n, c)
  {
    if n == 0 {
      assert text + Times(0, c) == text;
    } else {
      assert (text + Times(n, c))[..|text| + n - 1] == text + Times(n - 1, c);
      LayoutRun(cols, text, n - 1, c);
      assert Times(n, c) == Times(n - 1, c) + [c];
    }
  }

  /** cols - 1 newlines, a full line of a's and one b. */
  function TallText(cols: nat): seq<Byte>
    requires 0 < cols
  {
    Times(cols - 1, NEWLINE) + Times(cols, 0x61) + [0x62]
  }

  /** The row after a wrap is compared with the number of columns, so on a tall screen the b overwrites an a. */
  lemma TallScreenFails(s: Screen)
    requires Plain(s) && s.rows > s.cols
    ensures PutAll(Clear(s, true), TallText(s.cols)).view != Shown(s, Layout(s.cols, TallText(s.cols))).view
  {
    hide Clear, PutAll, Shown, PutText;
    var text := Times(s.cols - 1, NEWLINE) + Times(s.cols, 0x61);
    LayoutNewlines(s.cols, s.cols - 1);
    LayoutRun(s.cols, Times(s.cols - 1, NEWLINE), s.cols, 0x61);
    var lines := Layout(s.cols, text);
    PrintingIsLayout(s, text);
    assert TallText(s.cols)[..|text|] == text;
    Overwritten(s, lines);
    PutLast(Clear(s, true), text, 0x62);
  }

  lemma PutLast(s: Screen, text: seq<Byte>, c: Byte)
    requires Ok(s)
    ensures PutAll(s, text + [c]) == PutText(PutAll(s, text), c)
  {
    assert (text + [c])[..|text|] == text;
  }

  /** The wrap behind row cols - 1 goes back to the start of that row. */
  lemma WrapClamps(s: Screen, lines: seq<Line>)
    requires Plain(s) && Fits(s.cols, lines) && |lines| == s.cols < s.rows && |Last(lines)| == s.cols
    ensures s.cols < TWO64 && Wrap(Shown(s, lines)) == Shown(s, lines).(x := 0, y := s.cols - 1)
  {
    hide Page, Scroll;
    Sides(s);
  }

  lemma Overwritten(s: Screen, lines: seq<Line>)
    requires Plain(s) && Fits(s.cols, lines) && |lines| == s.cols < s.rows && |Last(lines)| == s.cols && Last(lines)[0] != 0x62
    ensures PutText(Shown(s, lines), 0x62).view != Shown(s, Extend(s.cols, lines, 0x62)).view
  {
    hide Page, At, Wrap, Row, Col;
    WrapClamps(s, lines);
    AtInside(s.rows, s.cols, 0, s.cols - 1);
    RowColAt(s.rows, s.cols, 0, s.cols - 1);
    var i := At(s.cols, 0, s.cols - 1);
    assert PutText(Shown(s, lines), 0x62).view[i] == Cell(0x62, s.fg, s.bg);
    assert Shown(s, Extend(s.cols, lines, 0x62)).view[i] == Cell(Last(lines)[0], s.fg, s.bg);
  }

  /** Printing agrees with the layout for every text exactly when the screen is no taller than it is wide. */
  lemma PrintingExactlyWhenWide(s: Screen)
    requires Plain(s)
    ensures s.rows <= s.cols <==> forall text :: IsText(text) ==> PutAll(Clear(s, true), text) == Shown(s, Layout(s.cols, text))
  {
    hide Clear, Shown, PutAll, Layout;
    if s.rows <= s.cols {
      forall text | IsText(text) ensures PutAll(Clear(s, true), text) == Shown(s, Layout(s.cols, text)) { PrintingIsLayout(s, text); }
    } else {
      TallScreenFails(s);
      assert IsText(TallText(s.cols));
    }
  }
}
