/**
 * What the terminal backend shows, as a plain rows x cols array of character
 * cells with a cursor: the meaning of the operations of
 * src/flanterm/backends/fb.c without its damage queue.
 */
module Screen {
  import opened Words

  type Byte = b: nat | b < 0x100
  type Colour = c: nat | c < 0x1_0000_0000

  datatype Cell = Cell(ch: Byte, fg: Colour, bg: Colour)

  function Swapped(c: Cell): Cell {
    Cell(c.ch, c.bg, c.fg)
  }

  /** Index of a cell in row-major order. */
  function At(cols: nat, x: nat, y: nat): nat {
    y * cols + x
  }

  lemma AtInside(rows: nat, cols: nat, x: nat, y: nat)
    requires x < cols && y < rows
    ensures At(cols, x, y) < rows * cols
    ensures y * cols <= At(cols, x, y) && At(cols, x, y) + (cols - x) <= rows * cols
    ensures At(cols, x, y) / cols == y && At(cols, x, y) % cols == x
  {
    MulMono(y + 1, rows, cols);
    assert (y + 1) * cols == y * cols + cols;
    DivMod(cols, x, y);
  }

  lemma AtOfIndex(rows: nat, cols: nat, i: nat)
    requires 0 < cols && i < rows * cols
    ensures i / cols < rows && i % cols < cols && At(cols, i % cols, i / cols) == i
  {
    if i / cols >= rows { MulMono(rows, i / cols, cols); }
  }

  /** Rows top .. bottom-1 occupy a range of whole rows. */
  lemma RowRange(rows: nat, cols: nat, top: nat, bottom: nat)
    requires top < bottom <= rows
    ensures 0 <= top * cols && top * cols + cols <= bottom * cols <= rows * cols
    ensures (top + 1) * cols == top * cols + cols && (bottom - 1) * cols == bottom * cols - cols
  {
    MulMono(top + 1, bottom, cols);
    MulMono(bottom, rows, cols);
    assert (top + 1) * cols == top * cols + cols;
  }

  function Blanks(n: nat, c: Cell): (s: seq<Cell>)
    ensures |s| == n && forall i :: 0 <= i < n ==> s[i] == c
  {
    seq(n, _ => c)
  }

  /** `n` cells from index lo on are blank. */
  function Filled(v: seq<Cell>, lo: nat, n: nat, c: Cell): (r: seq<Cell>)
    requires lo + n <= |v|
    ensures |r| == |v|
  {
    v[..lo] + Blanks(n, c) + v[lo + n..]
  }

  /** The rows between offsets lo and hi move up by one row. */
  function ShiftUp(v: seq<Cell>, lo: nat, hi: nat, cols: nat, blank: Cell): (r: seq<Cell>)
    requires lo + cols <= hi <= |v|
    ensures |r| == |v|
  {
    v[..lo] + v[lo + cols..hi] + Blanks(cols, blank) + v[hi..]
  }

  /** The rows between offsets lo and hi move down by one row. */
  function ShiftDown(v: seq<Cell>, lo: nat, hi: nat, cols: nat, blank: Cell): (r: seq<Cell>)
    requires lo + cols <= hi <= |v|
    ensures |r| == |v|
  {
    v[..lo] + Blanks(cols, blank) + v[lo..hi - cols] + v[hi..]
  }

  datatype Screen = Screen(rows: nat, cols: nat, view: seq<Cell>, x: Word, y: Word, fg: Colour, bg: Colour,
                           top: nat, bottom: nat, scrollOn: bool)

  predicate Ok(s: Screen) {
    && 0 < s.rows && 0 < s.cols && s.rows * s.cols < TWO64
    && |s.view| == s.rows * s.cols && s.top < s.bottom <= s.rows
  }

  function Space(s: Screen): Cell {
    Cell(0x20, s.fg, s.bg)
  }

  /** A write outside the screen is ignored. */
  function Plot(s: Screen, c: Cell, x: nat, y: nat): (r: Screen)
    requires Ok(s)
    ensures Ok(r)
  {
    if x < s.cols && y < s.rows then
      AtInside(s.rows, s.cols, x, y);
      s.(view := s.view[At(s.cols, x, y) := c])
    else s
  }

  function Scroll(s: Screen): (r: Screen)
    requires Ok(s)
    ensures Ok(r)
  {
    RowRange(s.rows, s.cols, s.top, s.bottom);
    s.(view := ShiftUp(s.view, s.top * s.cols, s.bottom * s.cols, s.cols, Space(s)))
  }

  /** The rows from `from` to the bottom margin move down; below the margin only the row itself is blanked. */
  function RevScrollFrom(s: Screen, from: nat): (r: Screen)
    requires Ok(s) && from < s.rows
    ensures Ok(r)
  {
    RowRange(s.rows, s.cols, from, from + 1);
    if from < s.bottom then
      RowRange(s.rows, s.cols, from, s.bottom);
      s.(view := ShiftDown(s.view, from * s.cols, s.bottom * s.cols, s.cols, Space(s)))
    else s.(view := Filled(s.view, from * s.cols, s.cols, Space(s)))
  }

  function RevScroll(s: Screen): (r: Screen)
    requires Ok(s)
    ensures Ok(r)
  {
    RevScrollFrom(s, s.top)
  }

  function Clear(s: Screen, move: bool): (r: Screen)
    requires Ok(s)
    ensures Ok(r)
  {
    var r := s.(view := Blanks(s.rows * s.cols, Space(s)));
    if move then r.(x := 0, y := 0) else r
  }

  /** A coordinate is cut to the screen; the test for a negative one looks at its low 32 bits only. */
  function Clamp(v: Word, limit: nat): (r: nat)
    requires 0 < limit
    ensures r < limit && (v < limit ==> r == v)
  {
    if v < limit then v else if v % 0x1_0000_0000 >= 0x8000_0000 then 0 else limit - 1
  }

  function SetCursor(s: Screen, x: Word, y: Word): (r: Screen)
    requires Ok(s)
    ensures Ok(r)
  {
    Sides(s);
    s.(x := Clamp(x, s.cols), y := Clamp(y, s.rows))
  }

  lemma Sides(s: Screen)
    requires Ok(s)
    ensures s.rows < TWO64 && s.cols < TWO64
  {
    MulMono(1, s.rows, s.cols);
    MulMono(1, s.cols, s.rows);
  }

  /** get_cursor_pos: a cursor past the margin is reported on it. */
  function GetX(s: Screen): nat
    requires Ok(s)
  {
    if s.x >= s.cols then s.cols - 1 else s.x
  }

  function GetY(s: Screen): nat
    requires Ok(s)
  {
    if s.y >= s.rows then s.rows - 1 else s.y
  }

  /** The cell at (ox, oy) is copied to (nx, ny); outside the screen nothing happens. */
  function MoveCell(s: Screen, nx: nat, ny: nat, ox: nat, oy: nat): (r: Screen)
    requires Ok(s)
    ensures Ok(r)
  {
    if ox < s.cols && oy < s.rows && nx < s.cols && ny < s.rows then
      AtInside(s.rows, s.cols, ox, oy);
      Plot(s, s.view[At(s.cols, ox, oy)], nx, ny)
    else s
  }

  /** The deferred wrap: a cursor past the right margin first goes to the next row. */
  function Wrap(s: Screen): (r: Screen)
    requires Ok(s)
    ensures Ok(r)
  {
    Sides(s);
    if s.x < s.cols || (s.y >= s.bottom - 1 && !s.scrollOn) then s else
    var y := (s.y + 1) % TWO64;
    var s1 := if y == s.bottom then Scroll(s.(x := 0, y := y - 1)) else s.(x := 0, y := y);
    if s1.y >= s.cols then s1.(y := s.cols - 1) else s1
  }

  function RawPut(s: Screen, c: Byte): (r: Screen)
    requires Ok(s)
    ensures Ok(r)
  {
    var w := Wrap(s);
    Plot(w, Cell(c, w.fg, w.bg), w.x, w.y).(x := (w.x + 1) % TWO64)
  }

  // ----- runs -----

  datatype Op = Put(c: Byte) | ScrollUp | ScrollDown | ClearAll(move: bool) | GoTo(x: Word, y: Word)
              | Copy(nx: nat, ny: nat, ox: nat, oy: nat) | Colours(fg: Colour, bg: Colour)
              | Margins(top: nat, bottom: nat) | Scrolling(on: bool) | ShowCursor(on: bool) | Flush

  function Apply(s: Screen, op: Op): (r: Screen)
    requires Ok(s)
    ensures Ok(r)
  {
    match op
    case Put(c) => RawPut(s, c)
    case ScrollUp => Scroll(s)
    case ScrollDown => RevScroll(s)
    case ClearAll(move) => Clear(s, move)
    case GoTo(x, y) => SetCursor(s, x, y)
    case Copy(nx, ny, ox, oy) => MoveCell(s, nx, ny, ox, oy)
    case Colours(fg, bg) => s.(fg := fg, bg := bg)
    case Margins(t, b) => if t < b <= s.rows then s.(top := t, bottom := b) else s
    case Scrolling(on) => s.(scrollOn := on)
    case ShowCursor(_) => s
    case Flush => s
  }

  function ApplyAll(s: Screen, ops: seq<Op>): (r: Screen)
    requires Ok(s)
    ensures Ok(r)
  {
    if ops == [] then s else Apply(ApplyAll(s, ops[..|ops| - 1]), ops[|ops| - 1])
  }

  /** A list of different numbers below n has at most n elements. */
  lemma {:induction false} DistinctBelow(s: seq<nat>, n: nat)
    requires forall i, j :: 0 <= i < j < |s| ==> s[i] != s[j]
    requires forall i :: 0 <= i < |s| ==> s[i] < n
    ensures |s| <= n
  {
    if s != [] {
      assert s[0] < n;
      if k :| 0 <= k < |s| && s[k] == n - 1 {
        DistinctBelow(s[..k] + s[k + 1..], n - 1);
      } else {
        DistinctBelow(s, n - 1);
      }
    }
  }
}
