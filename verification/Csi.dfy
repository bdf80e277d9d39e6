/**
 * What the control sequences of src/flanterm/flanterm.c mean for the screen, in
 * terms of rows and margins instead of loops over cells.
 */
module Csi {
  import opened Words
  import opened Screen
  import S = Screen
  import opened Rows

  type Dword = w: nat | w < 0x1_0000_0000

  function B(c: char): Byte
    requires c < 256 as char
  {
    c as int
  }

  function Min(a: nat, b: nat): nat {
    if a < b then a else b
  }

  // ----- cursor movement -----

  /** Up n rows: from the top margin or below not past it, from above it not past the screen. */
  function UpRow(s: Screen, y: nat, n: nat): nat {
    var limit := if s.top <= y then s.top else 0;
    if limit + n <= y then y - n else limit
  }

  /** Down n rows, likewise; the row behind the bottom margin counts as inside and moves up. */
  function DownRow(s: Screen, y: nat, n: nat): nat
    requires Ok(s)
  {
    Min(y + n, if y <= s.bottom then s.bottom - 1 else s.rows - 1)
  }

  /** A one-based coordinate cut to the limit; `zero` is what 0 means. */
  function OneBased(v: nat, limit: nat, zero: nat): nat
    requires 0 < limit
  {
    if v == 0 then zero else Min(v - 1, limit - 1)
  }

  function MoveTo(s: Screen, x: nat, y: nat): (r: Screen)
    requires Ok(s) && x < s.cols && y < s.rows
    ensures Ok(r)
  {
    Sides(s);
    s.(x := x, y := y)
  }

  // ----- text on a row -----

  /** n blanks, as raw_putchar puts them. */
  function RawBlanks(s: Screen, n: nat): (r: Screen)
    requires Ok(s)
    ensures Ok(r) && r.rows == s.rows && r.cols == s.cols
  {
    if n == 0 then s else RawPut(RawBlanks(s, n - 1), 0x20)
  }

  /** Row y is blank from column a to column b - 1, the cursor is at (x, y). */
  function RowBlanked(s: Screen, a: nat, b: nat, x: Word, y: Word): (r: Screen)
    requires Ok(s) && a <= b <= s.cols && y < s.rows && a < s.cols
    ensures Ok(r)
  {
    AtInside(s.rows, s.cols, a, y);
    s.(view := Filled(s.view, At(s.cols, a, y), b - a, Space(s)), x := x, y := y)
  }

  /** The cells from (x, y) to the end of the row move left by n; blanks fill the gap. */
  function CharsDeleted(s: Screen, x: nat, y: nat, n: nat): (r: Screen)
    requires Ok(s) && y < s.rows && x < s.cols && x + n <= s.cols
    ensures Ok(r)
  {
    AtInside(s.rows, s.cols, x, y);
    s.(view := ShiftUp(s.view, At(s.cols, x, y), At(s.cols, x, y) + (s.cols - x), n, Space(s)))
  }

  /** The cells from (x, y) to the end of the row move right by n; the gap is blank.  A count of 0 blanks them all. */
  function CharsInserted(s: Screen, x: nat, y: nat, n: nat): (r: Screen)
    requires Ok(s) && y < s.rows && x < s.cols
    ensures Ok(r)
  {
    AtInside(s.rows, s.cols, x, y);
    s.(view := ShiftDown(s.view, At(s.cols, x, y), At(s.cols, x, y) + (s.cols - x), Gap(n, s.cols - x), Space(s)))
  }

  /** Only the row and the cursor differ, so further cursor movement does not matter. */
  lemma RowBlankedMoved(s: Screen, a: nat, b: nat, x: Word, y: Word, x0: Word, y0: Word)
    requires Ok(s) && a <= b <= s.cols && a < s.cols && y < s.rows && x < s.cols
    ensures RowBlanked(s.(x := x0, y := y), a, b, x, y) == RowBlanked(s, a, b, x, y)
    ensures Ok(RowBlanked(s, a, b, x0, y)) && SetCursor(RowBlanked(s, a, b, x0, y), x, y) == RowBlanked(s, a, b, x, y)
    ensures SetCursor(s, x, y) == s.(x := x, y := y)
  {
    hide S.At, Filled;
    AtInside(s.rows, s.cols, a, y);
  }

  lemma PutInRow(s: Screen)
    requires Ok(s) && s.y < s.rows && s.x < s.cols
    ensures s.x + 1 < TWO64 && S.At(s.cols, s.x, s.y) < |s.view|
    ensures RawPut(s, 0x20) == s.(view := s.view[S.At(s.cols, s.x, s.y) := Space(s)], x := s.x + 1)
  {
    hide S.At;
    Sides(s);
    AtInside(s.rows, s.cols, s.x, s.y);
  }

  /** Blanks that fit on the row do not wrap. */
  lemma {:induction false} BlanksInRow(s: Screen, n: nat)
    requires Ok(s) && s.y < s.rows && s.x < s.cols && s.x + n <= s.cols
    ensures s.x + n < TWO64 && RawBlanks(s, n) == RowBlanked(s, s.x, s.x + n, s.x + n, s.y)
  {
    hide S.At, Filled, RawPut;
    Sides(s);
    AtInside(s.rows, s.cols, s.x, s.y);
    if n > 0 {
      BlanksInRow(s, n - 1);
      PutInRow(RawBlanks(s, n - 1));
      AtNext(s.cols, s.x, n - 1, s.y);
      FillStep(s.view, S.At(s.cols, s.x, s.y), n - 1, Space(s));
    } else {
      FillNothing(s.view, S.At(s.cols, s.x, s.y), Space(s));
    }
  }

  /** The three forms of CSI K. */
  lemma ErasedRow(s: Screen, x: Word, y: Word)
    requires Ok(s) && x < s.cols < TWO64 && y < s.rows
    ensures s.x == x && s.y == y ==> SetCursor(RawBlanks(s, s.cols - x), x, y) == RowBlanked(s, x, s.cols, x, y)
    ensures RawBlanks(SetCursor(s, 0, y), x) == RowBlanked(s, 0, x, x, y)
    ensures SetCursor(RawBlanks(SetCursor(s, 0, y), s.cols), x, y) == RowBlanked(s, 0, s.cols, x, y)
  {
    hide RawBlanks, RowBlanked, SetCursor;
    var s0 := s.(x := 0, y := y);
    RowBlankedMoved(s, 0, 0, 0, y, 0, y);
    BlanksInRow(s0, x);
    RowBlankedMoved(s, 0, x, x, y, 0, y);
    BlanksInRow(s0, s.cols);
    RowBlankedMoved(s0, 0, s.cols, x, y, s.cols, y);
    RowBlankedMoved(s, 0, s.cols, x, y, 0, y);
    if s.x == x && s.y == y {
      BlanksInRow(s, s.cols - x);
      RowBlankedMoved(s, x, s.cols, x, y, s.cols, y);
    }
  }

  // ----- when CSI K works -----

  /** The code of CSI 0 K: blanks from the cursor on, then the cursor goes back to where it was reported. */
  function BlanksToEnd(s: Screen): (r: Screen)
    requires Ok(s)
    ensures Ok(r)
  {
    Sides(s);
    SetCursor(RawBlanks(s, s.cols - GetX(s)), GetX(s), GetY(s))
  }

  /** Whatever is on the screen, CSI 0 K blanks the reported cell and the rest of its row, and no other cell. */
  ghost predicate ErasesToEnd(s: Screen)
    requires Ok(s)
  {
    forall v: seq<Cell> :: |v| == |s.view| ==> BlanksToEnd(s.(view := v)).view == RowBlanked(s.(view := v), GetX(s), s.cols, GetX(s), GetY(s)).view
  }

  /** A wrap is pending, or the cursor is below the last row. */
  predicate CursorOff(s: Screen) {
    s.x >= s.cols || s.y >= s.rows
  }

  /** The one screen shape on which CSI 0 K works all the same: the wrap leads back to the reported cell. */
  predicate WrapsOnItself(s: Screen) {
    s.cols == 1 && s.x >= 1 && s.y == 0 && 1 < s.bottom
  }

  /** CSI 0 K does what it is for if and only if the cursor is on the screen. */
  lemma ErasesExactlyOnScreen(s: Screen)
    requires Ok(s) && !s.scrollOn
    ensures ErasesToEnd(s) <==> !CursorOff(s) || WrapsOnItself(s)
  {
    hide ErasesToEnd;
    if !CursorOff(s) {
      ErasesOnScreen(s);
    } else if WrapsOnItself(s) {
      ErasesItself(s);
    } else {
      ErasesNotOff(s);
    }
  }

  lemma ErasesOnScreen(s: Screen)
    requires Ok(s) && !CursorOff(s)
    ensures ErasesToEnd(s)
  {
    hide S.At, Filled, RawBlanks, RowBlanked, BlanksToEnd;
    Sides(s);
    forall v: seq<Cell> | |v| == |s.view| ensures BlanksToEnd(s.(view := v)) == RowBlanked(s.(view := v), s.x, s.cols, s.x, s.y) {
      BlanksOnScreen(s.(view := v));
    }
  }

  lemma BlanksOnScreen(s: Screen)
    requires Ok(s) && !CursorOff(s)
    ensures BlanksToEnd(s) == RowBlanked(s, s.x, s.cols, s.x, s.y)
  {
    hide S.At, Filled, RawBlanks, RowBlanked;
    Sides(s);
    ErasedRow(s, s.x, s.y);
  }

  lemma ErasesItself(s: Screen)
    requires Ok(s) && !s.scrollOn && WrapsOnItself(s)
    ensures ErasesToEnd(s)
  {
    hide S.At, Filled, RawBlanks, RowBlanked, BlanksToEnd;
    Sides(s);
    forall v: seq<Cell> | |v| == |s.view| ensures BlanksToEnd(s.(view := v)).view == RowBlanked(s.(view := v), 0, 1, 0, 0).view {
      WrapOnItself(s.(view := v));
    }
  }

  lemma ErasesNotOff(s: Screen)
    requires Ok(s) && !s.scrollOn && CursorOff(s) && !WrapsOnItself(s)
    ensures !ErasesToEnd(s)
  {
    hide S.At, Filled, RawBlanks, RowBlanked, BlanksToEnd;
    var t := s.(view := Blanks(s.rows * s.cols, Cell(0x21, s.fg, s.bg)));
    ReportedCellStays(t);
    ReportedCellBlank(t);
  }

  /** Otherwise the reported cell, with which the blanks should begin, is not erased. */
  lemma ReportedCellStays(s: Screen)
    requires Ok(s) && !s.scrollOn && CursorOff(s) && !WrapsOnItself(s)
    ensures S.At(s.cols, GetX(s), GetY(s)) < |s.view|
    ensures BlanksToEnd(s).view[S.At(s.cols, GetX(s), GetY(s))] == s.view[S.At(s.cols, GetX(s), GetY(s))]
  {
    hide RawBlanks, S.At, RawPut;
    Sides(s);
    AtInside(s.rows, s.cols, GetX(s), GetY(s));
    CursorKeepsView(RawBlanks(s, s.cols - GetX(s)), GetX(s), GetY(s));
    if s.y >= s.rows {
      BlanksBelowScreen(s, s.cols - GetX(s));
    } else {
      OneBlank(s);
      BlankBehindWrap(s);
    }
  }

  lemma BlankBehindWrap(s: Screen)
    requires Ok(s) && !s.scrollOn && s.x >= s.cols && s.y < s.rows && !WrapsOnItself(s)
    ensures S.At(s.cols, s.cols - 1, s.y) < |s.view|
    ensures RawPut(s, 0x20).view[S.At(s.cols, s.cols - 1, s.y)] == s.view[S.At(s.cols, s.cols - 1, s.y)]
  {
    hide S.At, Wrap;
    AtInside(s.rows, s.cols, s.cols - 1, s.y);
    var w := WrapLeaves(s);
    if w.x < s.cols && w.y < s.rows { AtInside(s.rows, s.cols, w.x, w.y); }
  }

  /** A pending wrap never leads to the last cell of the row it leaves. */
  lemma WrapLeaves(s: Screen) returns (w: Screen)
    requires Ok(s) && !s.scrollOn && s.x >= s.cols && s.y < s.rows && !WrapsOnItself(s)
    ensures w == Wrap(s) && w == s.(x := w.x, y := w.y)
    ensures !(w.x == s.cols - 1 && w.y == s.y)
  {
    hide S.At, S.Scroll;
    w := Wrap(s);
  }

  lemma ReportedCellBlank(s: Screen)
    requires Ok(s) && S.At(s.cols, GetX(s), GetY(s)) < |s.view|
    ensures RowBlanked(s, GetX(s), s.cols, GetX(s), GetY(s)).view[S.At(s.cols, GetX(s), GetY(s))] == Space(s)
  {
    hide S.At;
    AtInside(s.rows, s.cols, GetX(s), GetY(s));
  }

  lemma OneBlank(s: Screen)
    requires Ok(s)
    ensures RawBlanks(s, 1) == RawPut(s, 0x20)
  {
    hide RawPut;
    assert RawBlanks(s, 0) == s;
  }

  /** Below the last row nothing is written and no wrap happens. */
  lemma {:induction false} BlanksBelowScreen(s: Screen, n: nat)
    requires Ok(s) && !s.scrollOn && s.y >= s.rows
    ensures var r := RawBlanks(s, n); r.view == s.view && r.y == s.y && r == s.(x := r.x)
  {
    hide S.At;
    if n > 0 { BlanksBelowScreen(s, n - 1); }
  }

  lemma WrapOnItself(s: Screen)
    requires Ok(s) && !s.scrollOn && WrapsOnItself(s)
    ensures BlanksToEnd(s).view == RowBlanked(s, 0, 1, 0, 0).view
  {
    Sides(s);
    OneBlank(s);
    CursorKeepsView(RawBlanks(s, 1), GetX(s), GetY(s));
    PutInRow(s.(x := 0, y := 0));
  }

  /**
   * Otherwise it erases one cell, the first of the row the wrap leads to, if the
   * cursor is above the bottom-margin row; from that row down it erases nothing.
   */
  lemma ErasedOffScreen(s: Screen)
    requires Ok(s) && !s.scrollOn && CursorOff(s)
    ensures var at := S.At(s.cols, 0, Min(s.y + 1, s.cols - 1));
            if s.y + 1 < s.bottom then at < |s.view| && BlanksToEnd(s).view == s.view[at := Space(s)]
            else BlanksToEnd(s).view == s.view
  {
    hide S.At, SetCursor, RawPut, RawBlanks;
    Sides(s);
    CursorKeepsView(RawBlanks(s, s.cols - GetX(s)), GetX(s), GetY(s));
    if s.y >= s.rows {
      BlanksBelowScreen(s, s.cols - GetX(s));
    } else {
      OneBlank(s);
      PutPending(s);
    }
  }

  lemma PutPending(s: Screen)
    requires Ok(s) && !s.scrollOn && s.x >= s.cols && s.y < s.rows
    ensures var at := S.At(s.cols, 0, Min(s.y + 1, s.cols - 1));
            if s.y + 1 < s.bottom then at < |s.view| && RawPut(s, 0x20).view == s.view[at := Space(s)]
            else RawPut(s, 0x20).view == s.view
  {
    hide S.At, Wrap;
    WrapPending(s);
    if s.y + 1 < s.bottom { AtInside(s.rows, s.cols, 0, Min(s.y + 1, s.cols - 1)); }
  }

  lemma WrapPending(s: Screen)
    requires Ok(s) && !s.scrollOn && s.x >= s.cols && s.y < s.rows
    ensures s.y + 1 < TWO64 && Wrap(s) == if s.y + 1 < s.bottom then s.(x := 0, y := Min(s.y + 1, s.cols - 1)) else s
  {
    hide S.At, S.Scroll, Ok;
    MarginsIn(s);
    if s.y + 1 < s.bottom { assert (s.y + 1) % TWO64 == s.y + 1; }
  }

  lemma MarginsIn(s: Screen)
    requires Ok(s)
    ensures 0 < s.bottom <= s.rows < TWO64 && 0 < s.cols < TWO64
  {
    Sides(s);
  }

  lemma PutWraps(s: Screen)
    requires Ok(s) && !s.scrollOn && s.x == s.cols && s.y + 1 < s.bottom && s.y + 1 < s.cols
    ensures s.y + 1 < TWO64 && RawPut(s, 0x20) == RawPut(s.(x := 0, y := s.y + 1), 0x20)
  {
    hide S.At, Wrap;
    Sides(s);
    WrapsTo(s);
  }

  lemma WrapsTo(s: Screen)
    requires Ok(s) && !s.scrollOn && s.x == s.cols && s.y + 1 < s.bottom && s.y + 1 < s.cols
    ensures s.y + 1 < TWO64 && Wrap(s) == s.(x := 0, y := s.y + 1) == Wrap(s.(x := 0, y := s.y + 1))
  {
    hide S.At, Wrap;
    Sides(s);
    WrapPending(s);
    NoWrap(s.(x := 0, y := s.y + 1));
  }

  lemma CursorKeepsView(s: Screen, x: Word, y: Word)
    requires Ok(s)
    ensures SetCursor(s, x, y).view == s.view
  {
  }

  lemma AtNext(cols: nat, x: nat, n: nat, y: nat)
    ensures S.At(cols, x + n, y) == S.At(cols, x, y) + n
  {
  }

  // ----- loops over the row -----

  /** One round of the loop of CSI @: the cell moves right by n and leaves a blank. */
  lemma InsertStep(v: seq<Cell>, lo: nat, hi: nat, n: nat, blank: Cell)
    requires lo < hi <= |v|
    ensures var k, k1 := Gap(n, hi - lo), Gap(n, hi - lo - 1);
            var v1 := ShiftDown(v, lo + 1, hi, k1, blank);
            var v2 := if lo + n < hi then v1[lo + n := v1[lo]] else v1;
            v2[lo := blank] == ShiftDown(v, lo, hi, k, blank)
  {
  }

  /** Width of the gap: the whole rest of the row for a count of 0. */
  function Gap(n: nat, room: nat): (k: nat)
    ensures k <= room
  {
    if n == 0 || n > room then room else n
  }

  /** The loop of CSI @ down to column a, wherever the cursor is. */
  function Opened(s: Screen, a: nat, y: nat, n: nat): (r: Screen)
    requires Ok(s) && y < s.rows && a <= s.cols
    ensures Ok(r)
  {
    if a == s.cols then s else CharsInserted(s, a, y, n)
  }

  lemma OpenedNothing(s: Screen, y: nat, n: nat)
    requires Ok(s) && y < s.rows
    ensures Opened(s, s.cols, y, n) == s
  {
  }

  lemma OpenedAll(s: Screen, a: nat, y: nat, n: nat, x0: Word, y0: Word)
    requires Ok(s) && y < s.rows && a < s.cols < TWO64 && y < TWO64
    ensures SetCursor(Opened(s, a, y, n).(x := x0, y := y0), a, y) == CharsInserted(s, a, y, n).(x := a, y := y)
  {
    hide At, ShiftDown;
  }

  /** One round: move_character, set_cursor_pos and raw_putchar. */
  lemma OpenedStep(s: Screen, i: nat, y: nat, n: nat, x0: Word, y0: Word)
    requires Ok(s) && y < s.rows && i < s.cols < TWO64 && y < TWO64
    ensures var t := Opened(s, i + 1, y, n).(x := x0, y := y0);
            var u := RawPut(SetCursor(MoveCell(t, i + n, y, i, y), i, y), 0x20);
            u == Opened(s, i, y, n).(x := u.x, y := u.y)
  {
    hide At, ShiftDown, RawPut;
    var t := Opened(s, i + 1, y, n).(x := x0, y := y0);
    AtInside(s.rows, s.cols, i, y);
    AtNext(s.cols, i, 1, y);
    AtNext(s.cols, i, n, y);
    var lo, hi, blank := At(s.cols, i, y), At(s.cols, i, y) + (s.cols - i), Space(s);
    ShiftNothing(s.view, hi, blank);
    InsertStep(s.view, lo, hi, n, blank);
    if i + n < s.cols { AtInside(s.rows, s.cols, i + n, y); }
    PutInRow(SetCursor(MoveCell(t, i + n, y, i, y), i, y));
  }

  lemma ShiftNothing(v: seq<Cell>, hi: nat, blank: Cell)
    requires hi <= |v|
    ensures ShiftDown(v, hi, hi, 0, blank) == v
  {
  }

  /** Insert mode: the cells from column a on have moved right by one; the last one is gone. */
  function Shoved(s: Screen, a: nat, y: nat): (r: Screen)
    requires Ok(s) && y < s.rows && a < s.cols
    ensures Ok(r)
  {
    AtInside(s.rows, s.cols, a, y);
    s.(view := MovedDown(s.view, At(s.cols, a, y), At(s.cols, a, y) + (s.cols - a), 1))
  }

  lemma ShovedNothing(s: Screen, y: nat)
    requires Ok(s) && y < s.rows
    ensures Shoved(s, s.cols - 1, y) == s
  {
    AtInside(s.rows, s.cols, s.cols - 1, y);
    MoveNothing(s.view, At(s.cols, s.cols - 1, y), At(s.cols, s.cols - 1, y) + 1, 1);
  }

  lemma ShovedStep(s: Screen, i: nat, y: nat)
    requires Ok(s) && y < s.rows && i < s.cols
    ensures MoveCell(Shoved(s, Min(i + 1, s.cols - 1), y), i + 1, y, i, y) == Shoved(s, i, y)
  {
    hide At, MovedDown;
    AtInside(s.rows, s.cols, i, y);
    ShovedNothing(s, y);
    if i + 1 < s.cols {
      AtInside(s.rows, s.cols, i + 1, y);
      AtNext(s.cols, i, 1, y);
      MoveDownStep(s.view, At(s.cols, i, y), At(s.cols, i, y) + (s.cols - i), 1);
    }
  }

  /** The loop of CSI P: columns below i have been copied n columns to the left. */
  function Pulled(s: Screen, x: nat, y: nat, n: nat, i: nat): (r: Screen)
    requires Ok(s) && y < s.rows && x + n <= i <= s.cols && x < s.cols
    ensures Ok(r)
  {
    AtInside(s.rows, s.cols, x, y);
    s.(view := MovedUp(s.view, At(s.cols, x, y), At(s.cols, x, y) + (i - x), n))
  }

  lemma PulledNothing(s: Screen, x: nat, y: nat, n: nat)
    requires Ok(s) && y < s.rows && x + n <= s.cols && x < s.cols
    ensures Pulled(s, x, y, n, x + n) == s
  {
    AtInside(s.rows, s.cols, x, y);
    MoveNothing(s.view, At(s.cols, x, y), At(s.cols, x, y) + n, n);
  }

  lemma PulledStep(s: Screen, x: nat, y: nat, n: nat, i: nat)
    requires Ok(s) && y < s.rows && x + n <= i < s.cols
    ensures Ok(Pulled(s, x, y, n, i)) && MoveCell(Pulled(s, x, y, n, i), i - n, y, i, y) == Pulled(s, x, y, n, i + 1)
  {
    hide At, MovedUp;
    AtInside(s.rows, s.cols, x, y);
    AtInside(s.rows, s.cols, i, y);
    AtInside(s.rows, s.cols, i - n, y);
    AtNext(s.cols, x, i - x, y);
    AtNext(s.cols, i - n, n, y);
    MoveUpStep(s.view, At(s.cols, x, y), At(s.cols, i, y), n);
  }

  /** After the copying, the n cells at the end of the row are blanked. */
  lemma PulledAll(s: Screen, x: nat, y: nat, n: Dword)
    requires Ok(s) && y < s.rows && x + n <= s.cols && x < s.cols < TWO64 && y < TWO64
    ensures CharsErased(SetCursor(Pulled(s, x, y, n, s.cols), (s.cols - n) % TWO64, y), n, x, y) == CharsDeleted(s, x, y, n).(x := x, y := y)
  {
    hide Pulled, CharsDeleted, CharsErased, SetCursor;
    if n == 0 { PulledNone(s, x, y); } else { PulledSome(s, x, y, n); }
  }

  lemma PulledNone(s: Screen, x: nat, y: nat)
    requires Ok(s) && y < s.rows && x < s.cols < TWO64 && y < TWO64
    ensures CharsErased(SetCursor(Pulled(s, x, y, 0, s.cols), s.cols % TWO64, y), 0, x, y) == CharsDeleted(s, x, y, 0).(x := x, y := y)
  {
    hide Pulled, CharsDeleted, RawBlanks, SetCursor, S.At;
    var p := Pulled(s, x, y, 0, s.cols);
    PulledView(s, x, y, 0);
    BlanksNone(SetCursor(p, s.cols, y));
    CursorTwice(p, s.cols, y, x, y);
  }

  lemma PulledSome(s: Screen, x: nat, y: nat, n: Dword)
    requires Ok(s) && y < s.rows && 0 < n && x + n <= s.cols && x < s.cols < TWO64 && y < TWO64
    ensures CharsErased(SetCursor(Pulled(s, x, y, n, s.cols), (s.cols - n) % TWO64, y), n, x, y) == CharsDeleted(s, x, y, n).(x := x, y := y)
  {
    hide Pulled, CharsDeleted, RawBlanks, RowBlanked, SetCursor, S.At, Filled;
    var p := Pulled(s, x, y, n, s.cols);
    PulledView(s, x, y, n);
    var q := p.(x := s.cols - n, y := y);
    RowBlankedMoved(p, s.cols - n, s.cols, s.cols - n, y, s.x, s.y);
    BlanksInRow(q, n);
    RowBlankedMoved(q, s.cols - n, s.cols, x, y, s.cols, y);
    RowBlankedMoved(p, s.cols - n, s.cols, x, y, s.cols - n, y);
  }

  lemma CursorTwice(s: Screen, u: Word, v: Word, x: Word, y: Word)
    requires Ok(s) && x < s.cols && y < s.rows
    ensures SetCursor(SetCursor(s, u, v), x, y) == s.(x := x, y := y)
  {
  }

  lemma PulledView(s: Screen, x: nat, y: nat, n: nat)
    requires Ok(s) && y < s.rows && x + n <= s.cols && x < s.cols < TWO64
    ensures var p, d := Pulled(s, x, y, n, s.cols), CharsDeleted(s, x, y, n);
            && p.rows == s.rows && p.cols == s.cols && y < TWO64
            && if n == 0 then d == p else forall u: Word :: d.(x := u, y := y) == RowBlanked(p, s.cols - n, s.cols, u, y)
  {
    hide At, MovedUp, ShiftUp, Filled;
    Sides(s);
    AtInside(s.rows, s.cols, x, y);
    AtNext(s.cols, x, s.cols - n - x, y);
    var lo, p := At(s.cols, x, y), Pulled(s, x, y, n, s.cols);
    FillNothing(p.view, lo + (s.cols - x), Space(s));
    ShiftUpDone(s.view, lo, lo + (s.cols - x), n, Space(s));
  }

  lemma BlanksNone(s: Screen)
    requires Ok(s)
    ensures RawBlanks(s, 0) == s
  {
  }

  // ----- the effect of a control sequence -----

  function Scrolled(s: Screen, n: nat): (r: Screen)
    requires Ok(s)
    ensures Ok(r)
  {
    if n == 0 then s else Scroll(Scrolled(s, n - 1))
  }

  function RevScrolled(s: Screen, from: nat, n: nat): (r: Screen)
    requires Ok(s) && from < s.rows
    ensures Ok(r) && r.rows == s.rows
  {
    if n == 0 then s else RevScrollFrom(RevScrolled(s, from, n - 1), from)
  }

  /** The number of cells of so many rows. */
  function Cells(rows: nat, cols: nat): nat {
    rows * cols
  }

  /** CSI J */
  function DisplayErased(s: Screen, n: Dword): (r: Screen)
    requires Ok(s)
    ensures Ok(r)
  {
    Sides(s);
    var x, y := GetX(s), GetY(s);
    if n == 0 then SetCursor(RawBlanks(s, Cells(s.rows - 1 - y, s.cols) + (s.cols - x)), x, y)
    else if n == 1 then SetCursor(RawBlanks(SetCursor(s, 0, 0), Cells(y, s.cols) + x + 1), x, y)
    else if n <= 3 then Clear(s, false) else s
  }

  /** CSI K */
  function LineErased(s: Screen, n: Dword): (r: Screen)
    requires Ok(s)
    ensures Ok(r)
  {
    Sides(s);
    var x, y := GetX(s), GetY(s);
    if n == 0 then
      (if CursorOff(s) then BlanksToEnd(s) else RowBlanked(s, x, s.cols, x, y))
    else if n == 1 then RowBlanked(s, 0, x, x, y)
    else if n == 2 then RowBlanked(s, 0, s.cols, x, y) else s
  }

  /** In either case CSI 0 K is what its code does. */
  lemma LineErasedIs(s: Screen)
    requires Ok(s)
    ensures LineErased(s, 0) == BlanksToEnd(s)
  {
    if !CursorOff(s) { BlanksOnScreen(s); }
  }

  /** CSI X, also the second half of CSI P */
  function CharsErased(s: Screen, n: Dword, x: Word, y: Word): (r: Screen)
    requires Ok(s)
    ensures Ok(r)
  {
    SetCursor(RawBlanks(s, Min(n, s.cols)), x, y)
  }

  /** CSI r */
  function Region(s: Screen, n0: Dword, n1: Dword, count: nat): (r: Screen)
    requires Ok(s)
    ensures Ok(r)
  {
    var t := if count > 0 && n0 > 0 then n0 - 1 else 0;
    var b := if count > 1 then (if n1 == 0 then 1 else n1) else s.rows;
    var ok := t < s.rows && b <= s.rows && t + 1 < b;
    s.(top := if ok then t else 0, bottom := if ok then b else s.rows, x := 0, y := 0)
  }

  predicate IsMove(c: Byte) {
    B('A') <= c <= B('H') || c == B('`') || c == B('a') || B('d') <= c <= B('f') || c == B('r') || c == B('u')
  }

  predicate IsEdit(c: Byte) {
    B('J') <= c <= B('M') || c == B('@') || c == B('P') || c == B('X')
  }

  /** Final bytes that control_sequence_parse knows; those beyond the first two kinds leave the cells alone. */
  predicate IsKnown(c: Byte) {
    IsMove(c) || IsEdit(c) || c == B(']') || c == B('c') || c == B('h') || B('l') <= c <= B('n') || c == B('q') || c == B('s')
  }

  /**
   * The sequences that move the cursor or set the margins; n0 and n1 are the first
   * two parameters, `count` says how many were given, and (u, v) was saved by CSI s.
   */
  function Moved(s: Screen, c: Byte, n0: Dword, n1: Dword, count: nat, u: Word, v: Word): (r: Screen)
    requires Ok(s) && IsMove(c)
    ensures Ok(r)
  {
    Sides(s);
    var x, y := GetX(s), GetY(s);
    match c as char
    case 'A' => MoveTo(s, x, UpRow(s, y, n0))
    case 'F' => MoveTo(s, 0, UpRow(s, y, n0))
    case 'B' => MoveTo(s, x, DownRow(s, y, n0))
    case 'e' => MoveTo(s, x, DownRow(s, y, n0))
    case 'E' => MoveTo(s, 0, DownRow(s, y, n0))
    case 'C' => MoveTo(s, Min(x + n0, s.cols - 1), y)
    case 'a' => MoveTo(s, Min(x + n0, s.cols - 1), y)
    case 'D' => MoveTo(s, x - Min(n0, x), y)
    case 'd' => MoveTo(s, x, OneBased(n0, s.rows, Min(0xFFFF_FFFF, s.rows - 1)))
    case 'G' => MoveTo(s, OneBased(n0, s.cols, Min(0xFFFF_FFFF, s.cols - 1)), y)
    case '`' => MoveTo(s, OneBased(n0, s.cols, Min(0xFFFF_FFFF, s.cols - 1)), y)
    case 'H' => MoveTo(s, OneBased(n1, s.cols, 0), OneBased(n0, s.rows, 0))
    case 'f' => MoveTo(s, OneBased(n1, s.cols, 0), OneBased(n0, s.rows, 0))
    case 'u' => SetCursor(s, u, v)
    case _ => Region(s, n0, n1, count)
  }

  /** The sequences that change cells. */
  function Edited(s: Screen, c: Byte, n: Dword): (r: Screen)
    requires Ok(s) && IsEdit(c)
    ensures Ok(r)
  {
    Sides(s);
    var x, y := GetX(s), GetY(s);
    match c as char
    case 'M' => Scrolled(s, Min(n, s.rows))
    case 'L' => RevScrolled(s, y, Min(n, s.rows))
    case 'J' => DisplayErased(s, n)
    case '@' => CharsInserted(s, x, y, n).(x := x, y := y)
    case 'P' => if x + n <= s.cols then CharsDeleted(s, x, y, n).(x := x, y := y)
                else CharsErased(SetCursor(s, (s.cols - n) % TWO64, y), n, x, y)
    case 'X' => CharsErased(s, n, x, y)
    case _ => LineErased(s, n)
  }

  /** The screen after a control sequence; CSI m only changes the colours of later text and is left out. */
  function Effect(s: Screen, c: Byte, n0: Dword, n1: Dword, count: nat, u: Word, v: Word): (r: Screen)
    requires Ok(s)
    ensures Ok(r)
  {
    if IsMove(c) then Moved(s, c, n0, n1, count, u, v) else if IsEdit(c) then Edited(s, c, n0) else s
  }

  // ----- what CSI B, J and X do -----

  /** CSI B, e and E move the cursor down or not at all, unless it is on the row behind the bottom margin. */
  lemma DownMeansDown(s: Screen, c: Byte, n0: Dword, n1: Dword, count: nat, u: Word, v: Word)
    requires Ok(s) && c in {B('B'), B('E'), B('e')}
    ensures Moved(s, c, n0, n1, count, u, v).y >= GetY(s) <==> GetY(s) != s.bottom
    ensures GetY(s) == s.bottom ==> Moved(s, c, n0, n1, count, u, v).y == GetY(s) - 1
  {
    Sides(s);
  }

  /** CSI 1;2r and CSI 3H lead there, and CSI B moves up however far down it is to go. */
  lemma DownMovesUp(s: Screen, n0: Dword, n1: Dword, count: nat, u: Word, v: Word)
    requires Ok(s) && 3 <= s.rows
    ensures var t := Moved(Moved(s, B('r'), 1, 2, 2, u, v), B('H'), 3, 1, 2, u, v);
            t.y == t.bottom == 2 && Moved(t, B('B'), n0, n1, count, u, v).y == 1
  {
    Sides(s);
  }

  // ----- which cells a number of blanks fills -----

  /** Blanks never lead below the bottom margin, nor, by the test in the wrap, to a row as high as the number of columns. */
  function Limit(s: Screen): (lim: nat)
    requires Ok(s)
    ensures 0 < lim <= s.rows
  {
    Min(s.bottom, s.cols)
  }

  /**
   * The view v after n more blanks at column x >= cols of row s.y: they go on in the
   * row the wrap leads to, or get lost until the column number wraps around in 64 bits.
   */
  function Spilled(s: Screen, v: seq<Cell>, x: nat, n: nat): (r: seq<Cell>)
    requires Ok(s) && |v| == |s.view| && s.y < s.rows
    ensures |r| == |v|
  {
    RowsInView(s);
    if s.y + 1 < s.bottom then
      Filled(v, Cells(Landing(s), s.cols), Min(n, Cells(Limit(s) - Landing(s), s.cols)), Space(s))
    else
      Filled(v, Cells(s.y, s.cols), Min(s.cols, if x + n > TWO64 then x + n - TWO64 else 0), Space(s))
  }

  /** The row a pending wrap leads to. */
  function Landing(s: Screen): (y: nat)
    requires Ok(s)
    ensures s.y + 1 < s.bottom ==> y < Limit(s)
  {
    Min(s.y + 1, s.cols - 1)
  }

  lemma RowsInView(s: Screen)
    requires Ok(s) && s.y < s.rows
    ensures Cells(Limit(s), s.cols) <= |s.view| && Cells(s.y, s.cols) + s.cols <= |s.view|
    ensures s.y + 1 < s.bottom ==> Cells(Landing(s), s.cols) + Cells(Limit(s) - Landing(s), s.cols) == Cells(Limit(s), s.cols)
  {
    MulMono(Limit(s), s.rows, s.cols);
    AtInside(s.rows, s.cols, 0, s.y);
    if s.y + 1 < s.bottom { Distribute(Landing(s), Limit(s), s.cols); }
  }

  lemma Distribute(a: nat, b: nat, c: nat)
    requires a <= b
    ensures Cells(a, c) + Cells(b - a, c) == Cells(b, c)
  {
  }

  /** The view after n blanks at the cursor: its row first, then what spills. */
  function BlanksView(s: Screen, n: nat): (r: seq<Cell>)
    requires Ok(s)
    ensures |r| == |s.view|
  {
    if s.y >= s.rows then s.view
    else if s.x >= s.cols then Spilled(s, s.view, s.x, n)
    else
      AtInside(s.rows, s.cols, s.x, s.y);
      var k := Min(n, s.cols - s.x);
      Spilled(s, Filled(s.view, S.At(s.cols, s.x, s.y), k, Space(s)), s.x + k, n - k)
  }

  /** Blanks above the limit run over the rows in order. */
  lemma {:induction false} BlanksRunOn(s: Screen, n: nat)
    requires Ok(s) && !s.scrollOn && s.x <= s.cols && s.y < Limit(s)
    requires S.At(s.cols, s.x, s.y) + n <= Limit(s) * s.cols <= |s.view|
    ensures var r := RawBlanks(s, n);
            && r.view == Filled(s.view, S.At(s.cols, s.x, s.y), n, Space(s)) && r == s.(view := r.view, x := r.x, y := r.y)
            && r.y < Limit(s) && r.x <= s.cols && S.At(s.cols, r.x, r.y) == S.At(s.cols, s.x, s.y) + n
  {
    hide S.At, Filled, RawPut;
    if n == 0 {
      FillNothing(s.view, S.At(s.cols, s.x, s.y), Space(s));
    } else {
      BlanksRunOn(s, n - 1);
      PutRunsOn(RawBlanks(s, n - 1));
      FillStep(s.view, S.At(s.cols, s.x, s.y), n - 1, Space(s));
    }
  }

  lemma PutRunsOn(s: Screen)
    requires Ok(s) && !s.scrollOn && s.x <= s.cols && s.y < Limit(s)
    requires S.At(s.cols, s.x, s.y) < Limit(s) * s.cols <= |s.view|
    ensures var r := RawPut(s, 0x20);
            && r == s.(view := s.view[S.At(s.cols, s.x, s.y) := Space(s)], x := r.x, y := r.y)
            && r.y < Limit(s) && r.x <= s.cols && S.At(s.cols, r.x, r.y) == S.At(s.cols, s.x, s.y) + 1
  {
    hide S.At, RawPut;
    Sides(s);
    var w := s;
    if s.x == s.cols {
      RowEnds(Limit(s), s.cols, s.x, s.y);
      w := s.(x := 0, y := s.y + 1);
      PutWraps(s);
    }
    PutInRow(w);
    AtNext(s.cols, w.x, 1, w.y);
  }

  /** Behind the last cell of a row comes the first one of the next row, or the end. */
  lemma RowEnds(rows: nat, cols: nat, x: nat, y: nat)
    requires x <= cols && y < rows
    ensures S.At(cols, cols, y) == S.At(cols, 0, y + 1)
    ensures y + 1 == rows ==> S.At(cols, x, y) + (cols - x) == rows * cols
    ensures y + 1 < rows ==> S.At(cols, x, y) + cols <= rows * cols
  {
    assert (y + 1) * cols == y * cols + cols;
    if y + 1 < rows {
      MulMono(y + 2, rows, cols);
      assert (y + 2) * cols == y * cols + cols + cols;
    }
  }

  /** The last row that blanks can reach is blank. */
  ghost predicate LastRowBlank(s: Screen)
    requires Ok(s)
  {
    s.y + 1 == Limit(s) && forall x: nat :: x < s.cols && S.At(s.cols, x, s.y) < |s.view| ==> s.view[S.At(s.cols, x, s.y)] == Space(s)
  }

  /** There the cursor stays, and further blanks change nothing. */
  lemma {:induction false} BlanksStay(s: Screen, n: nat)
    requires Ok(s) && !s.scrollOn && LastRowBlank(s)
    ensures var r := RawBlanks(s, n); r == s.(x := r.x)
  {
    hide RawPut, LastRowBlank;
    if n > 0 {
      BlanksStay(s, n - 1);
      StayMoved(s, RawBlanks(s, n - 1).x);
      PutStays(RawBlanks(s, n - 1));
    }
  }

  lemma StayMoved(s: Screen, x: Word)
    requires Ok(s) && LastRowBlank(s)
    ensures LastRowBlank(s.(x := x))
  {
  }

  lemma PutStays(s: Screen)
    requires Ok(s) && !s.scrollOn && LastRowBlank(s)
    ensures var r := RawPut(s, 0x20); r == s.(x := r.x)
  {
    hide S.At, Wrap;
    if s.x >= s.cols { WrapPending(s); } else { NoWrap(s); }
    var w := Wrap(s);
    if w.x < s.cols {
      AtInside(s.rows, s.cols, w.x, w.y);
      assert s.view[S.At(s.cols, w.x, w.y) := Space(s)] == s.view;
    }
  }

  lemma NoWrap(s: Screen)
    requires Ok(s) && s.x < s.cols
    ensures Wrap(s) == s
  {
    hide S.At, S.Scroll;
  }

  /** Any number of blanks from the beginning of a row above the limit. */
  lemma BlanksFromRow(s: Screen, n: nat)
    requires Ok(s) && !s.scrollOn && s.x == 0 && s.y < Limit(s)
    ensures Cells(s.y, s.cols) + Cells(Limit(s) - s.y, s.cols) == Cells(Limit(s), s.cols) <= |s.view|
    ensures RawBlanks(s, n).view == Filled(s.view, Cells(s.y, s.cols), Min(n, Cells(Limit(s) - s.y, s.cols)), Space(s))
  {
    hide Filled, RawBlanks, Cells;
    RowsInView(s);
    Distribute(s.y, Limit(s), s.cols);
    var room := Cells(Limit(s) - s.y, s.cols);
    if n <= room {
      BlanksFit(s, n);
    } else {
      BlanksFit(s, room);
      BlanksInTwo(s, room, n - room);
      FilledUp(s, room);
      BlanksStay(RawBlanks(s, room), n - room);
    }
  }

  lemma BlanksFit(s: Screen, n: nat)
    requires Ok(s) && !s.scrollOn && s.x == 0 && s.y < Limit(s) && Cells(s.y, s.cols) + n <= Cells(Limit(s), s.cols) <= |s.view|
    ensures var r := RawBlanks(s, n);
            && r.view == Filled(s.view, Cells(s.y, s.cols), n, Space(s)) && r == s.(view := r.view, x := r.x, y := r.y)
            && r.y < Limit(s) && r.x <= s.cols && S.At(s.cols, r.x, r.y) == Cells(s.y, s.cols) + n
  {
    hide Filled, RawBlanks;
    BlanksRunOn(s, n);
  }

  lemma FilledUp(s: Screen, room: nat)
    requires Ok(s) && s.x == 0 && s.y < Limit(s) && Cells(s.y, s.cols) + room == Cells(Limit(s), s.cols) <= |s.view|
    requires var r := RawBlanks(s, room);
             && r.view == Filled(s.view, Cells(s.y, s.cols), room, Space(s)) && r == s.(view := r.view, x := r.x, y := r.y)
             && r.y < Limit(s) && r.x <= s.cols && S.At(s.cols, r.x, r.y) == Cells(Limit(s), s.cols)
    ensures LastRowBlank(RawBlanks(s, room))
  {
    hide S.At, RawBlanks;
    var r := RawBlanks(s, room);
    RowEnds(Limit(s), s.cols, r.x, r.y);
    forall x: nat | x < s.cols && S.At(s.cols, x, r.y) < |s.view| ensures r.view[S.At(s.cols, x, r.y)] == Space(s) {
      AtInside(Limit(s), s.cols, x, r.y);
      MulMono(s.y, r.y, s.cols);
    }
  }

  lemma {:induction false} BlanksInTwo(s: Screen, n: nat, k: nat)
    requires Ok(s)
    ensures RawBlanks(s, n + k) == RawBlanks(RawBlanks(s, n), k)
  {
    hide RawPut;
    if k > 0 { BlanksInTwo(s, n, k - 1); }
  }

  /** From the bottom margin on, blanks past the right margin are lost, up to the largest column number. */
  lemma {:induction false} BlanksLost(s: Screen, n: nat)
    requires Ok(s) && !s.scrollOn && s.bottom <= s.y + 1 && s.cols <= s.x && s.x + n <= TWO64
    ensures RawBlanks(s, n) == s.(x := if s.x + n < TWO64 then s.x + n else 0)
  {
    hide RawPut;
    if n > 0 {
      BlanksLost(s, n - 1);
      PutLost(s.(x := s.x + (n - 1)));
    }
  }

  lemma PutLost(s: Screen)
    requires Ok(s) && !s.scrollOn && s.bottom <= s.y + 1 && s.cols <= s.x
    ensures RawPut(s, 0x20) == s.(x := if s.x + 1 < TWO64 then s.x + 1 else 0)
  {
    hide S.At, S.Scroll;
  }

  /** A pending wrap above the bottom margin is made up for by the first blank. */
  lemma {:induction false} BlanksWrap(s: Screen, n: nat)
    requires Ok(s) && !s.scrollOn && s.cols <= s.x && s.y + 1 < s.bottom && 0 < n
    ensures Landing(s) < TWO64 && RawBlanks(s, n) == RawBlanks(s.(x := 0, y := Landing(s)), n)
  {
    hide RawPut;
    Sides(s);
    if n == 1 {
      OneBlank(s);
      OneBlank(s.(x := 0, y := Landing(s)));
      PutLands(s);
    } else {
      BlanksWrap(s, n - 1);
    }
  }

  lemma PutLands(s: Screen)
    requires Ok(s) && !s.scrollOn && s.cols <= s.x && s.y + 1 < s.bottom
    ensures Landing(s) < TWO64 && RawPut(s, 0x20) == RawPut(s.(x := 0, y := Landing(s)), 0x20)
  {
    hide S.At, Wrap;
    Sides(s);
    WrapPending(s);
    NoWrap(s.(x := 0, y := Landing(s)));
  }

  lemma BlanksSpill(s: Screen, n: nat)
    requires Ok(s) && !s.scrollOn && s.cols <= s.x && s.y < s.rows && n < TWO64
    ensures RawBlanks(s, n).view == Spilled(s, s.view, s.x, n)
  {
    hide Filled, RawBlanks, S.At, Cells;
    Sides(s);
    RowsInView(s);
    FillNothing(s.view, Cells(s.y, s.cols), Space(s));
    if s.y + 1 < s.bottom {
      if n == 0 {
        BlanksNone(s);
        FillNothing(s.view, Cells(Landing(s), s.cols), Space(s));
      } else {
        BlanksWrap(s, n);
        BlanksFromRow(s.(x := 0, y := Landing(s)), n);
      }
    } else if s.x + n <= TWO64 {
      BlanksLost(s, n);
    } else {
      BlanksCome(s, n);
    }
  }

  /** The column number wraps around: then the row is filled from its beginning. */
  lemma BlanksCome(s: Screen, n: nat)
    requires Ok(s) && !s.scrollOn && s.cols <= s.x && s.y < s.rows && s.bottom <= s.y + 1 && TWO64 < s.x + n && n < TWO64
    ensures Cells(s.y, s.cols) + s.cols <= |s.view|
    ensures RawBlanks(s, n).view == Filled(s.view, Cells(s.y, s.cols), Min(s.cols, s.x + n - TWO64), Space(s))
  {
    hide Filled, RawBlanks;
    RowsInView(s);
    var m := s.x + n - TWO64;
    var k := Min(s.cols, m);
    var t := s.(x := 0);
    BlanksLost(s, TWO64 - s.x);
    BlanksInTwo(s, TWO64 - s.x, m);
    BlanksInRow(t, k);
    if k < m {
      BlanksInTwo(t, k, m - k);
      BlanksLost(RawBlanks(t, k), m - k);
    }
  }

  /** The whole truth about n blanks. */
  lemma BlanksAre(s: Screen, n: nat)
    requires Ok(s) && !s.scrollOn && n < TWO64
    ensures RawBlanks(s, n).view == BlanksView(s, n)
  {
    hide Filled, RawBlanks, Spilled, S.At;
    if s.y >= s.rows {
      BlanksBelowScreen(s, n);
    } else if s.x >= s.cols {
      BlanksSpill(s, n);
    } else {
      Sides(s);
      AtInside(s.rows, s.cols, s.x, s.y);
      var k := Min(n, s.cols - s.x);
      var t := s.(view := Filled(s.view, S.At(s.cols, s.x, s.y), k, Space(s)), x := s.x + k);
      BlanksInRow(s, k);
      BlanksInTwo(s, k, n - k);
      if k == n {
        BlanksNone(t);
        SpillNothing(s, t.view, s.x + k);
      } else {
        BlanksSpill(t, n - k);
        SpillSame(s, t, n - k);
      }
    }
  }

  lemma SpillNothing(s: Screen, v: seq<Cell>, x: nat)
    requires Ok(s) && |v| == |s.view| && s.y < s.rows && x <= TWO64
    ensures Spilled(s, v, x, 0) == v
  {
    hide Filled, Cells, Limit, Landing;
    RowsInView(s);
    if s.y + 1 < s.bottom { FillNothing(v, Cells(Landing(s), s.cols), Space(s)); }
    FillNothing(v, Cells(s.y, s.cols), Space(s));
  }

  lemma SpillSame(s: Screen, t: Screen, n: nat)
    requires Ok(s) && Ok(t) && s.y < s.rows && t == s.(view := t.view, x := t.x)
    ensures Spilled(t, t.view, t.x, n) == Spilled(s, t.view, t.x, n)
  {
  }

  /** Blanks change nothing but cells and the cursor. */
  lemma {:induction false} BlanksKeepRest(s: Screen, n: nat)
    requires Ok(s)
    ensures var r := RawBlanks(s, n); r == s.(view := r.view, x := r.x, y := r.y)
  {
    hide RawPut;
    if n > 0 {
      BlanksKeepRest(s, n - 1);
      PutKeepsRest(RawBlanks(s, n - 1));
    }
  }

  lemma PutKeepsRest(s: Screen)
    requires Ok(s)
    ensures var r := RawPut(s, 0x20); r == s.(view := r.view, x := r.x, y := r.y)
  {
    hide S.At, ShiftUp;
  }

  // ----- what CSI J and X erase, and when that is what they are for -----

  /** Index of the cell at which the cursor is reported. */
  function Reported(s: Screen): (i: nat)
    requires Ok(s)
    ensures i < |s.view| && i + (s.cols - GetX(s)) <= |s.view|
  {
    AtInside(s.rows, s.cols, GetX(s), GetY(s));
    S.At(s.cols, GetX(s), GetY(s))
  }

  /** CSI 0 J puts as many blanks as there are cells from the reported one on; CSI 1 J stops at the limit. */
  lemma EraseDisplayIs(s: Screen)
    requires Ok(s) && !s.scrollOn
    ensures GetX(s) < TWO64 && GetY(s) < TWO64 && Cells(Limit(s), s.cols) <= |s.view|
    ensures DisplayErased(s, 0) == s.(view := BlanksView(s, |s.view| - Reported(s)), x := GetX(s), y := GetY(s))
    ensures DisplayErased(s, 1) == s.(view := Filled(s.view, 0, Min(Reported(s) + 1, Cells(Limit(s), s.cols)), Space(s)), x := GetX(s), y := GetY(s))
  {
    hide RawBlanks, Filled, BlanksView, S.At;
    Sides(s);
    RestOfScreen(s.rows, s.cols, GetX(s), GetY(s));
    BlanksAre(s, |s.view| - Reported(s));
    BlanksKeepRest(s, |s.view| - Reported(s));
    var o := s.(x := 0, y := 0);
    BlanksFromRow(o, Reported(s) + 1);
    BlanksKeepRest(o, Reported(s) + 1);
  }

  lemma RestOfScreen(rows: nat, cols: nat, x: nat, y: nat)
    requires x < cols && y < rows
    ensures Cells(rows - 1 - y, cols) + (cols - x) == rows * cols - S.At(cols, x, y)
    ensures Cells(y, cols) + x + 1 == S.At(cols, x, y) + 1 && Cells(0, cols) == 0
  {
    assert (rows - 1 - y) * cols == rows * cols - cols - y * cols;
  }

  /** Whatever is on the screen, CSI 1 J blanks every cell up to and including the reported one, and no other cell. */
  ghost predicate ErasesUp(s: Screen)
    requires Ok(s)
  {
    forall v: seq<Cell> :: |v| == |s.view| ==> DisplayErased(s.(view := v), 1).view == Filled(v, 0, Reported(s) + 1, Space(s))
  }

  /** ... if and only if the reported row is above the bottom margin and its number is below the number of columns. */
  lemma EraseUpExactly(s: Screen)
    requires Ok(s) && !s.scrollOn
    ensures ErasesUp(s) <==> GetY(s) < s.bottom && GetY(s) < s.cols
  {
    hide ErasesUp;
    if GetY(s) < Limit(s) { EraseUpFits(s); } else { EraseUpFails(s); }
  }

  lemma EraseUpFits(s: Screen)
    requires Ok(s) && !s.scrollOn && GetY(s) < Limit(s)
    ensures ErasesUp(s)
  {
    hide DisplayErased, Filled, Cells, Reported;
    ReportedBelow(s);
    forall v: seq<Cell> | |v| == |s.view| ensures DisplayErased(s.(view := v), 1).view == Filled(v, 0, Reported(s) + 1, Space(s)) {
      ReportedSame(s, v);
      EraseDisplayIs(s.(view := v));
    }
  }

  lemma EraseUpFails(s: Screen)
    requires Ok(s) && !s.scrollOn && Limit(s) <= GetY(s)
    ensures !ErasesUp(s)
  {
    hide DisplayErased, Filled, Cells, Reported, ErasesUp;
    ReportedBelow(s);
    var v := Marked(s);
    ReportedSame(s, v);
    EraseDisplayIs(s.(view := v));
    FilledAt(v, 0, Min(Reported(s) + 1, Cells(Limit(s), s.cols)), Space(s), Reported(s));
    FilledAt(v, 0, Reported(s) + 1, Space(s), Reported(s));
    UpRefuted(s, v);
  }

  lemma UpRefuted(s: Screen, v: seq<Cell>)
    requires Ok(s) && |v| == |s.view| && DisplayErased(s.(view := v), 1).view != Filled(v, 0, Reported(s) + 1, Space(s))
    ensures !ErasesUp(s)
  {
    hide DisplayErased, Filled, Reported;
  }

  lemma ReportedBelow(s: Screen)
    requires Ok(s)
    ensures Cells(Limit(s), s.cols) <= |s.view|
    ensures GetY(s) < Limit(s) <==> Reported(s) < Cells(Limit(s), s.cols)
  {
    MulMono(Limit(s), s.rows, s.cols);
    if GetY(s) < Limit(s) { AtInside(Limit(s), s.cols, GetX(s), GetY(s)); } else { MulMono(Limit(s), GetY(s), s.cols); }
  }

  /** A view without a single blank. */
  function Marked(s: Screen): (v: seq<Cell>)
    ensures |v| == |s.view| && forall i :: 0 <= i < |v| ==> v[i] != Space(s)
  {
    Blanks(|s.view|, Cell(0x21, s.fg, s.bg))
  }

  lemma FilledAt(v: seq<Cell>, lo: nat, n: nat, c: Cell, i: nat)
    requires lo + n <= |v| && i < |v|
    ensures Filled(v, lo, n, c)[i] == if lo <= i < lo + n then c else v[i]
  {
  }

  /** Whatever is on the screen, CSI 0 J blanks the reported cell and every one behind it, and no other cell. */
  ghost predicate ErasesDown(s: Screen)
    requires Ok(s)
  {
    forall v: seq<Cell> :: |v| == |s.view| ==> DisplayErased(s.(view := v), 0).view == Filled(v, Reported(s), |v| - Reported(s), Space(s))
  }

  /** The cursor is on the screen, and either in its last row or on a screen whose wrap is a new line everywhere. */
  predicate DownFits(s: Screen) {
    !CursorOff(s) && (s.y + 1 == s.rows || s.bottom == s.rows <= s.cols)
  }

  lemma EraseDownExactly(s: Screen)
    requires Ok(s) && !s.scrollOn
    ensures ErasesDown(s) <==> DownFits(s)
  {
    hide ErasesDown;
    if DownFits(s) { EraseDownFits(s); } else { EraseDownFails(s); }
  }

  lemma EraseDownFits(s: Screen)
    requires Ok(s) && !s.scrollOn && DownFits(s)
    ensures ErasesDown(s)
  {
    hide DisplayErased, Filled, BlanksView, Cells, Reported;
    forall v: seq<Cell> | |v| == |s.view| ensures DisplayErased(s.(view := v), 0).view == Filled(v, Reported(s), |v| - Reported(s), Space(s)) {
      ReportedSame(s, v);
      EraseDisplayIs(s.(view := v));
      DownFilled(s.(view := v));
    }
  }

  lemma EraseDownFails(s: Screen)
    requires Ok(s) && !s.scrollOn && !DownFits(s)
    ensures !ErasesDown(s)
  {
    hide DisplayErased, Filled, BlanksView, Cells, Reported, ErasesDown;
    var v := Marked(s);
    ReportedSame(s, v);
    EraseDisplayIs(s.(view := v));
    var i := DownSpares(s.(view := v));
    FilledAt(v, Reported(s), |v| - Reported(s), Space(s), i);
    DownRefuted(s, v);
  }

  lemma DownRefuted(s: Screen, v: seq<Cell>)
    requires Ok(s) && |v| == |s.view| && DisplayErased(s.(view := v), 0).view != Filled(v, Reported(s), |v| - Reported(s), Space(s))
    ensures !ErasesDown(s)
  {
    hide DisplayErased, Filled, Reported;
  }

  lemma ReportedSame(s: Screen, v: seq<Cell>)
    requires Ok(s) && |v| == |s.view|
    ensures Reported(s.(view := v)) == Reported(s)
  {
  }

  lemma DownFilled(s: Screen)
    requires Ok(s) && DownFits(s)
    ensures BlanksView(s, |s.view| - Reported(s)) == Filled(s.view, Reported(s), |s.view| - Reported(s), Space(s))
  {
    hide Filled, S.At, Cells, Spilled, Reported, Ok;
    MarginsIn(s);
    RowPlaces(s);
    var k, n := s.cols - s.x, |s.view| - Reported(s);
    var v := Filled(s.view, Reported(s), k, Space(s));
    if s.y + 1 == s.rows {
      SpillNothing(s, v, s.cols);
    } else {
      SpillRest(s, v, s.cols, n - k);
      FillJoin(s.view, Reported(s), k, n - k, Space(s));
    }
  }

  /** Where the wrap is a new line everywhere, enough blanks fill the rows below. */
  lemma SpillRest(s: Screen, v: seq<Cell>, x: nat, n: nat)
    requires Ok(s) && |v| == |s.view| && s.y + 1 < s.rows && s.bottom == s.rows <= s.cols && Cells(s.y + 1, s.cols) + n == |v|
    ensures Spilled(s, v, x, n) == Filled(v, Cells(s.y + 1, s.cols), n, Space(s))
  {
    hide Filled, Cells;
    Distribute(s.y + 1, s.rows, s.cols);
    RowPlaces(s);
  }

  /** The reported cell, its row and the rows below in terms of counts of cells. */
  lemma RowPlaces(s: Screen)
    requires Ok(s) && s.y < s.rows
    ensures |s.view| == Cells(s.rows, s.cols) && Reported(s) == Cells(s.y, s.cols) + GetX(s)
    ensures s.x < s.cols ==> Reported(s) == S.At(s.cols, s.x, s.y)
    ensures Cells(s.y + 1, s.cols) == Cells(s.y, s.cols) + s.cols <= |s.view|
    ensures s.y + 1 < s.rows ==> Cells(s.y + 1, s.cols) + s.cols <= |s.view|
    ensures Limit(s) < s.rows ==> Cells(Limit(s), s.cols) + s.cols <= |s.view|
    ensures s.y + 1 == s.rows ==> Cells(s.y + 1, s.cols) == |s.view|
  {
    MulMono(s.y + 1, s.rows, s.cols);
    MulMono(Limit(s), s.rows, s.cols);
    assert (s.y + 1) * s.cols == s.y * s.cols + s.cols;
  }

  lemma FillJoin(v: seq<Cell>, lo: nat, n: nat, m: nat, c: Cell)
    requires lo + n + m <= |v|
    ensures Filled(Filled(v, lo, n, c), lo + n, m, c) == Filled(v, lo, n + m, c)
  {
  }

  /** A cell from the reported one on that CSI 0 J then leaves alone: the last one, or the reported one itself. */
  lemma DownSpares(s: Screen) returns (i: nat)
    requires Ok(s) && !DownFits(s)
    ensures Reported(s) <= i < |s.view| && BlanksView(s, |s.view| - Reported(s))[i] == s.view[i]
  {
    hide Filled, S.At, Cells, Spilled, Reported;
    i := Reported(s);
    if s.y < s.rows {
      Sides(s);
      RowPlaces(s);
      if s.y + 1 < s.rows && !(s.bottom == s.rows <= s.cols) { i := |s.view| - 1; }
      var n, k := |s.view| - Reported(s), if s.x < s.cols then s.cols - s.x else 0;
      var v := if s.x < s.cols then Filled(s.view, Reported(s), k, Space(s)) else s.view;
      if s.x < s.cols { FilledAt(s.view, Reported(s), k, Space(s), i); }
      SpillSpares(s, v, s.x + k, n - k, i);
    }
  }

  lemma SpillSpares(s: Screen, v: seq<Cell>, x: nat, n: nat, i: nat)
    requires Ok(s) && |v| == |s.view| && s.y < s.rows && i < |v|
    requires s.y + 1 < s.bottom ==> i < Cells(Landing(s), s.cols) || Cells(Limit(s), s.cols) <= i
    requires s.bottom <= s.y + 1 ==> x + n <= TWO64 || i < Cells(s.y, s.cols) || Cells(s.y + 1, s.cols) <= i
    ensures Spilled(s, v, x, n)[i] == v[i]
  {
    hide Filled, Cells;
    RowsInView(s);
    RowPlaces(s);
    if s.y + 1 < s.bottom {
      FilledAt(v, Cells(Landing(s), s.cols), Min(n, Cells(Limit(s) - Landing(s), s.cols)), Space(s), i);
    } else {
      FilledAt(v, Cells(s.y, s.cols), Min(s.cols, if x + n > TWO64 then x + n - TWO64 else 0), Space(s), i);
    }
  }

  /** The rows from `row` on are the same. */
  ghost predicate SameFrom(s: Screen, r: Screen, row: nat) {
    |r.view| == |s.view| && forall i :: Cells(row, s.cols) <= i < |s.view| ==> r.view[i] == s.view[i]
  }

  /** CSI 1;2r and CSI J on a screen of three rows or more: the rows below the margin are not erased. */
  lemma EraseStopsAtMargin(s: Screen, u: Word, v: Word)
    requires Ok(s) && 3 <= s.rows && !s.scrollOn
    ensures var t := Moved(s, B('r'), 1, 2, 2, u, v); t.bottom == 2 && !ErasesDown(t) && SameFrom(s, DisplayErased(t, 0), 2)
  {
    hide DisplayErased, BlanksView, ErasesDown, Cells, S.At;
    var t := s.(top := 0, bottom := 2, x := 0, y := 0);
    assert Moved(s, B('r'), 1, 2, 2, u, v) == t;
    EraseDownExactly(t);
    EraseDisplayIs(t);
    TopRows(s);
    forall i: nat | Cells(2, s.cols) <= i < |t.view| ensures DisplayErased(t, 0).view[i] == s.view[i] {
      TopSpares(t, |t.view| - Reported(t), i);
    }
  }

  lemma TopRows(s: Screen)
    requires Ok(s) && 3 <= s.rows
    ensures s.cols < |s.view| < TWO64 && Cells(2, s.cols) <= |s.view| && S.At(s.cols, 0, 0) == 0
    ensures forall lim: nat :: lim <= 2 ==> Cells(lim, s.cols) <= Cells(2, s.cols)
  {
    hide Cells;
    MulMono(2, s.rows, s.cols);
    FewRows(s.cols, 2);
    forall lim: nat | lim <= 2 ensures Cells(lim, s.cols) <= Cells(2, s.cols) { FewRows(s.cols, lim); }
  }

  lemma FewRows(cols: nat, n: nat)
    requires n <= 2
    ensures Cells(n, cols) <= Cells(2, cols) == 2 * cols
  {
    if n == 0 { } else if n == 1 { } else { }
  }

  /** Blanks from the upper left corner spare everything below the limit. */
  lemma TopSpares(s: Screen, n: nat, i: nat)
    requires Ok(s) && s.x == 0 && s.y == 0 && s.cols < n < TWO64 && Cells(Limit(s), s.cols) <= i < |s.view|
    ensures BlanksView(s, n)[i] == s.view[i]
  {
    hide Filled, S.At, Spilled, Cells;
    RowPlaces(s);
    FirstRow(s);
    FilledAt(s.view, Reported(s), s.cols, Space(s), i);
    SpillSpares(s, Filled(s.view, Reported(s), s.cols, Space(s)), s.cols, n - s.cols, i);
  }

  lemma FirstRow(s: Screen)
    requires Ok(s)
    ensures s.cols <= Cells(Limit(s), s.cols) && Cells(0, s.cols) == 0 && Cells(1, s.cols) == s.cols
  {
    MulMono(1, Limit(s), s.cols);
  }

  /** CSI X puts at most a row's number of blanks. */
  lemma EraseCharsIs(s: Screen, n: Dword)
    requires Ok(s) && !s.scrollOn
    ensures GetX(s) < TWO64 && GetY(s) < TWO64
    ensures CharsErased(s, n, GetX(s), GetY(s)) == s.(view := BlanksView(s, Min(n, s.cols)), x := GetX(s), y := GetY(s))
  {
    hide RawBlanks, Filled, BlanksView;
    Sides(s);
    BlanksAre(s, Min(n, s.cols));
    BlanksKeepRest(s, Min(n, s.cols));
  }

  /** On the screen and above the limit they run on over the following rows, up to the end of the last one above the limit. */
  lemma EraseCharsRunsOn(s: Screen, n: Dword)
    requires Ok(s) && !s.scrollOn && s.x < s.cols && s.y < Limit(s)
    requires s.y + 1 == s.bottom ==> s.x + Min(n, s.cols) <= TWO64
    requires s.y + 1 == s.cols < s.bottom ==> s.x + Min(n, s.cols) <= s.cols
    ensures Cells(Limit(s), s.cols) <= |s.view| && S.At(s.cols, s.x, s.y) < Cells(Limit(s), s.cols)
    ensures var at := S.At(s.cols, s.x, s.y);
            BlanksView(s, Min(n, s.cols)) == Filled(s.view, at, Min(Min(n, s.cols), Cells(Limit(s), s.cols) - at), Space(s))
  {
    hide Filled, S.At, Cells, Spilled;
    Sides(s);
    RowPlaces(s);
    RowsInView(s);
    ReportedBelow(s);
    var at, m := S.At(s.cols, s.x, s.y), Min(n, s.cols);
    var k := Min(m, s.cols - s.x);
    var v := Filled(s.view, at, k, Space(s));
    LimitPlaces(s);
    if k == m {
      SpillNothing(s, v, s.x + k);
    } else if s.y + 1 < s.bottom {
      SpillNext(s, v, m - k);
      FillJoin(s.view, at, k, m - k, Space(s));
    } else {
      SpillLost(s, v, m - k);
    }
  }

  lemma LimitPlaces(s: Screen)
    requires Ok(s) && s.y < Limit(s)
    ensures s.y + 1 == Limit(s) ==> Cells(Limit(s), s.cols) == Cells(s.y, s.cols) + s.cols
    ensures s.y + 1 < Limit(s) ==> Cells(s.y, s.cols) + s.cols + s.cols <= Cells(Limit(s), s.cols)
  {
    RowEnds(Limit(s), s.cols, 0, s.y);
    assert (s.y + 1) * s.cols == s.y * s.cols + s.cols;
    if s.y + 1 < Limit(s) {
      MulMono(s.y + 2, Limit(s), s.cols);
      assert (s.y + 2) * s.cols == s.y * s.cols + s.cols + s.cols;
    }
  }

  /** Less than a row goes on into the next row. */
  lemma SpillNext(s: Screen, v: seq<Cell>, n: nat)
    requires Ok(s) && |v| == |s.view| && s.y + 1 < s.bottom && s.y + 1 < s.cols && n < s.cols
    ensures Cells(s.y, s.cols) + s.cols + n <= |v| && Spilled(s, v, s.cols, n) == Filled(v, Cells(s.y, s.cols) + s.cols, n, Space(s))
  {
    hide Filled, Cells;
    RowPlaces(s);
    RowsInView(s);
    LimitPlaces(s);
  }

  lemma SpillLost(s: Screen, v: seq<Cell>, n: nat)
    requires Ok(s) && |v| == |s.view| && s.y < s.rows && s.bottom <= s.y + 1 && s.cols + n <= TWO64
    ensures Spilled(s, v, s.cols, n) == v
  {
    hide Filled, Cells;
    RowsInView(s);
    FillNothing(v, Cells(s.y, s.cols), Space(s));
  }

  /** Whatever is on the screen, CSI X blanks n cells from the reported one on, or those up to the end of its row, and no other cell. */
  ghost predicate ErasesInRow(s: Screen, n: Dword)
    requires Ok(s)
  {
    forall v: seq<Cell> :: |v| == |s.view| ==>
      GetX(s) < TWO64 && GetY(s) < TWO64 &&
      CharsErased(s.(view := v), n, GetX(s), GetY(s)).view == Filled(v, Reported(s), Min(n, s.cols - GetX(s)), Space(s))
  }

  /**
   * The cursor is on the screen, and the blanks fit in its row or get lost behind it
   * because no wrap follows; or there is nothing to erase.
   */
  predicate RowFits(s: Screen, n: Dword) {
    || n == 0 || WrapsOnItself(s)
    || (!CursorOff(s) && (s.x + Min(n, s.cols) <= s.cols || (s.bottom <= s.y + 1 && s.x + Min(n, s.cols) <= TWO64)))
  }

  lemma EraseCharsExactly(s: Screen, n: Dword)
    requires Ok(s) && !s.scrollOn
    ensures ErasesInRow(s, n) <==> RowFits(s, n)
  {
    hide ErasesInRow;
    if RowFits(s, n) { EraseCharsFits(s, n); } else { EraseCharsFails(s, n); }
  }

  lemma EraseCharsFits(s: Screen, n: Dword)
    requires Ok(s) && !s.scrollOn && RowFits(s, n)
    ensures ErasesInRow(s, n)
  {
    hide CharsErased, Filled, BlanksView, Reported;
    Sides(s);
    forall v: seq<Cell> | |v| == |s.view|
      ensures CharsErased(s.(view := v), n, GetX(s), GetY(s)).view == Filled(v, Reported(s), Min(n, s.cols - GetX(s)), Space(s))
    {
      ReportedSame(s, v);
      EraseCharsIs(s.(view := v), n);
      RowFilled(s.(view := v), n);
    }
  }

  lemma RowFilled(s: Screen, n: Dword)
    requires Ok(s) && RowFits(s, n)
    ensures BlanksView(s, Min(n, s.cols)) == Filled(s.view, Reported(s), Min(n, s.cols - GetX(s)), Space(s))
  {
    hide Filled, S.At, Cells, Spilled;
    Sides(s);
    FillNothing(s.view, Reported(s), Space(s));
    if s.y < s.rows {
      RowPlaces(s);
      if n == 0 {
        SpillNothing(s, s.view, s.x);
      } else if s.x >= s.cols {
        SpillOnItself(s);
      } else {
        var m := Min(n, s.cols);
        var k := Min(m, s.cols - s.x);
        var v := Filled(s.view, Reported(s), k, Space(s));
        if k == m { SpillNothing(s, v, s.x + k); } else { SpillLost(s, v, m - k); }
      }
    }
  }

  lemma SpillOnItself(s: Screen)
    requires Ok(s) && WrapsOnItself(s)
    ensures Reported(s) == 0 && Spilled(s, s.view, s.x, 1) == Filled(s.view, 0, 1, Space(s))
  {
    hide Filled;
  }

  lemma EraseCharsFails(s: Screen, n: Dword)
    requires Ok(s) && !s.scrollOn && !RowFits(s, n)
    ensures !ErasesInRow(s, n)
  {
    hide CharsErased, Filled, BlanksView, Cells, Reported, ErasesInRow;
    Sides(s);
    var v := Marked(s);
    var t := s.(view := v);
    ReportedSame(s, v);
    EraseCharsIs(t, n);
    var i := RowMissed(t, n);
    FilledAt(v, Reported(s), Min(n, s.cols - GetX(s)), Space(s), i);
    InRowRefuted(s, n, v);
  }

  lemma InRowRefuted(s: Screen, n: Dword, v: seq<Cell>)
    requires Ok(s) && |v| == |s.view| && GetX(s) < TWO64 && GetY(s) < TWO64
    requires CharsErased(s.(view := v), n, GetX(s), GetY(s)).view != Filled(v, Reported(s), Min(n, s.cols - GetX(s)), Space(s))
    ensures !ErasesInRow(s, n)
  {
    hide CharsErased, Filled, Reported;
  }

  /** A cell that CSI X then erases by mistake, or spares. */
  lemma RowMissed(s: Screen, n: Dword) returns (i: nat)
    requires Ok(s) && !RowFits(s, n) && forall j :: 0 <= j < |s.view| ==> s.view[j] != Space(s)
    ensures i < |s.view|
    ensures BlanksView(s, Min(n, s.cols))[i] == Space(s) <==> !(Reported(s) <= i < Reported(s) + Min(n, s.cols - GetX(s)))
  {
    hide Filled, S.At, Cells, Spilled, Reported;
    i := Reported(s);
    if s.y < s.rows {
      Sides(s);
      RowPlaces(s);
      var m := Min(n, s.cols);
      if s.x < s.cols {
        i := SpillFirst(s, Filled(s.view, Reported(s), s.cols - s.x, Space(s)), s.cols, m - (s.cols - s.x));
      } else if s.y + 1 < s.bottom {
        i := SpillFirst(s, s.view, s.x, m);
        LandsElsewhere(s);
      } else {
        SpillShort(s, m);
      }
    }
  }

  /** The first cell that is blanked behind a wrap, of the columns or of their number. */
  lemma SpillFirst(s: Screen, v: seq<Cell>, x: nat, n: nat) returns (i: nat)
    requires Ok(s) && |v| == |s.view| && s.y < s.rows && 0 < n && (s.bottom <= s.y + 1 ==> TWO64 < x + n)
    ensures i == Cells(if s.y + 1 < s.bottom then Landing(s) else s.y, s.cols) < |v| && Spilled(s, v, x, n)[i] == Space(s)
    ensures s.y + 1 < s.bottom && s.y + 1 < s.cols ==> i == Cells(s.y + 1, s.cols)
    ensures !(s.y + 1 < s.bottom && s.y + 1 < s.cols) ==> i <= Cells(s.y, s.cols)
  {
    hide Filled, Cells;
    RowsInView(s);
    if s.y + 1 < s.bottom {
      i := Cells(Landing(s), s.cols);
      RoomFor(s);
      FilledAt(v, i, Min(n, Cells(Limit(s) - Landing(s), s.cols)), Space(s), i);
    } else {
      i := Cells(s.y, s.cols);
      FilledAt(v, i, Min(s.cols, x + n - TWO64), Space(s), i);
    }
  }

  lemma RoomFor(s: Screen)
    requires Ok(s) && s.y + 1 < s.bottom
    ensures 0 < Cells(Limit(s) - Landing(s), s.cols)
    ensures s.cols <= s.y + 1 ==> Cells(Landing(s), s.cols) <= Cells(s.y, s.cols)
  {
    MulMono(1, Limit(s) - Landing(s), s.cols);
    if s.cols <= s.y + 1 { MulMono(Landing(s), s.y, s.cols); }
  }

  lemma LandsElsewhere(s: Screen)
    requires Ok(s) && s.cols <= s.x && s.y + 1 < s.bottom && !WrapsOnItself(s)
    ensures Cells(Landing(s), s.cols) != Reported(s)
  {
    RowPlaces(s);
    if s.cols <= s.y + 1 && s.cols == 1 { assert 0 < s.y; }
    RoomFor(s);
  }

  /** Without a wrap the last column of the row is out of reach. */
  lemma SpillShort(s: Screen, m: nat)
    requires Ok(s) && s.cols <= s.x && s.y < s.rows && s.bottom <= s.y + 1 && m <= s.cols
    ensures Spilled(s, s.view, s.x, m)[Reported(s)] == s.view[Reported(s)]
  {
    hide Filled, Cells;
    RowsInView(s);
    RowPlaces(s);
    FilledAt(s.view, Cells(s.y, s.cols), Min(s.cols, if s.x + m > TWO64 then s.x + m - TWO64 else 0), Space(s), Reported(s));
  }

  /** CSI 1 K stops short of the reported cell, which CSI 1 J includes. */
  lemma EraseLineUpStops(s: Screen)
    requires Ok(s)
    ensures |LineErased(s, 1).view| == |s.view| && LineErased(s, 1).view[Reported(s)] == s.view[Reported(s)]
  {
    hide S.At, BlanksToEnd;
    AtInside(s.rows, s.cols, 0, GetY(s));
    AtNext(s.cols, 0, GetX(s), GetY(s));
  }

  // ----- when CSI P works -----

  /** Whatever is on the screen, CSI P deletes n characters at the cursor, or all up to the end of the row if there are no more. */
  ghost predicate DeletesInRow(s: Screen, n: Dword)
    requires Ok(s)
  {
    forall v: seq<Cell> :: |v| == |s.view| ==> Edited(s.(view := v), B('P'), n).view == DeletedRow(s.(view := v), n)
  }

  function DeletedRow(s: Screen, n: Dword): (r: seq<Cell>)
    requires Ok(s)
  {
    if GetX(s) + n <= s.cols then CharsDeleted(s, GetX(s), GetY(s), n).view
    else Filled(s.view, Reported(s), s.cols - GetX(s), Space(s))
  }

  /** Column from which the code blanks when the count is larger than what is left of the row. */
  function DeleteStart(s: Screen, n: Dword): (x: nat)
    requires Ok(s)
    ensures x < s.cols || n == 0
  {
    if n <= s.cols then s.cols - n else if n - s.cols <= 0x8000_0000 then 0 else s.cols - 1
  }

  /** So many characters are there; or their number is larger than that of the columns, and what is then blanked is just the rest of the row. */
  predicate DeleteFits(s: Screen, n: Dword)
    requires Ok(s)
  {
    var x, y := GetX(s), GetY(s);
    || x + n <= s.cols
    || (s.cols < n && DeleteStart(s, n) == 0 == x)
    || (s.cols < n && DeleteStart(s, n) == s.cols - 1 == x && s.bottom <= y + 1)
    || (s.cols < n && x == 0 && y + 1 == s.cols < s.bottom)
  }

  lemma DeleteCharsExactly(s: Screen, n: Dword)
    requires Ok(s) && !s.scrollOn
    ensures DeletesInRow(s, n) <==> DeleteFits(s, n)
  {
    hide DeletesInRow;
    if DeleteFits(s, n) { DeleteCharsFits(s, n); } else { DeleteCharsFails(s, n); }
  }

  lemma DeleteCharsFits(s: Screen, n: Dword)
    requires Ok(s) && !s.scrollOn && DeleteFits(s, n)
    ensures DeletesInRow(s, n)
  {
    hide Edited, DeletedRow;
    forall v: seq<Cell> | |v| == |s.view| ensures Edited(s.(view := v), B('P'), n).view == DeletedRow(s.(view := v), n) {
      DeleteIs(s.(view := v), n);
      if GetX(s) + n > s.cols { DeletedAll(s.(view := v), n); }
    }
  }

  lemma DeleteCharsFails(s: Screen, n: Dword)
    requires Ok(s) && !s.scrollOn && !DeleteFits(s, n)
    ensures !DeletesInRow(s, n)
  {
    hide Edited, Filled, BlanksView, Reported, DeletesInRow;
    var t := s.(view := Marked(s));
    DeleteIs(t, n);
    var i := DeleteMissed(t, n);
    FilledAt(t.view, Reported(t), s.cols - GetX(s), Space(s), i);
    DeleteRefuted(s, n, t.view);
  }

  lemma DeleteRefuted(s: Screen, n: Dword, v: seq<Cell>)
    requires Ok(s) && |v| == |s.view| && Edited(s.(view := v), B('P'), n).view != DeletedRow(s.(view := v), n)
    ensures !DeletesInRow(s, n)
  {
    hide Edited, DeletedRow;
  }

  /** The screen with the cursor where the blanks begin. */
  function AtStart(s: Screen, n: Dword): (r: Screen)
    requires Ok(s)
    ensures Ok(r)
  {
    Sides(s);
    s.(x := DeleteStart(s, n), y := GetY(s))
  }

  lemma DeleteIs(s: Screen, n: Dword)
    requires Ok(s) && !s.scrollOn
    ensures Edited(s, B('P'), n).view ==
            if GetX(s) + n <= s.cols then DeletedRow(s, n) else BlanksView(AtStart(s, n), Min(n, s.cols))
  {
    hide CharsDeleted, CharsErased, BlanksView, RawBlanks, Filled;
    Sides(s);
    if GetX(s) + n > s.cols {
      StartsThere(s, n);
      CharsErasedView(AtStart(s, n), n, GetX(s), GetY(s));
    }
  }

  lemma StartsThere(s: Screen, n: Dword)
    requires Ok(s) && GetX(s) + n > s.cols
    ensures GetY(s) < TWO64 && SetCursor(s, (s.cols - n) % TWO64, GetY(s)) == AtStart(s, n)
  {
    hide Clamp;
    Sides(s);
    ClampRow(s);
    ClampStart(s.cols, n);
  }

  lemma ClampRow(s: Screen)
    requires Ok(s)
    ensures GetY(s) < TWO64 && Clamp(GetY(s), s.rows) == GetY(s)
  {
    Sides(s);
  }

  /** A negative start wraps around, and is then cut by its low 32 bits. */
  lemma ClampStart(cols: Word, n: Dword)
    requires 0 < cols && 0 < n
    ensures Clamp((cols - n) % TWO64, cols) == if n <= cols then cols - n else if n - cols <= 0x8000_0000 then 0 else cols - 1
  {
    if n > cols { assert (cols - n) % TWO64 == TWO64 - (n - cols); }
  }

  lemma CharsErasedView(s: Screen, n: Dword, x: Word, y: Word)
    requires Ok(s) && !s.scrollOn
    ensures CharsErased(s, n, x, y).view == BlanksView(s, Min(n, s.cols))
  {
    hide RawBlanks, BlanksView;
    Sides(s);
    BlanksAre(s, Min(n, s.cols));
    CursorKeepsView(RawBlanks(s, Min(n, s.cols)), x, y);
  }

  lemma DeletedAll(s: Screen, n: Dword)
    requires Ok(s) && DeleteFits(s, n) && GetX(s) + n > s.cols
    ensures BlanksView(AtStart(s, n), Min(n, s.cols)) == DeletedRow(s, n)
  {
    hide Filled, S.At, Cells, Spilled;
    var t := AtStart(s, n);
    RowPlaces(t);
    ReportedRow(s);
    var v := Filled(s.view, Reported(t), s.cols - t.x, Space(s));
    if t.x == 0 {
      SpillNothing(t, v, s.cols);
    } else if t.bottom <= t.y + 1 {
      SpillLost(t, v, s.cols - 1);
    } else {
      SpillsBack(t, v);
    }
  }

  lemma ReportedRow(s: Screen)
    requires Ok(s)
    ensures Reported(s) == Cells(GetY(s), s.cols) + GetX(s)
  {
  }

  /** In the row whose number is the last column's, the wrap leads back to its beginning. */
  lemma SpillsBack(t: Screen, v: seq<Cell>)
    requires Ok(t) && t.y < t.rows && t.y + 1 == t.cols < t.bottom && Reported(t) + 1 == Cells(t.y, t.cols) + t.cols <= |t.view|
    requires v == Filled(t.view, Reported(t), 1, Space(t))
    ensures Spilled(t, v, t.cols, t.cols - 1) == Filled(t.view, Cells(t.y, t.cols), t.cols, Space(t))
  {
    hide Cells, Reported;
    RowsInView(t);
    RoomOfRow(t);
    assert Landing(t) == t.y && Limit(t) == t.cols;
  }

  lemma RoomOfRow(t: Screen)
    requires Ok(t)
    ensures Cells(1, t.cols) == t.cols
  {
  }

  /** A cell that the code then blanks by mistake, or spares. */
  lemma DeleteMissed(s: Screen, n: Dword) returns (i: nat)
    requires Ok(s) && !DeleteFits(s, n) && forall j :: 0 <= j < |s.view| ==> s.view[j] != Space(s)
    ensures i < |s.view|
    ensures BlanksView(AtStart(s, n), Min(n, s.cols))[i] == Space(s) <==> !(Reported(s) <= i < Reported(s) + (s.cols - GetX(s)))
  {
    hide Filled, S.At, Cells, Spilled, Reported, BlanksView;
    ReportedRow(s);
    if n <= s.cols || DeleteStart(s, n) == 0 {
      i := MissedBefore(s, n);
    } else {
      i := MissedBehind(s, n);
    }
  }

  lemma MissedBefore(s: Screen, n: Dword) returns (i: nat)
    requires Ok(s) && GetX(s) + n > s.cols && DeleteStart(s, n) < GetX(s) && (n <= s.cols || DeleteStart(s, n) == 0)
    ensures i == Cells(GetY(s), s.cols) + DeleteStart(s, n) < |s.view| && BlanksView(AtStart(s, n), Min(n, s.cols))[i] == Space(s)
  {
    hide Filled, S.At, Cells, Spilled, Reported;
    var t := AtStart(s, n);
    RowPlaces(t);
    i := Reported(t);
    var k := s.cols - t.x;
    SpillNothing(t, Filled(s.view, i, k, Space(s)), s.cols);
    FilledAt(s.view, i, k, Space(s), i);
  }

  lemma MissedBehind(s: Screen, n: Dword) returns (i: nat)
    requires Ok(s) && !DeleteFits(s, n) && s.cols < n && DeleteStart(s, n) == s.cols - 1 && 1 < s.cols
    requires forall j :: 0 <= j < |s.view| ==> s.view[j] != Space(s)
    ensures i < |s.view|
    ensures var at := Cells(GetY(s), s.cols) + GetX(s); BlanksView(AtStart(s, n), s.cols)[i] == Space(s) <==> !(at <= i < at + (s.cols - GetX(s)))
  {
    hide Filled, S.At, Cells, Spilled, Reported, BlanksView;
    var t := AtStart(s, n);
    LastColumn(t);
    var v := Filled(s.view, Reported(t), 1, Space(s));
    if t.y + 1 < t.bottom {
      i := SpillFirst(t, v, t.cols, s.cols - 1);
      LandsBefore(t);
      RowPlaces(t);
    } else {
      SpillLost(t, v, s.cols - 1);
      i := Cells(GetY(s), s.cols) + GetX(s);
      FilledAt(s.view, Reported(t), 1, Space(s), i);
    }
  }

  /** A row's number of blanks from the last column on. */
  lemma LastColumn(t: Screen)
    requires Ok(t) && t.y < t.rows && t.x + 1 == t.cols
    ensures Reported(t) + 1 == Cells(t.y, t.cols) + t.cols <= |t.view|
    ensures BlanksView(t, t.cols) == Spilled(t, Filled(t.view, Reported(t), 1, Space(t)), t.cols, t.cols - 1)
  {
    hide Filled, S.At, Cells, Spilled;
    RowPlaces(t);
  }

  lemma LandsBefore(s: Screen)
    requires Ok(s) && s.y + 1 < s.bottom
    ensures Landing(s) < s.y ==> Cells(Landing(s), s.cols) < Cells(s.y, s.cols)
  {
    if Landing(s) < s.y { MulMono(Landing(s), s.y, s.cols); }
  }
}
