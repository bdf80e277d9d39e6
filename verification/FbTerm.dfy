/**
 * The framebuffer backend of src/flanterm/backends/fb.c: the cells drawn so far
 * (`grid`), a queue of pending changes, and `map`, which finds the pending
 * change of a cell.  Drawing a character on the framebuffer is an assignment to
 * `displayed`.
 */
module FbTerm {
  import opened Words
  import opened Screen
  import opened Rows
  import S = Screen

  datatype Item = Item(x: nat, y: nat, cell: Cell)

  const NULL := -1

  // ----- the queue on values -----

  function CellOf(cols: nat, it: Item): nat {
    At(cols, it.x, it.y)
  }

  ghost predicate EntryOk(cols: nat, items: seq<Item>, ix: seq<int>, i: nat)
    requires i < |ix|
  {
    ix[i] == NULL || (0 <= ix[i] < |items| && CellOf(cols, items[ix[i]]) == i)
  }

  ghost predicate ItemOk(rows: nat, cols: nat, items: seq<Item>, ix: seq<int>, k: nat)
    requires k < |items|
  {
    var it := items[k];
    it.x < cols && it.y < rows && CellOf(cols, it) < |ix| && ix[CellOf(cols, it)] == k
  }

  /** Pending items and the cells with a pending change correspond one to one. */
  ghost predicate Linked(rows: nat, cols: nat, items: seq<Item>, ix: seq<int>) {
    && (forall i: nat :: i < |ix| ==> EntryOk(cols, items, ix, i))
    && (forall k: nat :: k < |items| ==> ItemOk(rows, cols, items, ix, k))
  }

  /** The cell as it will be after the next flush. */
  function Pending(grid: seq<Cell>, items: seq<Item>, ix: seq<int>, i: nat): Cell
    requires i < |grid| == |ix|
  {
    if 0 <= ix[i] < |items| then items[ix[i]].cell else grid[i]
  }

  function Overlay(grid: seq<Cell>, items: seq<Item>, ix: seq<int>): (v: seq<Cell>)
    requires |grid| == |ix|
    ensures |v| == |grid| && forall i: nat :: i < |v| ==> v[i] == Pending(grid, items, ix, i)
  {
    seq(|grid|, i requires 0 <= i < |grid| => Pending(grid, items, ix, i))
  }

  /** There are at most as many items as cells; a cell without an item leaves room for one more. */
  lemma RoomLeft(rows: nat, cols: nat, items: seq<Item>, ix: seq<int>)
    requires Linked(rows, cols, items, ix)
    ensures |items| <= |ix|
    ensures forall i: nat :: i < |ix| && ix[i] == NULL ==> |items| < |ix|
  {
    hide At;
    var cells := seq(|items|, k requires 0 <= k < |items| => CellOf(cols, items[k]));
    forall j: nat, k: nat | j < k < |cells| ensures cells[j] != cells[k] {
      assert ItemOk(rows, cols, items, ix, j) && ItemOk(rows, cols, items, ix, k);
    }
    forall k: nat | k < |cells| ensures cells[k] < |ix| && ix[cells[k]] == k {
      assert ItemOk(rows, cols, items, ix, k);
    }
    DistinctBelow(cells, |ix|);
    forall i: nat | i < |ix| && ix[i] == NULL ensures |items| < |ix| {
      DistinctBelow(cells + [i], |ix|);
    }
  }

  lemma AppendItem(rows: nat, cols: nat, grid: seq<Cell>, items: seq<Item>, ix: seq<int>, it: Item)
    requires Linked(rows, cols, items, ix) && |grid| == |ix|
    requires it.x < cols && it.y < rows && CellOf(cols, it) < |ix| && ix[CellOf(cols, it)] == NULL
    ensures Linked(rows, cols, items + [it], ix[CellOf(cols, it) := |items|])
    ensures Overlay(grid, items + [it], ix[CellOf(cols, it) := |items|]) == Overlay(grid, items, ix)[CellOf(cols, it) := it.cell]
  {
    hide CellOf;
    var i := CellOf(cols, it);
    var items', ix' := items + [it], ix[i := |items|];
    forall j: nat | j < |ix| ensures EntryOk(cols, items', ix', j) && (j != i ==> Pending(grid, items', ix', j) == Pending(grid, items, ix, j)) {
      assert EntryOk(cols, items, ix, j);
    }
    forall k: nat | k < |items'| ensures ItemOk(rows, cols, items', ix', k) {
      if k < |items| { assert ItemOk(rows, cols, items, ix, k); }
    }
  }

  lemma ReplaceItem(rows: nat, cols: nat, grid: seq<Cell>, items: seq<Item>, ix: seq<int>, i: nat, c: Cell)
    requires Linked(rows, cols, items, ix) && |grid| == |ix| && i < |ix| && ix[i] != NULL
    ensures 0 <= ix[i] < |items|
    ensures Linked(rows, cols, items[ix[i] := items[ix[i]].(cell := c)], ix)
    ensures Overlay(grid, items[ix[i] := items[ix[i]].(cell := c)], ix) == Overlay(grid, items, ix)[i := c]
  {
    hide At;
    assert EntryOk(cols, items, ix, i);
    var q := ix[i];
    var items' := items[q := items[q].(cell := c)];
    forall j: nat | j < |ix| ensures EntryOk(cols, items', ix, j) && Pending(grid, items', ix, j) == (if j == i then c else Pending(grid, items, ix, j)) {
      assert EntryOk(cols, items, ix, j);
    }
    forall k: nat | k < |items| ensures ItemOk(rows, cols, items', ix, k) {
      assert ItemOk(rows, cols, items, ix, k);
    }
  }

  // ----- what is drawn -----

  /** The picture of grid g, with the cursor image at (x, y) if it is shown there. */
  function Picture(rows: nat, cols: nat, g: seq<Cell>, shown: bool, x: nat, y: nat): (d: seq<Cell>)
    ensures |d| == |g|
  {
    if shown && x < cols && y < rows && At(cols, x, y) < |g| then g[At(cols, x, y) := Swapped(g[At(cols, x, y)])] else g
  }

  // ----- flushing -----

  ghost predicate DrainEntry(cols: nat, items: seq<Item>, ix: seq<int>, n: nat, j: nat)
    requires j < |ix|
  {
    ix[j] == NULL || (n <= ix[j] < |items| && CellOf(cols, items[ix[j]]) == j)
  }

  ghost predicate DrainItem(rows: nat, cols: nat, items: seq<Item>, ix: seq<int>, drawn: Option<nat>, k: nat)
    requires k < |items|
  {
    var it := items[k];
    && it.x < cols && it.y < rows && CellOf(cols, it) < |ix|
    && (ix[CellOf(cols, it)] == k || (ix[CellOf(cols, it)] == NULL && drawn == Some(CellOf(cols, it))))
  }

  /** The first n items are on the grid already, and so is the cell under the cursor, which `drawn` names. */
  ghost predicate Draining(rows: nat, cols: nat, items: seq<Item>, ix: seq<int>, drawn: Option<nat>, n: nat, g: seq<Cell>, v: seq<Cell>) {
    && |g| == |v| == |ix| && n <= |items|
    && (drawn.Some? ==> drawn.value < |ix| && ix[drawn.value] == NULL)
    && (forall j: nat :: j < |ix| ==> DrainEntry(cols, items, ix, n, j))
    && (forall k: nat :: n <= k < |items| ==> DrainItem(rows, cols, items, ix, drawn, k))
    && (forall j: nat :: j < |ix| ==> Pending(g, items, ix, j) == v[j])
  }

  lemma DrainStart(rows: nat, cols: nat, items: seq<Item>, ix: seq<int>, g: seq<Cell>)
    requires Linked(rows, cols, items, ix) && |g| == |ix|
    ensures Draining(rows, cols, items, ix, None, 0, g, Overlay(g, items, ix))
  {
    hide At, CellOf;
    forall j: nat | j < |ix| ensures DrainEntry(cols, items, ix, 0, j) { assert EntryOk(cols, items, ix, j); }
    forall k: nat | k < |items| ensures DrainItem(rows, cols, items, ix, None, k) { assert ItemOk(rows, cols, items, ix, k); }
  }

  lemma DrainCursor(rows: nat, cols: nat, items: seq<Item>, ix: seq<int>, g: seq<Cell>, v: seq<Cell>, c: nat)
    requires Draining(rows, cols, items, ix, None, 0, g, v) && c < |ix|
    ensures DrainEntry(cols, items, ix, 0, c)
    ensures ix[c] == NULL ==> v[c] == g[c] && Draining(rows, cols, items, ix, Some(c), 0, g, v)
    ensures ix[c] != NULL ==>
              v[c] == items[ix[c]].cell && Draining(rows, cols, items, ix[c := NULL], Some(c), 0, g[c := v[c]], v)
  {
    hide At, CellOf;
    var ix', g' := ix[c := NULL], g[c := v[c]];
    forall j: nat | j < |ix| ensures DrainEntry(cols, items, ix', 0, j) && Pending(g', items, ix', j) == v[j] {
      assert DrainEntry(cols, items, ix, 0, j);
      assert Pending(g, items, ix, j) == v[j];
    }
    forall k: nat | k < |items| ensures DrainItem(rows, cols, items, ix', Some(c), k) && (ix[c] == NULL ==> DrainItem(rows, cols, items, ix, Some(c), k)) {
      assert DrainItem(rows, cols, items, ix, None, k);
    }
  }

  /** One round of the flush loop. */
  lemma DrainStep(rows: nat, cols: nat, items: seq<Item>, ix: seq<int>, drawn: Option<nat>, n: nat, g: seq<Cell>, v: seq<Cell>)
    requires Draining(rows, cols, items, ix, drawn, n, g, v) && n < |items|
    ensures items[n].x < cols && items[n].y < rows && CellOf(cols, items[n]) < |ix|
    ensures var c := CellOf(cols, items[n]);
            if ix[c] == NULL then Draining(rows, cols, items, ix, drawn, n + 1, g, v)
            else drawn != Some(c) && v[c] == items[n].cell && Draining(rows, cols, items, ix[c := NULL], drawn, n + 1, g[c := v[c]], v)
  {
    hide At, CellOf;
    var c := CellOf(cols, items[n]);
    assert DrainItem(rows, cols, items, ix, drawn, n);
    assert DrainEntry(cols, items, ix, n, c);
    assert Pending(g, items, ix, c) == v[c];
    var ix', g', n' := ix[c := NULL], g[c := v[c]], n + 1;
    forall j: nat | j < |ix|
      ensures ix[c] == NULL ==> DrainEntry(cols, items, ix, n', j)
      ensures ix[c] != NULL ==> DrainEntry(cols, items, ix', n', j) && Pending(g', items, ix', j) == v[j]
    {
      assert DrainEntry(cols, items, ix, n, j);
      assert Pending(g, items, ix, j) == v[j];
    }
    forall k: nat | n' <= k < |items|
      ensures DrainItem(rows, cols, items, ix, drawn, k) && (ix[c] != NULL ==> DrainItem(rows, cols, items, ix', drawn, k))
    {
      assert DrainItem(rows, cols, items, ix, drawn, k);
    }
    assert ix[c] == NULL ==> Draining(rows, cols, items, ix, drawn, n', g, v);
    assert ix[c] != NULL ==> Draining(rows, cols, items, ix', drawn, n', g', v);
  }

  lemma DrainDone(rows: nat, cols: nat, items: seq<Item>, ix: seq<int>, drawn: Option<nat>, g: seq<Cell>, v: seq<Cell>)
    requires Draining(rows, cols, items, ix, drawn, |items|, g, v)
    ensures g == v && (forall j: nat :: j < |ix| ==> ix[j] == NULL)
    ensures Linked(rows, cols, [], ix) && Overlay(g, [], ix) == v
  {
    forall j: nat | j < |ix| ensures ix[j] == NULL && g[j] == v[j] {
      assert DrainEntry(cols, items, ix, |items|, j);
      assert Pending(g, items, ix, j) == v[j];
    }
  }

  /** Away from the old cursor cell, which may still show its image, the grid is drawn, plus the new cursor image. */
  ghost predicate Drawn(d: seq<Cell>, g: seq<Cell>, v: seq<Cell>, drawn: Option<nat>, was: Option<nat>) {
    && |d| == |g| == |v|
    && (forall j: nat :: j < |d| && Some(j) != drawn && Some(j) != was ==> d[j] == g[j])
    && (drawn.Some? ==> drawn.value < |d| && d[drawn.value] == Swapped(v[drawn.value]))
  }

  function CellAt(rows: nat, cols: nat, x: nat, y: nat): Option<nat> {
    if x < cols && y < rows then Some(At(cols, x, y)) else None
  }

  lemma CellAtInjective(rows: nat, cols: nat, x: nat, y: nat, a: nat, b: nat)
    requires CellAt(rows, cols, x, y).Some? && CellAt(rows, cols, x, y) == CellAt(rows, cols, a, b)
    ensures x == a && y == b
  {
    AtInside(rows, cols, x, y);
    AtInside(rows, cols, a, b);
  }

  lemma DrawnSize(d: seq<Cell>, g: seq<Cell>, v: seq<Cell>, drawn: Option<nat>, was: Option<nat>)
    requires Drawn(d, g, v, drawn, was)
    ensures |d| == |g|
  {
  }

  lemma OldPicture(rows: nat, cols: nat, g: seq<Cell>, v: seq<Cell>, shown: bool, x: nat, y: nat)
    requires |g| == |v|
    ensures Drawn(Picture(rows, cols, g, shown, x, y), g, v, None, CellAt(rows, cols, x, y))
  {
    hide At;
  }

  /** Replotting the old cursor cell, unless the cursor is still there, completes the picture. */
  lemma LastPicture(rows: nat, cols: nat, v: seq<Cell>, d: seq<Cell>, d': seq<Cell>, on: bool, x: nat, y: nat, oldX: nat, oldY: nat)
    requires |v| == rows * cols
    requires var was := CellAt(rows, cols, oldX, oldY);
             && Drawn(d, v, v, if on then CellAt(rows, cols, x, y) else None, was)
             && (was.Some? ==> was.value < |d|)
             && d' == if (oldX != x || oldY != y || !on) && was.Some? then d[was.value := v[was.value]] else d
    ensures d' == Picture(rows, cols, v, on, x, y)
  {
    hide At;
    if x < cols && y < rows { AtInside(rows, cols, x, y); }
    var was := CellAt(rows, cols, oldX, oldY);
    if was.Some? && was == CellAt(rows, cols, x, y) { CellAtInjective(rows, cols, x, y, oldX, oldY); }
  }

  /** Drawing the cursor outside a flush leaves the queue intact exactly when nothing was pending there. */
  lemma RefreshDone(rows: nat, cols: nat, items: seq<Item>, ix: seq<int>, ix': seq<int>, drawn: Option<nat>, g: seq<Cell>, g': seq<Cell>, v: seq<Cell>)
    requires Linked(rows, cols, items, ix) && |g| == |g'| == |ix| == |ix'| && v == Overlay(g, items, ix)
    requires drawn.Some? ==> drawn.value < |ix| && ix' == ix[drawn.value := NULL]
    requires Draining(rows, cols, items, ix', drawn, 0, g', v)
    ensures drawn.Some? ==> (Linked(rows, cols, items, ix') <==> ix[drawn.value] == NULL)
    ensures drawn.None? ==> Linked(rows, cols, items, ix')
    ensures Overlay(g', items, ix') == v
  {
    hide At, CellOf;
    forall j: nat | j < |ix| ensures EntryOk(cols, items, ix', j) && Pending(g', items, ix', j) == v[j] {
      assert DrainEntry(cols, items, ix', 0, j);
    }
    forall k: nat | k < |items| ensures drawn.None? ==> ItemOk(rows, cols, items, ix', k) {
      assert DrainItem(rows, cols, items, ix', drawn, k);
    }
    if drawn.Some? {
      var c := drawn.value;
      assert EntryOk(cols, items, ix, c);
      if ix[c] == NULL { assert ix' == ix; } else { assert ItemOk(rows, cols, items, ix, ix[c]); assert !ItemOk(rows, cols, items, ix', ix[c]); }
    }
  }

  /** The cursor drawn at c is accounted for exactly when it has not moved or cannot be seen. */
  lemma RefreshPicture(rows: nat, cols: nat, d: seq<Cell>, g: seq<Cell>, v: seq<Cell>, c: nat, x: nat, y: nat, oldX: nat, oldY: nat)
    requires Drawn(d, g, v, Some(c), None) && CellAt(rows, cols, x, y) == Some(c) && v[c] == g[c]
    ensures d == Picture(rows, cols, g, true, x, y)
    ensures d == Picture(rows, cols, g, x == oldX && y == oldY, oldX, oldY) <==> (x == oldX && y == oldY) || g[c].fg == g[c].bg
  {
    hide At;
    assert d == g[c := Swapped(g[c])];
    if g[c].fg == g[c].bg { assert Swapped(g[c]) == g[c]; } else { assert d[c] != g[c]; }
  }

  class FbTerm {
    const rows: nat
    const cols: nat
    const grid: array<Cell>
    const queue: array<Item>
    const queueMap: array<int>    // position in the queue, or NULL
    var queueI: nat
    var cursorX: Word
    var cursorY: Word
    var oldX: Word
    var oldY: Word
    var fg: Colour
    var bg: Colour
    var savedFg: Colour
    var savedBg: Colour
    var savedX: Word
    var savedY: Word
    // fields of flanterm_context
    var cursorOn: bool
    var scrollOn: bool
    var top: nat
    var bottom: nat
    ghost var displayed: seq<Cell>
    ghost var shown: bool      // the cursor image was drawn by the last flush

    ghost predicate Shape()
      reads this
    {
      && 0 < rows && 0 < cols && rows * cols < TWO64 && top < bottom <= rows
      && grid.Length == rows * cols && queue.Length == rows * cols && queueMap.Length == rows * cols
      && queueI <= rows * cols
    }

    ghost predicate Valid()
      reads this, grid, queue, queueMap
    {
      && Shape()
      && Linked(rows, cols, queue[..queueI], queueMap[..])
      && displayed == Picture(rows, cols, grid[..], shown, oldX, oldY)
    }

    /** The screen that the grid and the queue stand for. */
    ghost function Abs(): (s: Screen)
      requires Valid()
      reads this, grid, queue, queueMap
      ensures Ok(s)
    {
      Screen(rows, cols, Overlay(grid[..], queue[..queueI], queueMap[..]), cursorX, cursorY, fg, bg, top, bottom, scrollOn)
    }

    /** The buffers as flanterm_fb_init sets them up, with the margins of flanterm_context_reinit. */
    constructor (rows: nat, cols: nat, fg: Colour)
      requires 0 < rows && 0 < cols && rows * cols < TWO64
      ensures Valid() && this.rows == rows && this.cols == cols
      ensures Abs() == Screen(rows, cols, Blanks(rows * cols, Cell(0x20, fg, 0xFFFF_FFFF)), 0, 0, fg, 0xFFFF_FFFF, 0, rows, true)
      ensures cursorOn && displayed == Picture(rows, cols, Abs().view, true, 0, 0)
      ensures savedFg == 0 && savedBg == 0 && savedX == 0 && savedY == 0
      ensures fresh(grid) && fresh(queue) && fresh(queueMap)
    {
      hide Linked, Overlay, Picture, At;
      this.rows, this.cols, this.fg, bg := rows, cols, fg, 0xFFFF_FFFF;
      var blank := Cell(0x20, fg, 0xFFFF_FFFF);
      grid := new Cell[rows * cols](_ => blank);
      queue := new Item[rows * cols](_ => Item(0, 0, Cell(0, 0, 0)));
      queueMap := new int[rows * cols](_ => NULL);
      queueI, cursorX, cursorY, oldX, oldY := 0, 0, 0, 0, 0;
      savedFg, savedBg, savedX, savedY := 0, 0, 0, 0;
      top, bottom, scrollOn, cursorOn := 0, rows, true, true;
      displayed, shown := Blanks(rows * cols, blank), false;
      new;
      assert grid[..] == Blanks(rows * cols, blank);
      StartsBlank();
      FullRefresh();
      NothingPending();
    }

    lemma StartsBlank()
      requires Shape() && queueI == 0 && (forall i :: 0 <= i < rows * cols ==> queueMap[i] == NULL)
      requires !shown && displayed == grid[..] && cursorX == oldX && cursorY == oldY
      ensures Valid() && Abs().view == grid[..] && RefreshSafe()
    {
      hide At;
    }

    lemma NothingPending()
      requires Valid() && queueI == 0
      ensures Abs().view == grid[..]
    {
      hide At, Picture;
    }

    /** push_to_queue */
    method Push(c: Cell, x: nat, y: nat)
      requires Valid()
      modifies `queueI, queue, queueMap
      ensures Valid() && Abs() == Plot(old(Abs()), c, x, y)
    {
      hide Linked, Overlay;
      if x >= cols || y >= rows { return; }
      AtInside(rows, cols, x, y);
      var i := y * cols + x;
      ghost var items, ix := queue[..queueI], queueMap[..];
      EntryIs(i);
      if queueMap[i] == NULL {
        if grid[i] == c {
          assert Abs().view == old(Abs()).view[i := c];
          return;
        }
        RoomLeft(rows, cols, items, ix);
        AppendItem(rows, cols, grid[..], items, ix, Item(x, y, c));
        queue[queueI] := Item(x, y, c);
        queueMap[i] := queueI;
        queueI := queueI + 1;
        assert queue[..queueI] == items + [Item(x, y, c)];
      } else {
        ReplaceItem(rows, cols, grid[..], items, ix, i, c);
        var q := queueMap[i];
        queue[q] := queue[q].(cell := c);
        assert queue[..queueI] == items[q := items[q].(cell := c)];
      }
    }

    lemma EntryIs(i: nat)
      requires Valid() && i < rows * cols
      ensures queueMap[i] == NULL || 0 <= queueMap[i] < queueI
      ensures Abs().view[i] == if queueMap[i] == NULL then grid[i] else queue[queueMap[i]].cell
    {
      assert EntryOk(cols, queue[..queueI], queueMap[..], i);
    }

    /** The cell that the loops of the backend read: the pending one if there is one. */
    method Read(i: nat) returns (c: Cell)
      requires Valid() && i < |Abs().view|
      ensures c == Abs().view[i]
    {
      EntryIs(i);
      var q := queueMap[i];
      if q != NULL { c := queue[q].cell; } else { c := grid[i]; }
    }

    /** push_to_queue as the loops over cell indices call it. */
    method PushAt(c: Cell, i: nat)
      requires Valid() && i < |Abs().view|
      modifies `queueI, queue, queueMap
      ensures Valid() && Abs() == old(Abs()).(view := old(Abs()).view[i := c])
    {
      hide Linked, Overlay, At, Picture;
      AtOfIndex(rows, cols, i);
      Push(c, i % cols, i / cols);
    }

    /** Writes blanks to `n` cells from index lo on. */
    method BlankRow(y: nat, ghost lo: nat)
      requires Valid() && y < rows && lo == y * cols && lo + cols <= rows * cols
      modifies `queueI, queue, queueMap
      ensures Valid() && Abs() == old(Abs()).(view := Filled(old(Abs()).view, lo, cols, Space(old(Abs()))))
    {
      hide Linked, Overlay, Picture, Filled, Valid;
      ghost var s := Abs();
      Sizes();
      var empty := Cell(0x20, fg, bg);
      var i := 0;
      FillNothing(s.view, lo, empty);
      while i < cols
        invariant i <= cols && Valid()
        invariant Abs() == s.(view := Filled(s.view, lo, i, empty))
      {
        FillStep(s.view, lo, i, empty);
        Push(empty, i, y);
        i := i + 1;
      }
    }

    lemma Sizes()
      requires Valid()
      ensures 0 < cols && 0 < rows && |Abs().view| == rows * cols && top < bottom <= rows && queueI <= rows * cols
      ensures 0 <= top * cols && top * cols + cols <= bottom * cols <= rows * cols
      ensures (top + 1) * cols == top * cols + cols && (bottom - 1) * cols == bottom * cols - cols
      ensures rows < TWO64 && cols < TWO64
    {
      hide Linked, Overlay, Picture;
      S.Sides(Abs());
      RowRange(rows, cols, top, bottom);
    }

    lemma ScrollIs(s: Screen)
      requires Ok(s)
      ensures s.top * s.cols + s.cols <= s.bottom * s.cols <= |s.view|
      ensures S.Scroll(s) == s.(view := ShiftUp(s.view, s.top * s.cols, s.bottom * s.cols, s.cols, Space(s)))
    {
      RowRange(s.rows, s.cols, s.top, s.bottom);
    }

    method Scroll()
      requires Valid()
      modifies `queueI, queue, queueMap
      ensures Valid() && Abs() == S.Scroll(old(Abs()))
    {
      hide Linked, Overlay, Picture, Valid, MovedUp, ShiftUp, Filled, Ok, S.Scroll;
      ghost var s, v := Abs(), Abs().view;
      Sizes();
      ghost var lo, hi := top * cols, bottom * cols;
      MoveNothing(v, lo, hi, cols);
      var i := (top + 1) * cols;
      while i < bottom * cols
        invariant lo + cols <= i <= hi && Valid()
        invariant Abs() == s.(view := MovedUp(v, lo, i, cols))
      {
        MoveUpStep(v, lo, i, cols);
        var c := Read(i);
        PushAt(c, i - cols);
        i := i + 1;
      }
      ShiftUpDone(v, lo, hi, cols, Space(s));
      BlankRow(bottom - 1, hi - cols);
      ScrollIs(s);
    }

    method RevScroll()
      requires Valid()
      modifies `queueI, queue, queueMap
      ensures Valid() && Abs() == S.RevScroll(old(Abs()))
    {
      hide Linked, Overlay, Picture, S.RevScrollFrom, Ok;
      Sizes();
      RevScrollFrom(top);
    }

    lemma FromRow(s: Screen, from: nat)
      requires Ok(s) && from < s.rows
      ensures 0 <= from * s.cols && from * s.cols + s.cols <= |s.view| == s.rows * s.cols
      ensures (s.bottom - 1) * s.cols == s.bottom * s.cols - s.cols && 0 < s.cols
      ensures from < s.bottom ==> from * s.cols + s.cols <= s.bottom * s.cols <= |s.view|
      ensures from >= s.bottom ==> s.bottom * s.cols - s.cols - 1 < from * s.cols
      ensures S.RevScrollFrom(s, from) ==
              s.(view := if from < s.bottom then ShiftDown(s.view, from * s.cols, s.bottom * s.cols, s.cols, Space(s))
                         else Filled(s.view, from * s.cols, s.cols, Space(s)))
    {
      hide ShiftDown, Filled;
      RowRange(s.rows, s.cols, from, from + 1);
      RowRange(s.rows, s.cols, s.top, s.bottom);
      if from < s.bottom { RowRange(s.rows, s.cols, from, s.bottom); } else { MulMono(s.bottom, from, s.cols); }
    }

    /**
     * The copying loop of revscroll from cell `start` down to `lo`.  i stays an int
     * here, so the unsigned wrap-around below 0 that the C loop tests for is i == -1.
     */
    method CopyDown(lo: nat, start: int, ghost hi: nat)
      requires Valid() && 0 < cols && lo + cols <= hi <= |Abs().view| && start == hi - cols - 1
      modifies `queueI, queue, queueMap
      ensures Valid() && Abs() == old(Abs()).(view := MovedDown(old(Abs()).view, lo, hi, cols))
    {
      hide Linked, Overlay, Picture, Valid, Abs, MovedDown, Ok;
      ghost var s, v := Abs(), Abs().view;
      MoveNothing(v, lo, hi, cols);
      var i := start;
      while i != -1 && i >= lo
        invariant Valid() && lo - 1 <= i <= start
        invariant Abs() == s.(view := MovedDown(v, i + 1, hi, cols))
      {
        MoveDownStep(v, i, hi, cols);
        var c := Read(i);
        PushAt(c, i + cols);
        i := i - 1;
      }
    }

    /** revscroll with the given top margin; CSI L calls it with the cursor row. */
    method RevScrollFrom(from: nat)
      requires Valid() && from < rows
      modifies `queueI, queue, queueMap
      ensures Valid() && Abs() == S.RevScrollFrom(old(Abs()), from)
    {
      hide Linked, Overlay, Picture, Valid, MovedDown, ShiftDown, Filled, Ok, S.RevScrollFrom;
      ghost var s, v := Abs(), Abs().view;
      Sizes();
      FromRow(s, from);
      if from < bottom {   // otherwise the loop has no rounds
        CopyDown(from * cols, (bottom - 1) * cols - 1, bottom * cols);
        ShiftDownDone(v, from * cols, bottom * cols, cols, Space(s));
      }
      BlankRow(from, from * cols);
    }

    method Clear(move: bool)
      requires Valid()
      modifies `queueI, queue, queueMap, `cursorX, `cursorY
      ensures Valid() && Abs() == S.Clear(old(Abs()), move)
    {
      hide Linked, Overlay, Picture, Filled;
      ghost var s, v := Abs(), Abs().view;
      var empty := Cell(0x20, fg, bg);
      Sizes();
      FillNothing(v, 0, empty);
      var i := 0;
      while i < rows * cols
        invariant i <= rows * cols && Valid()
        invariant Abs() == s.(view := Filled(v, 0, i, empty))
      {
        FillStep(v, 0, i, empty);
        PushAt(empty, i);
        i := i + 1;
      }
      FillAll(v, empty);
      if move { cursorX, cursorY := 0, 0; }
    }

    /** draw_cursor; also takes the pending change of that cell off the map. */
    method DrawCursor(ghost v: seq<Cell>, ghost was: Option<nat>) returns (ghost drawn: Option<nat>)
      requires Shape() && Draining(rows, cols, queue[..queueI], queueMap[..], None, 0, grid[..], v)
      requires Drawn(displayed, grid[..], v, None, was)
      modifies grid, queueMap, `displayed
      ensures drawn == CellAt(rows, cols, cursorX, cursorY)
      ensures drawn.Some? ==> drawn.value < queueMap.Length && queueMap[..] == old(queueMap[..])[drawn.value := NULL]
      ensures Draining(rows, cols, queue[..queueI], queueMap[..], drawn, 0, grid[..], v)
      ensures Drawn(displayed, grid[..], v, drawn, was)
    {
      hide Draining, DrainItem, At;
      drawn := None;
      if cursorX >= cols || cursorY >= rows { return; }
      AtInside(rows, cols, cursorX, cursorY);
      AtUnfold(cursorX, cursorY);
      var i := cursorX + cursorY * cols;
      drawn := Some(i);
      DrainCursor(rows, cols, queue[..queueI], queueMap[..], grid[..], v, i);
      var q := queueMap[i];
      var c := if q != NULL then queue[q].cell else grid[i];
      displayed := displayed[i := Cell(c.ch, c.bg, c.fg)];
      if q != NULL {
        grid[i] := queue[q].cell;
        queueMap[i] := NULL;
      }
    }

    lemma AtUnfold(x: nat, y: nat)
      ensures At(cols, x, y) == y * cols + x
    {
    }

    /** One round of the flush loop. */
    method FlushItem(i: nat, ghost drawn: Option<nat>, ghost was: Option<nat>, ghost v: seq<Cell>)
      requires Shape() && i < queueI && Draining(rows, cols, queue[..queueI], queueMap[..], drawn, i, grid[..], v)
      requires Drawn(displayed, grid[..], v, drawn, was)
      modifies grid, queueMap, `displayed
      ensures Draining(rows, cols, queue[..queueI], queueMap[..], drawn, i + 1, grid[..], v)
      ensures Drawn(displayed, grid[..], v, drawn, was)
    {
      hide Linked, Overlay, Draining, DrainItem, At;
      DrainStep(rows, cols, queue[..queueI], queueMap[..], drawn, i, grid[..], v);
      var q := queue[i];
      AtUnfold(q.x, q.y);
      var offset := q.y * cols + q.x;
      if queueMap[offset] == NULL { return; }
      displayed := displayed[offset := q.cell];
      grid[offset] := q.cell;
      queueMap[offset] := NULL;
    }

    /** draw_cursor and the flush loop. */
    method Drain(ghost v: seq<Cell>)
      requires Valid() && v == Abs().view
      modifies grid, queueMap, `displayed
      ensures Shape() && grid[..] == v && (forall j :: 0 <= j < queueMap.Length ==> queueMap[j] == NULL)
      ensures Linked(rows, cols, [], queueMap[..]) && Overlay(grid[..], [], queueMap[..]) == v
      ensures Drawn(displayed, v, v, if cursorOn then CellAt(rows, cols, cursorX, cursorY) else None, CellAt(rows, cols, oldX, oldY))
    {
      hide Linked, Overlay, Draining, DrainItem, Drawn, At;
      ghost var items := queue[..queueI];
      ghost var drawn, was := None, CellAt(rows, cols, oldX, oldY);
      DrainStart(rows, cols, items, queueMap[..], grid[..]);
      OldPicture(rows, cols, grid[..], v, shown, oldX, oldY);
      if cursorOn { drawn := DrawCursor(v, was); }
      var i := 0;
      while i < queueI
        invariant i <= queueI && Shape() && queue[..queueI] == items
        invariant Draining(rows, cols, items, queueMap[..], drawn, i, grid[..], v)
        invariant Drawn(displayed, grid[..], v, drawn, was)
      {
        FlushItem(i, drawn, was, v);
        i := i + 1;
      }
      DrainDone(rows, cols, items, queueMap[..], drawn, grid[..], v);
    }

    /** The old cursor cell is drawn from the grid unless the cursor is still there. */
    method EraseOldCursor()
      requires Shape() && |displayed| == grid.Length
      modifies `displayed
      ensures var was := CellAt(rows, cols, oldX, oldY);
              && (was.Some? ==> was.value < grid.Length)
              && displayed == if (oldX != cursorX || oldY != cursorY || !cursorOn) && was.Some?
                              then old(displayed)[was.value := grid[was.value]] else old(displayed)
    {
      if oldX < cols && oldY < rows { AtInside(rows, cols, oldX, oldY); }
      if (oldX != cursorX || oldY != cursorY) || !cursorOn {
        if oldX < cols && oldY < rows {
          displayed := displayed[oldX + oldY * cols := grid[oldX + oldY * cols]];
        }
      }
    }

    /**
     * double_buffer_flush: the view becomes the grid, nothing stays pending, and the
     * display shows the view with the cursor image exactly where it should be.
     */
    method Flush()
      requires Valid()
      modifies grid, queueMap, `displayed, `oldX, `oldY, `queueI, `shown
      ensures Valid() && Abs() == old(Abs())
      ensures grid[..] == Abs().view && queueI == 0 && forall j :: 0 <= j < queueMap.Length ==> queueMap[j] == NULL
      ensures displayed == Picture(rows, cols, Abs().view, cursorOn, cursorX, cursorY)
    {
      hide Linked, Overlay, Draining, DrainItem, Drawn, Picture, CellAt;
      ghost var v := Abs().view;
      Drain(v);
      ghost var d := displayed;
      DrawnSize(d, v, v, if cursorOn then CellAt(rows, cols, cursorX, cursorY) else None, CellAt(rows, cols, oldX, oldY));
      EraseOldCursor();
      LastPicture(rows, cols, v, d, displayed, cursorOn, cursorX, cursorY, oldX, oldY);
      shown := cursorOn;
      oldX, oldY := cursorX, cursorY;
      queueI := 0;
      assert queue[..queueI] == [];
    }

    /** full_refresh may be called: no change is pending under a visible cursor that has moved or is about to be drawn. */
    ghost predicate RefreshSafe()
      requires Shape()
      reads this, grid, queueMap
    {
      var c := CellAt(rows, cols, cursorX, cursorY);
      cursorOn && c.Some? && c.value < rows * cols ==>
        queueMap[c.value] == NULL && ((cursorX == oldX && cursorY == oldY) || grid[c.value].fg == grid[c.value].bg)
    }

    method PlotAll()
      requires Valid()
      modifies `displayed
      ensures displayed == grid[..]
    {
      var i := 0;
      while i < rows * cols
        invariant i <= rows * cols == |displayed|
        invariant displayed[..i] == grid[..i]
      {
        displayed := displayed[i := grid[i]];
        i := i + 1;
      }
    }

    /**
     * full_refresh draws everything, but drops the pending change under the cursor
     * from the map and not from the queue, and does not note where it drew the cursor.
     */
    method FullRefresh()
      requires Valid()
      modifies grid, queueMap, `displayed, `shown
      ensures Valid() <==> old(RefreshSafe())
      ensures old(RefreshSafe()) ==> Abs() == old(Abs()) && displayed == Picture(rows, cols, grid[..], cursorOn, cursorX, cursorY)
    {
      hide Overlay, Draining, DrainItem, At, Linked;
      ghost var v, ix, items, g := Abs().view, queueMap[..], queue[..queueI], grid[..];
      PlotAll();
      DrainStart(rows, cols, items, ix, g);
      if cursorOn {
        ghost var drawn := DrawCursor(v, None);
        RefreshDone(rows, cols, items, ix, queueMap[..], drawn, g, grid[..], v);
        if drawn.Some? { RefreshPicture(rows, cols, displayed, grid[..], v, drawn.value, cursorX, cursorY, oldX, oldY); }
      }
      shown := cursorOn && cursorX == oldX && cursorY == oldY;
    }

    method SetCursorPos(x: Word, y: Word)
      requires Valid()
      modifies `cursorX, `cursorY
      ensures Valid() && Abs() == SetCursor(old(Abs()), x, y)
    {
      hide Linked, Overlay, At, Picture;
      Sides(Abs());
      var x', y' := x, y;
      if x >= cols { if x % 0x1_0000_0000 >= 0x8000_0000 { x' := 0; } else { x' := cols - 1; } }
      if y >= rows { if y % 0x1_0000_0000 >= 0x8000_0000 { y' := 0; } else { y' := rows - 1; } }
      cursorX, cursorY := x', y';
    }

    method GetCursorPos() returns (x: nat, y: nat)
      requires Valid()
      ensures x < cols && y < rows && x == GetX(Abs()) && y == GetY(Abs())
    {
      x := if cursorX >= cols then cols - 1 else cursorX;
      y := if cursorY >= rows then rows - 1 else cursorY;
    }

    method MoveCharacter(newX: nat, newY: nat, oldX: nat, oldY: nat)
      requires Valid()
      modifies `queueI, queue, queueMap
      ensures Valid() && Abs() == MoveCell(old(Abs()), newX, newY, oldX, oldY)
    {
      hide Linked, Overlay, At, Picture, Valid, Ok;
      Sizes();
      if oldX >= cols || oldY >= rows || newX >= cols || newY >= rows { return; }
      AtInside(rows, cols, oldX, oldY);
      AtUnfold(oldX, oldY);
      var c := Read(oldX + oldY * cols);
      Push(c, newX, newY);
    }

    /** The first half of raw_putchar: the deferred wrap. */
    method WrapCursor()
      requires Valid()
      modifies `queueI, queue, queueMap, `cursorX, `cursorY
      ensures Valid() && Abs() == Wrap(old(Abs()))
    {
      hide Linked, Overlay, At, Picture, S.Scroll, Ok;
      Sizes();
      if cursorX >= cols && (cursorY < bottom - 1 || scrollOn) {
        cursorX := 0;
        cursorY := (cursorY + 1) % TWO64;
        if cursorY == bottom {
          cursorY := cursorY - 1;
          Scroll();
        }
        if cursorY >= cols { cursorY := cols - 1; }
      }
    }

    method RawPutchar(c: Byte)
      requires Valid()
      modifies `queueI, queue, queueMap, `cursorX, `cursorY
      ensures Valid() && Abs() == RawPut(old(Abs()), c)
    {
      hide Linked, Overlay, At, Picture, Wrap, Ok;
      WrapCursor();
      Push(Cell(c, fg, bg), cursorX, cursorY);
      cursorX := (cursorX + 1) % TWO64;
    }

    // ----- colours, saved state and the context's fields -----

    method SetTextFg(c: Colour)
      requires Valid()
      modifies `fg
      ensures Valid() && fg == c && Abs() == old(Abs()).(fg := c)
    {
      fg := c;
    }

    method SetTextBg(c: Colour)
      requires Valid()
      modifies `bg
      ensures Valid() && bg == c && Abs() == old(Abs()).(bg := c)
    {
      bg := c;
    }

    method SwapPalette()
      requires Valid()
      modifies `fg, `bg
      ensures Valid() && fg == old(bg) && bg == old(fg) && Abs() == old(Abs()).(fg := old(bg), bg := old(fg))
    {
      fg, bg := bg, fg;
    }

    method SaveState()
      requires Valid()
      modifies `savedFg, `savedBg, `savedX, `savedY
      ensures Valid() && Abs() == old(Abs()) && (savedFg, savedBg, savedX, savedY) == (fg, bg, cursorX, cursorY)
    {
      savedFg, savedBg, savedX, savedY := fg, bg, cursorX, cursorY;
    }

    method RestoreState()
      requires Valid()
      modifies `fg, `bg, `cursorX, `cursorY
      ensures Valid() && (fg, bg, cursorX, cursorY) == (savedFg, savedBg, savedX, savedY)
      ensures Abs() == old(Abs()).(fg := savedFg, bg := savedBg, x := savedX, y := savedY)
    {
      fg, bg, cursorX, cursorY := savedFg, savedBg, savedX, savedY;
    }

    method SetMargins(t: nat, b: nat)
      requires Valid() && t < b <= rows
      modifies `top, `bottom
      ensures Valid() && top == t && bottom == b && Abs() == old(Abs()).(top := t, bottom := b)
    {
      top, bottom := t, b;
    }

    method SetScrolling(on: bool)
      requires Valid()
      modifies `scrollOn
      ensures Valid() && scrollOn == on && Abs() == old(Abs()).(scrollOn := on)
    {
      scrollOn := on;
    }

    method SetCursorOn(on: bool)
      requires Valid()
      modifies `cursorOn
      ensures Valid() && Abs() == old(Abs()) && cursorOn == on
    {
      cursorOn := on;
    }

    /** Any call of the context layer into the backend. */
    method Perform(op: Op)
      requires Valid()
      modifies this, grid, queue, queueMap
      ensures Valid() && Abs() == Apply(old(Abs()), op) && cursorOn == (if op.ShowCursor? then op.on else old(cursorOn))
      ensures op.Flush? ==> displayed == Picture(rows, cols, Abs().view, cursorOn, cursorX, cursorY)
    {
      hide Linked, Overlay, Picture, S.Scroll, S.RevScroll, S.Clear, Plot, Wrap;
      match op
      case Put(c) => RawPutchar(c);
      case ScrollUp => Scroll();
      case ScrollDown => RevScroll();
      case ClearAll(move) => Clear(move);
      case GoTo(x, y) => SetCursorPos(x, y);
      case Copy(nx, ny, ox, oy) => MoveCharacter(nx, ny, ox, oy);
      case Colours(f, b) => fg, bg := f, b;
      case Margins(t, b) => if t < b <= rows { top, bottom := t, b; }
      case Scrolling(on) => scrollOn := on;
      case ShowCursor(on) => cursorOn := on;
      case Flush => Flush();
    }

    /**
     * Any run of calls: grid, queue and map together always stand for the plain
     * screen, and once flushed the display shows it, with the cursor image on the
     * cursor cell and nowhere else.
     */
    method Run(ops: seq<Op>)
      requires Valid()
      modifies this, grid, queue, queueMap
      ensures Valid() && Abs() == ApplyAll(old(Abs()), ops)
      ensures displayed == Picture(rows, cols, Abs().view, cursorOn, cursorX, cursorY)
    {
      hide Linked, Overlay, Picture, Apply;
      ghost var s := Abs();
      var i := 0;
      assert ops[..0] == [];
      while i < |ops|
        invariant i <= |ops| && Valid() && Abs() == ApplyAll(s, ops[..i])
      {
        assert ops[..i + 1][..i] == ops[..i];
        Perform(ops[i]);
        i := i + 1;
      }
      assert ops[..i] == ops;
      Flush();
    }
  }
}
