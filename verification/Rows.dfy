/** Views half way through the copying and filling loops of src/flanterm/backends/fb.c and flanterm.c. */
module Rows {
  import opened Screen

  lemma FillNothing(v: seq<Cell>, lo: nat, c: Cell)
    requires lo <= |v|
    ensures Filled(v, lo, 0, c) == v
  {
  }

  lemma FillStep(v: seq<Cell>, lo: nat, n: nat, c: Cell)
    requires lo + n < |v|
    ensures Filled(v, lo, n, c)[lo + n := c] == Filled(v, lo, n + 1, c)
  {
  }

  lemma FillAll(v: seq<Cell>, c: Cell)
    ensures Filled(v, 0, |v|, c) == Blanks(|v|, c)
  {
  }

  /** The cells below index i have been copied up by one row. */
  function MovedUp(v: seq<Cell>, lo: nat, i: nat, cols: nat): (r: seq<Cell>)
    requires lo + cols <= i <= |v|
    ensures |r| == |v|
  {
    v[..lo] + v[lo + cols..i] + v[i - cols..]
  }

  /** The cells from index i on have been copied down by one row. */
  function MovedDown(v: seq<Cell>, i: nat, hi: nat, cols: nat): (r: seq<Cell>)
    requires i + cols <= hi <= |v|
    ensures |r| == |v|
  {
    v[..i + cols] + v[i..hi - cols] + v[hi..]
  }

  lemma MoveNothing(v: seq<Cell>, lo: nat, hi: nat, cols: nat)
    requires lo + cols <= hi <= |v|
    ensures MovedUp(v, lo, lo + cols, cols) == v && MovedDown(v, hi - cols, hi, cols) == v
  {
  }

  lemma MoveUpStep(v: seq<Cell>, lo: nat, i: nat, cols: nat)
    requires lo + cols <= i < |v|
    ensures MovedUp(v, lo, i, cols)[i] == v[i] && MovedUp(v, lo, i, cols)[i - cols := v[i]] == MovedUp(v, lo, i + 1, cols)
  {
  }

  lemma MoveDownStep(v: seq<Cell>, i: nat, hi: nat, cols: nat)
    requires i + cols < hi <= |v|
    ensures MovedDown(v, i + 1, hi, cols)[i] == v[i] && MovedDown(v, i + 1, hi, cols)[i + cols := v[i]] == MovedDown(v, i, hi, cols)
  {
  }

  lemma ShiftUpDone(v: seq<Cell>, lo: nat, hi: nat, cols: nat, c: Cell)
    requires lo + cols <= hi <= |v|
    ensures Filled(MovedUp(v, lo, hi, cols), hi - cols, cols, c) == ShiftUp(v, lo, hi, cols, c)
  {
  }

  lemma ShiftDownDone(v: seq<Cell>, lo: nat, hi: nat, cols: nat, c: Cell)
    requires lo + cols <= hi <= |v|
    ensures Filled(MovedDown(v, lo, hi, cols), lo, cols, c) == ShiftDown(v, lo, hi, cols, c)
  {
  }
}
