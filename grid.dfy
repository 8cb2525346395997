/** The grid: a flat row-major buffer of `height * width` characters, the cell
    at row `y` and column `x` stored at index `y * width + x`, and the count of
    live neighbours of a cell on that bounded, non-wrapping grid. */
module Grid {
  import opened Rule

  /** A buffer holds exactly one character per cell. */
  predicate Shaped(field: seq<char>, height: nat, width: nat) {
    |field| == height * width
  }

  predicate InGrid(height: nat, width: nat, y: int, x: int) {
    0 <= y < height && 0 <= x < width
  }

  lemma MulMonotone(a: int, b: int, c: nat)
    requires a <= b
    ensures a * c <= b * c
  {
    assert b * c - a * c == (b - a) * c;
  }

  /** Every in-grid coordinate addresses a position of the buffer. */
  lemma IndexInRange(height: nat, width: nat, y: int, x: int)
    requires InGrid(height, width, y, x)
    ensures 0 <= y * width + x < height * width
  {
    assert y * width >= 0;
    MulMonotone(y + 1, height, width);
  }

  /** The row after row `y` starts `width` cells further on, inside the
      buffer. */
  lemma RowStep(height: nat, width: nat, y: int)
    requires 0 <= y < height
    ensures (y + 1) * width == y * width + width && (y + 1) * width <= height * width
  {
    MulMonotone(y + 1, height, width);
  }

  /** The character at row `y`, column `x`. */
  function At(field: seq<char>, height: nat, width: nat, y: int, x: int): char
    requires Shaped(field, height, width) && InGrid(height, width, y, x)
  {
    IndexInRange(height, width, y, x);
    field[y * width + x]
  }

  /** 1 when `(y, x)` lies inside the grid and holds a live cell, 0 otherwise;
      any character other than the live symbol is a dead cell. */
  function Live(field: seq<char>, height: nat, width: nat, y: int, x: int): nat
    requires Shaped(field, height, width)
  {
    if InGrid(height, width, y, x) && At(field, height, width, y, x) == Alive then 1 else 0
  }

  /** The live cells among the three positions of row `r` in columns
      `x - 1` to `x + 1`. */
  function WindowRow(field: seq<char>, height: nat, width: nat, r: int, x: int): nat
    requires Shaped(field, height, width)
  {
    Live(field, height, width, r, x - 1) + Live(field, height, width, r, x)
    + Live(field, height, width, r, x + 1)
  }

  /** The live neighbours of `(y, x)`: the live in-grid cells of the 3x3
      window centred on it, less the cell itself. */
  function LiveNeighbours(field: seq<char>, height: nat, width: nat, y: int, x: int): nat
    requires Shaped(field, height, width)
  {
    WindowRow(field, height, width, y - 1, x) + WindowRow(field, height, width, y, x)
    + WindowRow(field, height, width, y + 1, x) - Live(field, height, width, y, x)
  }

  /** The marker for a neighbour position that lies off the grid. */
  const Edge: char := '!'

  /** A neighbour character: read from the buffer when its guard holds,
      the edge marker otherwise. */
  function Read(field: seq<char>, guard: bool, index: int): char
    requires guard ==> 0 <= index < |field|
  {
    if guard then field[index] else Edge
  }

  function Tally(c: char): nat {
    if c == Alive then 1 else 0
  }

  /** The neighbour count as the program computes it: each of the eight
      neighbour characters starts as the edge marker and is read from the
      buffer only when its guard says it is on the grid; the live ones are
      then tallied, so the edge marker and every dead symbol count nothing.
      The top guard `base - width >= 0` means `y >= 1`, the left guard
      `x != 0` and the right guard `x + 1 != width` keep the reads inside
      the row band, and the bottom guard is `base + width < height * width`,
      which means `y + 1 < height`. The program writes that guard with `<=`;
      BottomGuardAsWrittenOverreads shows what it then reads. */
  function CheckNeighbours(field: seq<char>, width: nat, height: nat, y: int, x: int): (n: int)
    requires Shaped(field, height, width) && InGrid(height, width, y, x)
    ensures 0 <= n <= 8
    ensures n == LiveNeighbours(field, height, width, y, x)
  {
    var base := y * width + x;
    TopGuard(height, width, y, x);
    BottomGuard(height, width, y, x);
    var top := base - width >= 0;
    var bottom := base + width < height * width;
    ReadTally(field, height, width, y - 1, x - 1, top && x != 0, base - width - 1);
    ReadTally(field, height, width, y - 1, x, top, base - width);
    ReadTally(field, height, width, y - 1, x + 1, top && x + 1 != width, base - width + 1);
    ReadTally(field, height, width, y, x - 1, x != 0, base - 1);
    ReadTally(field, height, width, y, x + 1, x + 1 != width, base + 1);
    ReadTally(field, height, width, y + 1, x - 1, bottom && x != 0, base + width - 1);
    ReadTally(field, height, width, y + 1, x, bottom, base + width);
    ReadTally(field, height, width, y + 1, x + 1, bottom && x + 1 != width, base + width + 1);
    var topLeft := Read(field, top && x != 0, base - width - 1);
    var topMid := Read(field, top, base - width);
    var topRight := Read(field, top && x + 1 != width, base - width + 1);
    var midLeft := Read(field, x != 0, base - 1);
    var midRight := Read(field, x + 1 != width, base + 1);
    var bottomLeft := Read(field, bottom && x != 0, base + width - 1);
    var bottomMid := Read(field, bottom, base + width);
    var bottomRight := Read(field, bottom && x + 1 != width, base + width + 1);
    NeighbourSum(field, height, width, y, x);
    Tally(topLeft) + Tally(topMid) + Tally(topRight) + Tally(midLeft)
    + Tally(midRight) + Tally(bottomLeft) + Tally(bottomMid) + Tally(bottomRight)
  }

  /** The live neighbours are the eight positions around the cell. */
  lemma NeighbourSum(field: seq<char>, height: nat, width: nat, y: int, x: int)
    requires Shaped(field, height, width)
    ensures LiveNeighbours(field, height, width, y, x)
         == Live(field, height, width, y - 1, x - 1) + Live(field, height, width, y - 1, x)
          + Live(field, height, width, y - 1, x + 1) + Live(field, height, width, y, x - 1)
          + Live(field, height, width, y, x + 1) + Live(field, height, width, y + 1, x - 1)
          + Live(field, height, width, y + 1, x) + Live(field, height, width, y + 1, x + 1)
  {
  }

  /** A guarded read that is taken exactly when `(r, c)` is on the grid, at
      the index of `(r, c)`, tallies as the live-cell test of `(r, c)`. */
  lemma ReadTally(field: seq<char>, height: nat, width: nat, r: int, c: int, guard: bool, index: int)
    requires Shaped(field, height, width)
    requires guard <==> InGrid(height, width, r, c)
    requires guard ==> index == r * width + c
    ensures guard ==> 0 <= index < |field|
    ensures Tally(Read(field, guard, index)) == Live(field, height, width, r, c)
  {
    if guard {
      IndexInRange(height, width, r, c);
    }
  }

  /** The top guard `base - width >= 0` holds exactly for the cells below the
      first row. */
  lemma TopGuard(height: nat, width: nat, y: int, x: int)
    requires InGrid(height, width, y, x)
    ensures (y * width + x) - width >= 0 <==> y >= 1
    ensures (y * width + x) - width == (y - 1) * width + x
  {
    if y >= 1 {
      assert (y - 1) * width >= 0;
    }
  }

  /** The bottom guard `base + width < height * width` holds exactly for the
      cells above the last row. */
  lemma BottomGuard(height: nat, width: nat, y: int, x: int)
    requires InGrid(height, width, y, x)
    ensures (y * width + x) + width < height * width <==> y + 1 < height
    ensures (y * width + x) + width == (y + 1) * width + x
  {
    if y + 1 < height {
      IndexInRange(height, width, y + 1, x);
    } else {
      assert (y + 1) * width == height * width;
    }
  }

  /** The bottom guard as GameOfLife.c writes it, with `<=`. */
  predicate BottomGuardAsWritten(height: nat, width: nat, y: int, x: int) {
    (y * width + x) + width <= height * width
  }

  /** The guard as written admits exactly one cell of the last row, the
      first one. There the bottom-middle read is at index `height * width`,
      one past the end of the buffer, and when the grid is wider than one
      column the bottom-right read is also taken, at `height * width + 1`. */
  lemma BottomGuardAsWrittenOverreads(height: nat, width: nat, y: int, x: int)
    requires InGrid(height, width, y, x)
    ensures BottomGuardAsWritten(height, width, y, x) <==> y + 1 < height || (y + 1 == height && x == 0)
    ensures y + 1 == height && x == 0 ==>
              BottomGuardAsWritten(height, width, y, x) && (y * width + x) + width == height * width
    ensures y + 1 == height && x == 0 && width > 1 ==>
              x + 1 != width && (y * width + x) + width + 1 == height * width + 1
  {
    BottomGuard(height, width, y, x);
  }

  /** Two buffers that agree on the in-grid neighbours of `(y, x)`: the
      cells of the 3x3 window around it other than the cell itself. */
  ghost predicate AgreeAround(f: seq<char>, g: seq<char>, height: nat, width: nat, y: int, x: int)
    requires Shaped(f, height, width) && Shaped(g, height, width)
  {
    forall r, c ::
      (InGrid(height, width, r, c) && y - 1 <= r <= y + 1 && x - 1 <= c <= x + 1 && (r, c) != (y, x)) ==>
        At(f, height, width, r, c) == At(g, height, width, r, c)
  }

  /** A neighbour position on which two buffers agree counts the same in
      both. */
  lemma LiveAgree(f: seq<char>, g: seq<char>, height: nat, width: nat, y: int, x: int, r: int, c: int)
    requires Shaped(f, height, width) && Shaped(g, height, width)
    requires AgreeAround(f, g, height, width, y, x)
    requires y - 1 <= r <= y + 1 && x - 1 <= c <= x + 1 && (r, c) != (y, x)
    ensures Live(f, height, width, r, c) == Live(g, height, width, r, c)
  {
    if InGrid(height, width, r, c) {
      assert At(f, height, width, r, c) == At(g, height, width, r, c);
    }
  }

  /** The neighbour count reads nothing but the in-grid neighbours: the cell
      itself and every cell outside the 3x3 window around it are never
      counted. */
  lemma NeighboursLocal(f: seq<char>, g: seq<char>, height: nat, width: nat, y: int, x: int)
    requires Shaped(f, height, width) && Shaped(g, height, width) && InGrid(height, width, y, x)
    requires AgreeAround(f, g, height, width, y, x)
    ensures CheckNeighbours(f, width, height, y, x) == CheckNeighbours(g, width, height, y, x)
  {
    LiveAgree(f, g, height, width, y, x, y - 1, x - 1);
    LiveAgree(f, g, height, width, y, x, y - 1, x);
    LiveAgree(f, g, height, width, y, x, y - 1, x + 1);
    LiveAgree(f, g, height, width, y, x, y, x - 1);
    LiveAgree(f, g, height, width, y, x, y, x + 1);
    LiveAgree(f, g, height, width, y, x, y + 1, x - 1);
    LiveAgree(f, g, height, width, y, x, y + 1, x);
    LiveAgree(f, g, height, width, y, x, y + 1, x + 1);
  }

  /** Two buffers that differ at most in column `c`. */
  ghost predicate AgreeOffColumn(f: seq<char>, g: seq<char>, height: nat, width: nat, c: int)
    requires Shaped(f, height, width) && Shaped(g, height, width)
  {
    forall y, x :: InGrid(height, width, y, x) && x != c ==> At(f, height, width, y, x) == At(g, height, width, y, x)
  }

  /** No wrap-around: a cell of the first column never sees the last column,
      and a cell of the last column never sees the first. */
  lemma EdgesDoNotWrap(f: seq<char>, g: seq<char>, h: seq<char>, height: nat, width: nat, y: int)
    requires Shaped(f, height, width) && Shaped(g, height, width) && Shaped(h, height, width)
    requires 0 <= y < height && width >= 3
    requires AgreeOffColumn(f, g, height, width, width - 1)
    requires AgreeOffColumn(f, h, height, width, 0)
    ensures CheckNeighbours(f, width, height, y, 0) == CheckNeighbours(g, width, height, y, 0)
    ensures CheckNeighbours(f, width, height, y, width - 1) == CheckNeighbours(h, width, height, y, width - 1)
  {
    NeighboursLocal(f, g, height, width, y, 0);
    NeighboursLocal(f, h, height, width, y, width - 1);
  }

  /** Each of the four corner cells has at most three neighbours on the
      grid. */
  lemma CornersAtMostThree(field: seq<char>, height: nat, width: nat)
    requires Shaped(field, height, width) && height >= 1 && width >= 1
    ensures CheckNeighbours(field, width, height, 0, 0) <= 3
    ensures CheckNeighbours(field, width, height, 0, width - 1) <= 3
    ensures CheckNeighbours(field, width, height, height - 1, 0) <= 3
    ensures CheckNeighbours(field, width, height, height - 1, width - 1) <= 3
  {
  }

  /** In a buffer without live cells no position counts as live. */
  lemma NoLiveAt(field: seq<char>, height: nat, width: nat, r: int, c: int)
    requires Shaped(field, height, width)
    requires forall i :: 0 <= i < |field| ==> field[i] != Alive
    ensures Live(field, height, width, r, c) == 0
  {
    if InGrid(height, width, r, c) {
      IndexInRange(height, width, r, c);
      assert At(field, height, width, r, c) == field[r * width + c];
    }
  }

  /** A buffer without live cells gives every cell zero live neighbours. */
  lemma NoLiveNoNeighbours(field: seq<char>, height: nat, width: nat, y: int, x: int)
    requires Shaped(field, height, width) && InGrid(height, width, y, x)
    requires forall i :: 0 <= i < |field| ==> field[i] != Alive
    ensures CheckNeighbours(field, width, height, y, x) == 0
  {
    NoLiveAt(field, height, width, y - 1, x - 1);
    NoLiveAt(field, height, width, y - 1, x);
    NoLiveAt(field, height, width, y - 1, x + 1);
    NoLiveAt(field, height, width, y, x - 1);
    NoLiveAt(field, height, width, y, x);
    NoLiveAt(field, height, width, y, x + 1);
    NoLiveAt(field, height, width, y + 1, x - 1);
    NoLiveAt(field, height, width, y + 1, x);
    NoLiveAt(field, height, width, y + 1, x + 1);
  }
}
