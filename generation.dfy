/** Advancing the grid: one generation computed from a snapshot into a second
    buffer and copied back in place, and a run of `steps` generations. */
module Generation {
  import opened Rule
  import opened Grid

  /** The next state of the cell at `(y, x)`: the rule applied to its
      number of live neighbours in `field` and its own state there. */
  function NextCell(field: seq<char>, height: nat, width: nat, y: int, x: int): char
    requires Shaped(field, height, width) && InGrid(height, width, y, x)
  {
    LifeOrDeath(LiveNeighbours(field, height, width, y, x), At(field, height, width, y, x))
  }

  /** Every index of a buffer is the row-major index of a cell. */
  lemma IndexCell(height: nat, width: nat, i: int)
    requires 0 <= i < height * width
    ensures width > 0 && InGrid(height, width, i / width, i % width)
    ensures i == (i / width) * width + i % width
  {
    if i / width >= height {
      MulMonotone(height, i / width, width);
    }
  }

  /** The first `n` cells of row `y` of the generation after `field`. */
  function NextRowCells(field: seq<char>, height: nat, width: nat, y: int, n: nat): (cells: seq<char>)
    requires Shaped(field, height, width) && 0 <= y < height && n <= width
    ensures |cells| == n
    ensures forall x :: 0 <= x < n ==> cells[x] == Alive || cells[x] == Dead
  {
    if n == 0 then []
    else NextRowCells(field, height, width, y, n - 1) + [NextCell(field, height, width, y, n - 1)]
  }

  /** The first `k` rows of the generation after `field`, row after row. */
  function NextRows(field: seq<char>, height: nat, width: nat, k: nat): (cells: seq<char>)
    requires Shaped(field, height, width) && k <= height
    ensures |cells| == k * width
    ensures forall i :: 0 <= i < |cells| ==> cells[i] == Alive || cells[i] == Dead
  {
    if k == 0 then []
    else
      RowStep(height, width, k - 1);
      NextRows(field, height, width, k - 1) + NextRowCells(field, height, width, k - 1, width)
  }

  lemma {:induction false} NextRowCellsAt(field: seq<char>, height: nat, width: nat, y: int, n: nat, x: int)
    requires Shaped(field, height, width) && 0 <= y < height && 0 <= x < n <= width
    ensures NextRowCells(field, height, width, y, n)[x] == NextCell(field, height, width, y, x)
  {
    if x < n - 1 {
      NextRowCellsAt(field, height, width, y, n - 1, x);
    }
  }

  lemma {:induction false} NextRowsAt(field: seq<char>, height: nat, width: nat, k: nat, y: int, x: int)
    requires Shaped(field, height, width) && k <= height && 0 <= y < k && 0 <= x < width
    ensures 0 <= y * width + x < k * width
    ensures NextRows(field, height, width, k)[y * width + x] == NextCell(field, height, width, y, x)
  {
    IndexInRange(k, width, y, x);
    RowStep(height, width, k - 1);
    var prev := NextRows(field, height, width, k - 1);
    var cells := NextRowCells(field, height, width, k - 1, width);
    assert NextRows(field, height, width, k) == prev + cells;
    if y < k - 1 {
      IndexInRange(k - 1, width, y, x);
      NextRowsAt(field, height, width, k - 1, y, x);
      assert (prev + cells)[y * width + x] == prev[y * width + x];
    } else {
      assert y * width + x == |prev| + x;
      NextRowCellsAt(field, height, width, y, width, x);
      assert (prev + cells)[|prev| + x] == cells[x];
    }
  }

  /** The generation after `field`: every cell is the rule applied to its
      live-neighbour count and its own state in `field`, so every count is
      taken from the old generation; every cell of it holds one of the two
      symbols. */
  function NextGen(field: seq<char>, height: nat, width: nat): (next: seq<char>)
    requires Shaped(field, height, width)
    ensures Shaped(next, height, width)
    ensures forall i :: 0 <= i < |next| ==> next[i] == Alive || next[i] == Dead
  {
    NextRows(field, height, width, height)
  }

  /** The cell at `(y, x)` of the next generation is the rule applied to the
      live-neighbour count of `(y, x)` and the old cell. */
  lemma NextGenCell(field: seq<char>, height: nat, width: nat, y: int, x: int)
    requires Shaped(field, height, width) && InGrid(height, width, y, x)
    ensures 0 <= y * width + x < height * width
    ensures NextGen(field, height, width)[y * width + x]
         == LifeOrDeath(CheckNeighbours(field, width, height, y, x), field[y * width + x])
  {
    NextRowsAt(field, height, width, height, y, x);
  }

  /** One generation, in place: every new cell is computed from the unchanged
      buffer into a temporary buffer, which is then copied back over `field`;
      the same buffer is returned. */
  method OneGeneration(width: nat, height: nat, field: array<char>) returns (r: array<char>)
    requires field.Length == height * width
    modifies field
    ensures r == field
    ensures field[..] == NextGen(old(field[..]), height, width)
  {
    ghost var snapshot := field[..];
    ghost var target := NextGen(snapshot, height, width);
    var size := height * width;
    var nextField := new char[size];
    var y, row := 0, 0;
    while y < height
      invariant 0 <= y <= height && row == y * width && row <= size
      invariant field[..] == snapshot
      invariant forall i :: 0 <= i < row ==> nextField[i] == target[i]
    {
      RowStep(height, width, y);
      var x := 0;
      while x < width
        invariant 0 <= x <= width && row + x <= size
        invariant field[..] == snapshot
        invariant forall i :: 0 <= i < row + x ==> nextField[i] == target[i]
      {
        NextGenCell(snapshot, height, width, y, x);
        var neighbours := CheckNeighbours(field[..], width, height, y, x);
        var cell := field[row + x];
        nextField[row + x] := LifeOrDeath(neighbours, cell);
        x := x + 1;
      }
      y, row := y + 1, row + width;
    }
    assert row == size;
    assert nextField[..] == target;
    y, row := 0, 0;
    while y < height
      invariant 0 <= y <= height && row == y * width && row <= size
      invariant nextField[..] == target
      invariant forall i :: 0 <= i < row ==> field[i] == target[i]
    {
      RowStep(height, width, y);
      var x := 0;
      while x < width
        invariant 0 <= x <= width && row + x <= size
        invariant nextField[..] == target
        invariant forall i :: 0 <= i < row + x ==> field[i] == target[i]
      {
        IndexInRange(height, width, y, x);
        field[row + x] := nextField[row + x];
        x := x + 1;
      }
      y, row := y + 1, row + width;
    }
    assert row == size;
    assert field[..] == target;
    r := field;
  }

  /** The grid after `n` generations. */
  function Generations(field: seq<char>, height: nat, width: nat, n: nat): (g: seq<char>)
    requires Shaped(field, height, width)
    ensures Shaped(g, height, width)
  {
    if n == 0 then field else NextGen(Generations(field, height, width, n - 1), height, width)
  }

  /** The game: `steps` generations applied to `field` in place; a count of
      zero or less leaves it unchanged. The same buffer is returned. */
  method NewGame(width: nat, height: nat, steps: int, field: array<char>) returns (r: array<char>)
    requires field.Length == height * width
    modifies field
    ensures r == field
    ensures field[..] == Generations(old(field[..]), height, width, if steps <= 0 then 0 else steps)
    ensures steps <= 0 ==> field[..] == old(field[..])
  {
    ghost var count := if steps <= 0 then 0 else steps;
    r := field;
    var i := 0;
    while i < steps
      invariant 0 <= i <= count
      invariant r == field
      invariant field[..] == Generations(old(field[..]), height, width, i)
    {
      r := OneGeneration(width, height, r);
      i := i + 1;
    }
  }

  /** Running `k + 1` generations is running `k` generations from the next
      one. */
  lemma {:induction false} GenerationsShift(field: seq<char>, height: nat, width: nat, k: nat)
    requires Shaped(field, height, width)
    ensures Generations(field, height, width, k + 1)
         == Generations(NextGen(field, height, width), height, width, k)
  {
    if k > 0 {
      GenerationsShift(field, height, width, k - 1);
    }
  }

  /** Running `a` generations and then `b` more is running `a + b`. */
  lemma {:induction false} GenerationsAdd(field: seq<char>, height: nat, width: nat, a: nat, b: nat)
    requires Shaped(field, height, width)
    ensures Generations(Generations(field, height, width, a), height, width, b)
         == Generations(field, height, width, a + b)
  {
    if b > 0 {
      GenerationsAdd(field, height, width, a, b - 1);
      assert Generations(Generations(field, height, width, a), height, width, b - 1)
          == Generations(field, height, width, a + b - 1);
    }
  }

  /** After at least one generation every cell holds one of the two symbols. */
  lemma GenerationsSymbols(field: seq<char>, height: nat, width: nat, n: nat)
    requires Shaped(field, height, width) && n >= 1
    ensures forall i :: 0 <= i < height * width ==>
      Generations(field, height, width, n)[i] in {Alive, Dead}
  {
  }

  /** A still life stays as it is for any number of generations. */
  lemma {:induction false} StillLife(field: seq<char>, height: nat, width: nat, n: nat)
    requires Shaped(field, height, width) && NextGen(field, height, width) == field
    ensures Generations(field, height, width, n) == field
  {
    if n > 0 {
      StillLife(field, height, width, n - 1);
    }
  }

  /** A grid without live cells becomes all dead and stays so. */
  lemma {:induction false} NoLifeStaysDead(field: seq<char>, height: nat, width: nat, n: nat)
    requires Shaped(field, height, width) && n >= 1
    requires forall i :: 0 <= i < |field| ==> field[i] != Alive
    ensures forall i :: 0 <= i < height * width ==> Generations(field, height, width, n)[i] == Dead
  {
    var prev := Generations(field, height, width, n - 1);
    if n > 1 {
      NoLifeStaysDead(field, height, width, n - 1);
    }
    forall i | 0 <= i < height * width
      ensures NextGen(prev, height, width)[i] == Dead
    {
      IndexCell(height, width, i);
      assert i == (i / width) * width + i % width;
      var y, x := i / width, i % width;
      NoLiveNoNeighbours(prev, height, width, y, x);
      NextGenCell(prev, height, width, y, x);
    }
  }

  /** A buffer whose every cell is the next state of the same cell of
      `field` is the next generation of `field`. */
  lemma NextGenByCells(field: seq<char>, expected: seq<char>, height: nat, width: nat)
    requires Shaped(field, height, width) && Shaped(expected, height, width)
    requires forall y, x :: InGrid(height, width, y, x) ==>
      NextCell(field, height, width, y, x) == At(expected, height, width, y, x)
    ensures NextGen(field, height, width) == expected
  {
    forall i | 0 <= i < height * width
      ensures NextGen(field, height, width)[i] == expected[i]
    {
      IndexCell(height, width, i);
      var y, x := i / width, i % width;
      NextRowsAt(field, height, width, height, y, x);
      assert NextCell(field, height, width, y, x) == At(expected, height, width, y, x);
    }
  }

  /** One row of the blinker's next generation, cell by cell. */
  lemma BlinkerRow(field: seq<char>, expected: seq<char>, y: int)
    requires field == "...XXX..." && expected == ".X..X..X." && 0 <= y < 3
    ensures forall x | 0 <= x < 3 :: NextCell(field, 3, 3, y, x) == At(expected, 3, 3, y, x)
  {
    assert NextCell(field, 3, 3, y, 0) == At(expected, 3, 3, y, 0);
    assert NextCell(field, 3, 3, y, 1) == At(expected, 3, 3, y, 1);
    assert NextCell(field, 3, 3, y, 2) == At(expected, 3, 3, y, 2);
  }

  /** The blinker on a 3x3 grid: a row of three live cells turns into a
      column in one generation. */
  lemma Blinker(field: seq<char>, expected: seq<char>)
    requires field == "...XXX..." && expected == ".X..X..X."
    ensures Generations(field, 3, 3, 1) == expected
  {
    forall y, x | InGrid(3, 3, y, x)
      ensures NextCell(field, 3, 3, y, x) == At(expected, 3, 3, y, x)
    {
      BlinkerRow(field, expected, y);
    }
    NextGenByCells(field, expected, 3, 3);
    assert Generations(field, 3, 3, 0) == field;
  }

  /** One row of the block's next generation, cell by cell. */
  lemma BlockRow(field: seq<char>, y: int)
    requires field == ".....XX..XX....." && 0 <= y < 4
    ensures forall x | 0 <= x < 4 :: NextCell(field, 4, 4, y, x) == At(field, 4, 4, y, x)
  {
    assert NextCell(field, 4, 4, y, 0) == At(field, 4, 4, y, 0);
    assert NextCell(field, 4, 4, y, 1) == At(field, 4, 4, y, 1);
    assert NextCell(field, 4, 4, y, 2) == At(field, 4, 4, y, 2);
    assert NextCell(field, 4, 4, y, 3) == At(field, 4, 4, y, 3);
  }

  /** The block, a 2x2 square of live cells in the middle of a 4x4 grid, is
      a still life: five generations leave it as it is. */
  lemma Block(field: seq<char>)
    requires field == ".....XX..XX....."
    ensures Generations(field, 4, 4, 5) == field
  {
    forall y, x | InGrid(4, 4, y, x)
      ensures NextCell(field, 4, 4, y, x) == At(field, 4, 4, y, x)
    {
      BlockRow(field, y);
    }
    NextGenByCells(field, field, 4, 4);
    StillLife(field, 4, 4, 5);
  }
}
